/**
 * The order in which the disk lists keys: character by character, a proper
 * prefix first (`strcmp` on the keys' UTF-8 bytes, which orders characters
 * by code point).
 */
module KeyOrder {

  /** `a` sorts strictly before `b`. */
  predicate Below(a: string, b: string)
  {
    |b| > 0 && (|a| == 0 || a[0] < b[0] || (a[0] == b[0] && Below(a[1..], b[1..])))
  }

  /** Every key sorts strictly before every later key: sorted, no repeats. */
  predicate StrictlySorted(keys: seq<string>)
  {
    forall i, j :: 0 <= i < j < |keys| ==> Below(keys[i], keys[j])
  }

  lemma {:induction false} BelowIrreflexive(a: string)
    ensures !Below(a, a)
  {
    if |a| > 0 {
      BelowIrreflexive(a[1..]);
    }
  }

  lemma {:induction false} BelowAsymmetric(a: string, b: string)
    ensures !(Below(a, b) && Below(b, a))
  {
    if |a| > 0 && |b| > 0 && a[0] == b[0] {
      BelowAsymmetric(a[1..], b[1..]);
    }
  }

  lemma {:induction false} BelowTransitive(a: string, b: string, c: string)
    requires Below(a, b) && Below(b, c)
    ensures Below(a, c)
  {
    if |a| > 0 && a[0] == b[0] && b[0] == c[0] {
      BelowTransitive(a[1..], b[1..], c[1..]);
    }
  }

  /** Two different keys are always ordered one way or the other. */
  lemma {:induction false} BelowTotal(a: string, b: string)
    requires a != b
    ensures Below(a, b) || Below(b, a)
  {
    if |a| > 0 && |b| > 0 && a[0] == b[0] {
      assert a == [a[0]] + a[1..] && b == [b[0]] + b[1..];
      BelowTotal(a[1..], b[1..]);
    }
  }

  /** A key below the first of a sorted sequence is below all of it. */
  lemma BelowAll(key: string, keys: seq<string>)
    requires StrictlySorted(keys) && keys != [] && Below(key, keys[0])
    ensures forall j :: 0 <= j < |keys| ==> Below(key, keys[j])
  {
    forall j | 0 < j < |keys| ensures Below(key, keys[j]) {
      BelowTransitive(key, keys[0], keys[j]);
    }
  }

  /** `keys` with `key` added at its place in the order, unless already there. */
  function Insert(keys: seq<string>, key: string): (r: seq<string>)
    ensures forall p :: p in r <==> p in keys || p == key
    ensures |r| <= |keys| + 1
    ensures StrictlySorted(keys) ==> StrictlySorted(r)
  {
    if keys == [] then [key]
    else if key == keys[0] then keys
    else if Below(key, keys[0]) then
      assert StrictlySorted(keys) ==> StrictlySorted([key] + keys) by {
        if StrictlySorted(keys) {
          BelowAll(key, keys);
        }
      }
      [key] + keys
    else
      BelowTotal(key, keys[0]);
      var rest := Insert(keys[1..], key);
      assert forall p :: p in keys[1..] ==> p in keys;
      assert StrictlySorted(keys) ==> forall j :: 0 <= j < |rest| ==> Below(keys[0], rest[j]) by {
        if StrictlySorted(keys) {
          forall j | 0 <= j < |rest| ensures Below(keys[0], rest[j]) {
            assert rest[j] in rest;
            if rest[j] != key {
              var k :| 0 <= k < |keys[1..]| && keys[1..][k] == rest[j];
              assert keys[k + 1] == rest[j];
            }
          }
        }
      }
      [keys[0]] + rest
  }
}
