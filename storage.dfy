/**
 * The remote disk the backup service talks to (an S3 bucket behind Laravel's
 * Filesystem contract), reduced to the three calls the service makes on it:
 * `allFiles`, `size` and `writeStream`.
 *
 * The store is a sequence of objects with distinct keys. Writing a key that
 * is not stored adds an object; writing a stored key overwrites that object
 * in place. The store's own order does not matter to the service: the
 * listing `allFiles` returns is sorted by key.
 */
module Storage {
  import opened Wrappers
  import opened KeyOrder

  /** One stored object: its key and its size in bytes. */
  datatype RemoteObject = RemoteObject(path: string, size: nat)

  /** A call made on the disk, recorded in the order it was made. */
  datatype DiskCall = ListCall(directory: string) | SizeCall(path: string) | WriteCall(path: string)

  /** The size of the object stored under `path`, or None when no object has that key. */
  function SizeOf(objects: seq<RemoteObject>, path: string): Option<nat>
  {
    if objects == [] then None
    else if objects[|objects| - 1].path == path then Some(objects[|objects| - 1].size)
    else SizeOf(objects[..|objects| - 1], path)
  }

  /** No two stored objects share a key. */
  predicate DistinctPaths(objects: seq<RemoteObject>)
  {
    objects == [] ||
    (SizeOf(objects[..|objects| - 1], objects[|objects| - 1].path).None? &&
     DistinctPaths(objects[..|objects| - 1]))
  }

  /** With distinct keys, `size(path)` is the size of the one object stored under `path`. */
  lemma {:induction false} SizeOfIsStoredSize(objects: seq<RemoteObject>, path: string, size: nat)
    requires DistinctPaths(objects)
    ensures SizeOf(objects, path) == Some(size) <==> RemoteObject(path, size) in objects
  {
    if objects != [] {
      var init, last := objects[..|objects| - 1], objects[|objects| - 1];
      assert objects == init + [last];
      SizeOfIsStoredSize(init, path, size);
    }
  }

  /**
   * `path` names a file inside `directory` or one of its sub-directories: it
   * extends `directory + "/"` and is not itself a directory key ending in "/".
   */
  predicate IsUnder(directory: string, path: string)
  {
    directory + "/" < path && path[|path| - 1] != '/'
  }

  /**
   * What `allFiles(directory)` returns: the keys of every file under
   * `directory`, recursively, sorted by key.
   */
  function Listing(objects: seq<RemoteObject>, directory: string): (r: seq<string>)
    ensures |r| <= |objects|
    ensures forall p :: p in r <==> IsUnder(directory, p) && SizeOf(objects, p).Some?
    ensures StrictlySorted(r)
  {
    if objects == [] then []
    else
      var last := objects[|objects| - 1];
      var rest := Listing(objects[..|objects| - 1], directory);
      if IsUnder(directory, last.path) then Insert(rest, last.path) else rest
  }

  /** The store with every object keyed `path` given size `size`, in place. */
  function Replace(objects: seq<RemoteObject>, path: string, size: nat): (r: seq<RemoteObject>)
    ensures |r| == |objects|
    ensures forall q :: SizeOf(r, q) == if q == path && SizeOf(objects, q).Some? then Some(size) else SizeOf(objects, q)
    ensures forall d :: Listing(r, d) == Listing(objects, d)
    ensures DistinctPaths(objects) ==> DistinctPaths(r)
  {
    if objects == [] then []
    else
      var init, last := objects[..|objects| - 1], objects[|objects| - 1];
      var r := Replace(init, path, size) + [if last.path == path then RemoteObject(path, size) else last];
      assert r[..|r| - 1] == Replace(init, path, size);
      r
  }

  /**
   * The store after a successful write of `size` bytes to `path`: an
   * overwrite when the key exists, otherwise a new object at the end.
   */
  function Put(objects: seq<RemoteObject>, path: string, size: nat): (r: seq<RemoteObject>)
    ensures SizeOf(r, path) == Some(size)
    ensures forall q :: q != path ==> SizeOf(r, q) == SizeOf(objects, q)
    ensures DistinctPaths(objects) ==> DistinctPaths(r)
    ensures SizeOf(objects, path).None? ==> r == objects + [RemoteObject(path, size)]
    ensures SizeOf(objects, path).Some? ==> |r| == |objects|
  {
    if SizeOf(objects, path).Some? then Replace(objects, path, size)
    else
      var r := objects + [RemoteObject(path, size)];
      assert r[..|r| - 1] == objects;
      r
  }

  /** `path` is a stored file under `directory` that sorts after every other one. */
  ghost predicate IsGreatestUnder(objects: seq<RemoteObject>, directory: string, path: string)
  {
    IsUnder(directory, path) && SizeOf(objects, path).Some? &&
    forall q :: IsUnder(directory, q) && SizeOf(objects, q).Some? && q != path ==> Below(q, path)
  }

  /** `allFiles(directory)` is empty exactly when no stored object is under `directory`. */
  lemma {:induction false} ListingEmpty(objects: seq<RemoteObject>, directory: string)
    ensures Listing(objects, directory) == [] <==>
      forall i :: 0 <= i < |objects| ==> !IsUnder(directory, objects[i].path)
  {
    if objects != [] {
      var init := objects[..|objects| - 1];
      ListingEmpty(init, directory);
      assert forall i :: 0 <= i < |init| ==> init[i] == objects[i];
    }
  }

  /** The greatest stored file under `directory` is listed last. */
  lemma GreatestIsListedLast(objects: seq<RemoteObject>, directory: string, path: string)
    requires IsGreatestUnder(objects, directory, path)
    ensures Listing(objects, directory) != []
    ensures Listing(objects, directory)[|Listing(objects, directory)| - 1] == path
  {
    var listing := Listing(objects, directory);
    assert path in listing;
    var last := listing[|listing| - 1];
    if last != path {
      assert last in listing;
      assert Below(last, path);
      var k :| 0 <= k < |listing| && listing[k] == path;
      assert Below(listing[k], listing[|listing| - 1]);
      BelowAsymmetric(path, last);
    }
  }

  /** The key listed last sorts after every other stored file under `directory`. */
  lemma ListedLastIsGreatest(objects: seq<RemoteObject>, directory: string)
    requires Listing(objects, directory) != []
    ensures IsGreatestUnder(objects, directory, Listing(objects, directory)[|Listing(objects, directory)| - 1])
  {
    var listing := Listing(objects, directory);
    var last := listing[|listing| - 1];
    assert last in listing;
    forall q | IsUnder(directory, q) && SizeOf(objects, q).Some? && q != last ensures Below(q, last) {
      assert q in listing;
      var k :| 0 <= k < |listing| && listing[k] == q;
    }
  }

  /**
   * The last key that `allFiles(directory)` returns is exactly the stored
   * file under `directory` that sorts after every other one.
   */
  lemma ListingLast(objects: seq<RemoteObject>, directory: string, path: string)
    ensures (var listing := Listing(objects, directory);
             listing != [] && listing[|listing| - 1] == path) <==> IsGreatestUnder(objects, directory, path)
  {
    if IsGreatestUnder(objects, directory, path) {
      GreatestIsListedLast(objects, directory, path);
    }
    if Listing(objects, directory) != [] {
      ListedLastIsGreatest(objects, directory);
    }
  }

  /**
   * The disk. `calls` is an observation only: it records which calls were
   * made, so that a client's contract can say which were not.
   */
  class Disk {
    var objects: seq<RemoteObject>
    ghost var calls: seq<DiskCall>

    ghost predicate Valid()
      reads this
    {
      DistinctPaths(objects)
    }

    constructor (objects: seq<RemoteObject>)
      requires DistinctPaths(objects)
      ensures Valid() && this.objects == objects && calls == []
    {
      this.objects := objects;
      calls := [];
    }

    /** `allFiles`: every file key under `directory`, recursively, sorted by key. */
    method AllFiles(directory: string) returns (paths: seq<string>)
      requires Valid()
      modifies this`calls
      ensures paths == Listing(objects, directory)
      ensures calls == old(calls) + [ListCall(directory)]
    {
      paths := Listing(objects, directory);
      calls := calls + [ListCall(directory)];
    }

    /** `size`: the byte size of the stored object `path`. */
    method Size(path: string) returns (size: nat)
      requires Valid() && SizeOf(objects, path).Some?
      modifies this`calls
      ensures SizeOf(objects, path) == Some(size)
      ensures calls == old(calls) + [SizeCall(path)]
    {
      size := SizeOf(objects, path).value;
      calls := calls + [SizeCall(path)];
    }

    /**
     * `writeStream`: store `size` bytes under `path`. `accepted` is the
     * storage's own answer, which this model does not decide; a refused
     * write leaves the store as it was.
     */
    method WriteStream(path: string, size: nat, accepted: bool) returns (ok: bool)
      requires Valid()
      modifies this
      ensures Valid()
      ensures ok == accepted
      ensures objects == if accepted then Put(old(objects), path, size) else old(objects)
      ensures calls == old(calls) + [WriteCall(path)]
    {
      if accepted {
        objects := Put(objects, path, size);
      }
      ok := accepted;
      calls := calls + [WriteCall(path)];
    }
  }
}
