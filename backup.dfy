/**
 * The conditional SQLite backup of `BackupService`: upload the local database
 * file to `db-backups/<env>/<timestamp>-database.sqlite` when there is no
 * earlier backup for the environment, or when the last one differs in size.
 *
 * The environment name, the formatted timestamp and the local file are inputs
 * of a call; the storage's answer to the one write is the input `accepted`.
 */
module Backup {
  import opened Wrappers
  import opened KeyOrder
  import opened Storage

  /** What the service learns about the local database file. */
  datatype LocalFile = LocalFile(present: bool, readable: bool, size: nat)

  /** What one call returns, the store it leaves behind and the disk calls it made. */
  datatype Effect = Effect(result: bool, objects: seq<RemoteObject>, calls: seq<DiskCall>)

  /** `isSourceFileValid`: the file exists and is readable. */
  predicate IsSourceFileValid(source: LocalFile)
  {
    source.present && source.readable
  }

  /** The remote directory holding the backups of one environment. */
  function BackupDir(env: string): string
  {
    "db-backups/" + env
  }

  /** Where a backup taken at `timestamp` is written. */
  function DestinationPath(env: string, timestamp: string): (r: string)
    ensures IsUnder(BackupDir(env), r)
    ensures r[..|BackupDir(env)| + 1] == BackupDir(env) + "/"
    ensures r[|BackupDir(env)| + 1..] == timestamp + "-database.sqlite"
  {
    var r := BackupDir(env) + "/" + timestamp + "-database.sqlite";
    assert r[..|BackupDir(env)| + 1] == BackupDir(env) + "/";
    r
  }

  /** PHP's `!$s` for a string: only "" and "0" are false. */
  predicate PhpFalsy(s: string)
  {
    s == "" || s == "0"
  }

  /** `collect(...)->last()`: the final element, or null for an empty list. */
  function LastOf(listing: seq<string>): (r: Option<string>)
    ensures r.None? <==> listing == []
    ensures r.Some? ==> r.value == listing[|listing| - 1]
  {
    if listing == [] then None else Some(listing[|listing| - 1])
  }

  /** `getLastBackup(env)` over a given store. */
  function LastBackup(objects: seq<RemoteObject>, env: string): (r: Option<string>)
    ensures r.Some? ==> IsUnder(BackupDir(env), r.value) && SizeOf(objects, r.value).Some?
    ensures r.Some? ==> forall q :: q in Listing(objects, BackupDir(env)) ==> q == r.value || Below(q, r.value)
  {
    LastOf(Listing(objects, BackupDir(env)))
  }

  /**
   * The whole of `sqliteBDBackup` as a value: the result, the new store and
   * the disk calls, in order.
   */
  function Expected(objects: seq<RemoteObject>, source: LocalFile, env: string, timestamp: string,
                    accepted: bool): (e: Effect)
    ensures e.result ==> accepted && IsSourceFileValid(source)
    ensures e.objects == objects || e.objects == Put(objects, DestinationPath(env, timestamp), source.size)
  {
    if !IsSourceFileValid(source) then Effect(false, objects, [])
    else
      var directory := BackupDir(env);
      var destination := DestinationPath(env, timestamp);
      var written := if accepted then Put(objects, destination, source.size) else objects;
      var last := LastBackup(objects, env);
      if last.None? || PhpFalsy(last.value) then
        Effect(accepted, written, [ListCall(directory), WriteCall(destination)])
      else if SizeOf(objects, last.value).value != source.size then
        Effect(accepted, written, [ListCall(directory), SizeCall(last.value), WriteCall(destination)])
      else
        Effect(false, objects, [ListCall(directory), SizeCall(last.value)])
  }

  /** The service: it holds the disk it backs up to. */
  class BackupService {
    const disk: Disk

    constructor (disk: Disk)
      ensures this.disk == disk
    {
      this.disk := disk;
    }

    /** `sqliteBDBackup`. */
    method SqliteBDBackup(env: string, timestamp: string, source: LocalFile, accepted: bool) returns (ok: bool)
      requires disk.Valid()
      modifies disk
      ensures disk.Valid()
      ensures var e := Expected(old(disk.objects), source, env, timestamp, accepted);
              ok == e.result && disk.objects == e.objects && disk.calls == old(disk.calls) + e.calls
    {
      var destination := DestinationPath(env, timestamp);
      if !IsSourceFileValid(source) {
        return false;
      }
      var localSize := source.size;
      var lastBackup := GetLastBackup(env);
      var backup := lastBackup.None? || PhpFalsy(lastBackup.value);
      if !backup {
        backup := ShouldBackup(lastBackup.value, localSize);
      }
      if backup {
        ok := PerformBackup(destination, localSize, accepted);
        return;
      }
      return false;
    }

    /** `getLastBackup`: the last key listed under `db-backups/<env>`, or null. */
    method GetLastBackup(env: string) returns (last: Option<string>)
      requires disk.Valid()
      modifies disk`calls
      ensures last == LastBackup(disk.objects, env)
      ensures last.Some? ==> SizeOf(disk.objects, last.value).Some?
      ensures disk.calls == old(disk.calls) + [ListCall(BackupDir(env))]
    {
      var paths := disk.AllFiles(BackupDir(env));
      last := LastOf(paths);
    }

    /** `shouldBackup`: whether the remote size of `lastBackup` differs from `localSize`. */
    method ShouldBackup(lastBackup: string, localSize: nat) returns (differs: bool)
      requires disk.Valid() && SizeOf(disk.objects, lastBackup).Some?
      modifies disk`calls
      ensures differs <==> SizeOf(disk.objects, lastBackup) != Some(localSize)
      ensures disk.calls == old(disk.calls) + [SizeCall(lastBackup)]
    {
      var remoteSize := disk.Size(lastBackup);
      differs := localSize != remoteSize;
    }

    /** `performBackup`: stream the local file (`size` bytes) to `destination`. */
    method PerformBackup(destination: string, size: nat, accepted: bool) returns (ok: bool)
      requires disk.Valid()
      modifies disk
      ensures disk.Valid()
      ensures ok == accepted
      ensures disk.objects == if accepted then Put(old(disk.objects), destination, size) else old(disk.objects)
      ensures disk.calls == old(disk.calls) + [WriteCall(destination)]
    {
      ok := disk.WriteStream(destination, size, accepted);
    }
  }

  // Properties of one call.

  /** A missing or unreadable source: false, and the disk is not called at all. */
  lemma InvalidSourceTouchesNothing(objects: seq<RemoteObject>, source: LocalFile, env: string,
                                    timestamp: string, accepted: bool)
    requires !source.present || !source.readable
    ensures var e := Expected(objects, source, env, timestamp, accepted);
            !e.result && e.objects == objects && e.calls == []
  {
  }

  /** Keys under a backup directory are never PHP-falsy, so `!$lastBackup` means "null". */
  lemma ListedPathsAreTruthy(objects: seq<RemoteObject>, env: string)
    ensures forall p :: p in Listing(objects, BackupDir(env)) ==> !PhpFalsy(p)
  {
  }

  /**
   * There is no last backup exactly when no stored key is under
   * `db-backups/<env>`.
   */
  lemma NoLastBackupIffNoneUnderDir(objects: seq<RemoteObject>, env: string)
    ensures LastBackup(objects, env).None? <==>
      forall i :: 0 <= i < |objects| ==> !IsUnder(BackupDir(env), objects[i].path)
  {
    ListingEmpty(objects, BackupDir(env));
  }

  /**
   * The last backup is exactly the stored backup key under `db-backups/<env>`
   * that sorts after every other one.
   */
  lemma LastBackupIsGreatestUnderDir(objects: seq<RemoteObject>, env: string, path: string)
    ensures LastBackup(objects, env) == Some(path) <==> IsGreatestUnder(objects, BackupDir(env), path)
  {
    ListingLast(objects, BackupDir(env), path);
  }

  /**
   * No earlier backup: the file is written to the destination, which becomes
   * a new object at the end of the store, and the result is the write's.
   */
  lemma {:induction false} FirstBackupWrites(objects: seq<RemoteObject>, source: LocalFile, env: string,
                                             timestamp: string, accepted: bool)
    requires IsSourceFileValid(source)
    requires forall i :: 0 <= i < |objects| ==> !IsUnder(BackupDir(env), objects[i].path)
    ensures var e := Expected(objects, source, env, timestamp, accepted);
            var destination := DestinationPath(env, timestamp);
            e.result == accepted &&
            e.calls == [ListCall(BackupDir(env)), WriteCall(destination)] &&
            e.objects == if accepted then objects + [RemoteObject(destination, source.size)] else objects
  {
    ListingEmpty(objects, BackupDir(env));
  }

  /** The last backup has the local size: false, no write, store unchanged. */
  lemma EqualSizeSkips(objects: seq<RemoteObject>, source: LocalFile, env: string,
                       timestamp: string, accepted: bool)
    requires IsSourceFileValid(source)
    requires LastBackup(objects, env).Some?
    requires SizeOf(objects, LastBackup(objects, env).value) == Some(source.size)
    ensures var e := Expected(objects, source, env, timestamp, accepted);
            !e.result && e.objects == objects &&
            e.calls == [ListCall(BackupDir(env)), SizeCall(LastBackup(objects, env).value)]
  {
  }

  /** The last backup has another size: the destination is written and the result is the write's. */
  lemma DifferentSizeWrites(objects: seq<RemoteObject>, source: LocalFile, env: string,
                            timestamp: string, accepted: bool)
    requires IsSourceFileValid(source)
    requires LastBackup(objects, env).Some?
    requires SizeOf(objects, LastBackup(objects, env).value) != Some(source.size)
    ensures var e := Expected(objects, source, env, timestamp, accepted);
            var destination := DestinationPath(env, timestamp);
            e.result == accepted &&
            e.calls == [ListCall(BackupDir(env)), SizeCall(LastBackup(objects, env).value), WriteCall(destination)] &&
            e.objects == if accepted then Put(objects, destination, source.size) else objects
  {
  }

  /**
   * The decision rule, both ways: a write is made exactly when the source is
   * valid and there is no last backup or its size differs from the local one.
   */
  lemma UploadIffNoBackupOrSizeDiffers(objects: seq<RemoteObject>, source: LocalFile, env: string,
                                       timestamp: string, accepted: bool)
    ensures var e := Expected(objects, source, env, timestamp, accepted);
            var last := LastBackup(objects, env);
            WriteCall(DestinationPath(env, timestamp)) in e.calls <==>
              IsSourceFileValid(source) &&
              (last.None? || SizeOf(objects, last.value) != Some(source.size))
  {
  }

  /**
   * At most one write, always the last call and always to the destination;
   * every other key keeps its size, and the key set stays duplicate-free.
   */
  lemma OnlyDestinationWritten(objects: seq<RemoteObject>, source: LocalFile, env: string,
                               timestamp: string, accepted: bool)
    requires DistinctPaths(objects)
    ensures var e := Expected(objects, source, env, timestamp, accepted);
            var destination := DestinationPath(env, timestamp);
            (forall i :: 0 <= i < |e.calls| && e.calls[i].WriteCall? ==>
               i == |e.calls| - 1 && e.calls[i].path == destination) &&
            (forall q :: q != destination ==> SizeOf(e.objects, q) == SizeOf(objects, q)) &&
            DistinctPaths(e.objects)
  {
    var e := Expected(objects, source, env, timestamp, accepted);
    var destination := DestinationPath(env, timestamp);
    var last := LastBackup(objects, env);
    if IsSourceFileValid(source) && last.Some? && !PhpFalsy(last.value) &&
       SizeOf(objects, last.value).value == source.size {
      assert e.calls == [ListCall(BackupDir(env)), SizeCall(last.value)];
    }
    if e.objects != objects {
      assert e.objects == Put(objects, destination, source.size);
    }
  }

  /**
   * True only if the write was made and the storage accepted it; the backup
   * is then stored under the destination with the local size.
   */
  lemma TrueOnlyAfterAcceptedWrite(objects: seq<RemoteObject>, source: LocalFile, env: string,
                                   timestamp: string, accepted: bool)
    ensures var e := Expected(objects, source, env, timestamp, accepted);
            var destination := DestinationPath(env, timestamp);
            e.result ==>
              accepted && WriteCall(destination) in e.calls &&
              SizeOf(e.objects, destination) == Some(source.size)
  {
  }

  // Properties of consecutive calls.

  /**
   * After a successful backup whose key sorts after every backup already
   * stored for the environment (as timestamp-named keys do), a second call
   * with the same local file finds that backup last, skips and changes nothing.
   */
  lemma SecondCallSkips(objects: seq<RemoteObject>, source: LocalFile, env: string,
                        timestamp: string, later: string, accepted: bool, accepted2: bool)
    requires forall q :: IsUnder(BackupDir(env), q) && SizeOf(objects, q).Some? ==>
               Below(q, DestinationPath(env, timestamp))
    requires Expected(objects, source, env, timestamp, accepted).result
    ensures var first := Expected(objects, source, env, timestamp, accepted);
            var second := Expected(first.objects, source, env, later, accepted2);
            !second.result && second.objects == first.objects &&
            WriteCall(DestinationPath(env, later)) !in second.calls
  {
    var destination := DestinationPath(env, timestamp);
    var first := Expected(objects, source, env, timestamp, accepted);
    TrueOnlyAfterAcceptedWrite(objects, source, env, timestamp, accepted);
    assert first.objects == Put(objects, destination, source.size);
    assert IsGreatestUnder(first.objects, BackupDir(env), destination);
    LastBackupIsGreatestUnderDir(first.objects, env, destination);
    EqualSizeSkips(first.objects, source, env, later, accepted2);
  }

  /**
   * When a stored file under the environment's directory (a non-backup such
   * as `archive/old.sqlite`) sorts after the new backup key, it stays the last
   * listed key. So a second call with an unchanged local file compares
   * against that file's size, and writes again when it differs.
   */
  lemma LaterSortingFileKeepsBeingCompared(objects: seq<RemoteObject>, source: LocalFile, env: string,
                                           timestamp: string, later: string, accepted2: bool, path: string)
    requires IsSourceFileValid(source)
    requires IsGreatestUnder(objects, BackupDir(env), path)
    requires Below(DestinationPath(env, timestamp), path)
    requires SizeOf(objects, path) != Some(source.size)
    ensures var first := Expected(objects, source, env, timestamp, true);
            var second := Expected(first.objects, source, env, later, accepted2);
            first.result && LastBackup(first.objects, env) == Some(path) &&
            second.result == accepted2 && WriteCall(DestinationPath(env, later)) in second.calls
  {
    var destination := DestinationPath(env, timestamp);
    BelowIrreflexive(path);
    LastBackupIsGreatestUnderDir(objects, env, path);
    DifferentSizeWrites(objects, source, env, timestamp, true);
    var first := Expected(objects, source, env, timestamp, true);
    assert first.objects == Put(objects, destination, source.size);
    assert IsGreatestUnder(first.objects, BackupDir(env), path);
    LastBackupIsGreatestUnderDir(first.objects, env, path);
    DifferentSizeWrites(first.objects, source, env, later, accepted2);
  }
}
