# BackupService: conditional SQLite backup, in Dafny

This project models `BackupService::sqliteBDBackup` and its private helpers.
The method uploads the local `database.sqlite` to the service's storage disk
under `db-backups/<env>/<timestamp>-database.sqlite`. It does so only when
there is no earlier backup for that environment, or when the last one differs
in byte size from the local file.

Modules:

- `Wrappers`: `Option`, standing for PHP's `?string`.
- `KeyOrder`: the order the disk lists keys in. `Below` compares keys
  character by character, a proper prefix first. This is `strcmp` on the
  keys' UTF-8 bytes. Its laws are proved: irreflexive, asymmetric,
  transitive, total. `Insert` puts a key in its place in a sorted sequence.
- `Storage`: the disk. The store is a sequence of `RemoteObject(path, size)`
  with distinct keys. `Listing` is `allFiles`: every file key under the
  directory, recursively, sorted by key, as Laravel's listing sorts by path.
  `SizeOf` is `size`. `Put` is a successful `writeStream`: it overwrites a
  stored key in place, or adds a new key. `Disk` is a class whose `objects`
  field its `WriteStream` method updates. A ghost `calls` log records each
  list, size and write call (`ListCall`, `SizeCall`, `WriteCall`), so
  contracts can say which calls were not made.
- `Backup`: the service. `BackupService` is a class holding its `Disk`. Its
  methods `SqliteBDBackup`, `GetLastBackup`, `ShouldBackup` and
  `PerformBackup` follow the source's early returns and call sequence.
  `Expected` states one whole call as a value: the result, the new store and
  the calls made. `SqliteBDBackup` is proved equal to it. The lemmas prove the
  service's rules about `Expected`.

Inputs of a call:

- `env`: the value of `config('app.env')`.
- `timestamp`: the already formatted `now()->format('Y-m-d_H:i:s')`.
- `source`: a `LocalFile(present, readable, size)` record for the fixed file
  `database_path('database.sqlite')`.
- `accepted`: the storage's answer to the write. A refused write leaves the
  store unchanged.

The local file is a value, so no call can modify it.

PHP's `! $lastBackup` is modelled as it is written: null, `""` or `"0"`.
`ListedPathsAreTruthy` shows that a listed key is never `""` or `"0"`. So the
test means "there is no last backup", as the design describes it.

Equal sizes count as "already backed up", even when the contents differ. That
is the source's intended heuristic, and the model keeps it.

## Model

| member | source | states |
|---|---|---|
| `KeyOrder.Insert` | src/Service/BackupService.php:74 | inserting a key into a strictly sorted sequence gives a strictly sorted sequence holding exactly the old keys and the new one |
| `Storage.SizeOfIsStoredSize` | src/Service/BackupService.php:86 | with distinct keys, `size(path)` is `n` exactly when the object `(path, n)` is stored, and None exactly when no object has that key |
| `Storage.Listing` | src/Service/BackupService.php:74 | the listing holds exactly the stored file keys lying under the directory, strictly sorted by key, and no more keys than the store has |
| `Storage.Replace` | src/Service/BackupService.php:102 | overwriting a stored key changes that key's size only, keeps every listing and keeps keys distinct |
| `Storage.Put` | src/Service/BackupService.php:102 | after a write the destination has the written size and every other key keeps its size. A new key is added as one more object. Keys stay distinct |
| `Storage.ListingEmpty` | src/Service/BackupService.php:74 | the listing is empty exactly when no stored object is under the directory |
| `Storage.ListingLast` | src/Service/BackupService.php:74 | the listing's last key is, in both directions, the stored file under the directory that sorts after every other one |
| `Storage.Disk.constructor` | src/Service/BackupService.php:24-27 | the disk starts with the given distinct-key store and no calls recorded |
| `Storage.Disk.AllFiles` | src/Service/BackupService.php:74 | returns the sorted listing of the directory and changes no stored object |
| `Storage.Disk.Size` | src/Service/BackupService.php:86 | returns the stored size of the key and changes no stored object |
| `Storage.Disk.WriteStream` | src/Service/BackupService.php:102 | returns the storage's answer. The store becomes `Put` of the old store when the write is accepted, and is unchanged otherwise |
| `Backup.IsSourceFileValid` | src/Service/BackupService.php:61-64 | the source file is valid exactly when it exists and is readable |
| `Backup.DestinationPath` | src/Service/BackupService.php:39 | the destination is `db-backups/<env>/` followed by `<timestamp>-database.sqlite`, and it lies under the listed directory |
| `Backup.LastOf` | src/Service/BackupService.php:74 | `last()` is null exactly for an empty listing, and otherwise the listing's final element |
| `Backup.PhpFalsy` | src/Service/BackupService.php:48 | PHP's `!` on a string: only `""` and `"0"` are false |
| `Backup.LastBackup` | src/Service/BackupService.php:72-75 | `LastOf` of the sorted listing under `db-backups/<env>`. When there is one, it is a stored file under that directory, and every other listed key sorts before it |
| `Backup.Expected` | src/Service/BackupService.php:34-53 | a call returns true only if the source is valid and the write was accepted. The store is either unchanged or `Put` of the destination with the local size |
| `Backup.BackupService.constructor` | src/Service/BackupService.php:24-27 | the service holds the given disk |
| `Backup.BackupService.SqliteBDBackup` | src/Service/BackupService.php:34-53 | the result, the new store and the disk calls made are exactly those of `Expected` on the old store, and the keys stay distinct |
| `Backup.BackupService.GetLastBackup` | src/Service/BackupService.php:72-75 | returns the last key listed under `db-backups/<env>`, or None. The key is stored. One list call is made |
| `Backup.BackupService.ShouldBackup` | src/Service/BackupService.php:84-89 | true exactly when the remote size of the last backup differs from the local size. One size call is made |
| `Backup.BackupService.PerformBackup` | src/Service/BackupService.php:98-103 | writes the local size to the destination and returns the storage's answer. One write call is made |
| `Backup.InvalidSourceTouchesNothing` | src/Service/BackupService.php:41-43 | a missing or unreadable source gives false. The store is unchanged and the disk is never called: no listing, no size, no write |
| `Backup.ListedPathsAreTruthy` | src/Service/BackupService.php:48 | no key listed under `db-backups/<env>` is `""` or `"0"`, so `! $lastBackup` holds only for null |
| `Backup.NoLastBackupIffNoneUnderDir` | src/Service/BackupService.php:72-75 | the last backup is None exactly when no stored key is under `db-backups/<env>` |
| `Backup.LastBackupIsGreatestUnderDir` | src/Service/BackupService.php:72-75 | the last backup is `p` exactly when `p` is the stored backup key under `db-backups/<env>` that sorts after every other one |
| `Backup.FirstBackupWrites` | src/Service/BackupService.php:46-49 | with no earlier backup, the call lists, then writes the destination, and returns the write's answer. An accepted write adds the new backup to the store |
| `Backup.EqualSizeSkips` | src/Service/BackupService.php:48-52 | when the last backup has the local size, the call returns false after listing and one size read. It makes no write and leaves the store unchanged |
| `Backup.DifferentSizeWrites` | src/Service/BackupService.php:48-49 | when the last backup's size differs, the call lists, reads that size and writes the destination. It returns the write's answer |
| `Backup.UploadIffNoBackupOrSizeDiffers` | src/Service/BackupService.php:41-52 | a write happens if and only if the source is valid and there is no last backup or its size differs |
| `Backup.OnlyDestinationWritten` | src/Service/BackupService.php:48-52 | at most one write is made, as the final call and to the destination. Every other key keeps its size, and keys stay distinct |
| `Backup.TrueOnlyAfterAcceptedWrite` | src/Service/BackupService.php:42-52 | true implies the destination was written, the storage accepted it and the destination now holds the local size |
| `Backup.SecondCallSkips` | src/Service/BackupService.php:46-52 | suppose a successful backup's key sorts after every backup already stored for the environment. Then a second call with an unchanged local file returns false, writes nothing and leaves the store unchanged |
| `Backup.LaterSortingFileKeepsBeingCompared` | src/Service/BackupService.php:46-52 | suppose a stored file under `db-backups/<env>` sorts after the new backup key and its size differs from the local size. Then the call writes, that file stays the last backup, and a second call with the same local file writes again |

## Left out

- The currency formatter trait (`src/Traits/CurrencyFormatterTrait.php`). It is float division handed to ICU number formatting with Brazilian locale data.
- The date reformatting trait (`src/Traits/DateTimeTrait.php`). Its behaviour is Carbon's and PHP DateTime's parsing.
- Laravel plumbing: `Storage::disk`, `config('app.env')`, `now()->format(...)`, `database_path`, `\File::size` and `fopen`. The disk is a constructor argument. The environment, the timestamp and the local file record are parameters of the call.
- Storage client behaviour: authentication, streaming, retries and errors. The write's outcome is the boolean parameter `accepted`. A refused write is assumed to leave the store unchanged.
- Storage.Disk.Size: requires the key to be stored. Flysystem throws for a missing key, but the service only asks for the size of a key it has just listed.
- Backup.SecondCallSkips: assumes, as a precondition, that the new key sorts after every backup already stored for the environment. Timestamp-named keys do this only when the clock moves forward and no other file name under the directory sorts later, such as `archive/...`. The model does not derive it from the clock.
- Path normalisation. Keys are compared exactly as given. Flysystem drops empty and "." segments and resolves ".." before it lists or writes. So an `env` that is empty, or that contains such segments, is outside the model. In the source, an empty `env` lists all of `db-backups` and writes `db-backups/<timestamp>-database.sqlite`.
- Directory entries. `Listing` skips keys ending in "/", as the source lists only files. Other ways a store can hold directories, such as empty-directory placeholders, are not modelled.
- Concurrent calls racing on one environment. The source has no locking, and the model runs one call at a time.
- The bytes of the file. The store keeps only sizes. Equal sizes with different contents are skipped, as in the source.
