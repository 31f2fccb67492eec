# grandcentral storage engine, modelled in Dafny

grandcentral is a small versioned key–value message store. Its storage
engine keeps, for every key, the history of values written to it. Three
operations make up the contract every backend shares: `read(key)` gives the
newest value, `write(key, value)` appends a new version, and `backlog(key)`
yields the history newest first. A key without history makes `read` and
`backlog` raise `KeyError(key)`.

The model covers both backends:

- `storage.dfy`, module `Storage`: the shared result type (`Ok` or
  `KeyError(key)`) and the in-memory reference backend `MemoryStorage`.
  It is a class whose field `mem` is the dictionary from each key to its
  list of values, oldest first. `read`, `write` and `backlog` are methods.
  Each is proved equal to a function of the dictionary (`ReadOf`, `WriteTo`,
  `BacklogOf`), and the properties are proved as lemmas about those
  functions: for one write, and for any sequence of writes replayed on a
  fresh store (`Replay`, `Written`).
- `sqlalchemystorage.dfy`, module `SqlStorage`: the durable backend
  `SQLAlchemyStorage`. Its `records` table is a sequence of `Record` rows
  `(key, timestamp, value, attachment)` in insertion order. The attachment
  directory is a map from file path to bytes. The query
  `filter(key).order_by(timestamp desc)` is `Query` = `Select` followed by
  an insertion sort (`SortNewestFirst`). `read` is the pure function `ReadOf`
  over the table: the first row of the query. `write` and `backlog` are
  methods of the class. `write` appends one row through `AddRow`, which
  refuses a row whose primary key `(key, timestamp)` is already taken.
  `backlog` loops over the query with the source's `yielded` flag.
  Attachment paths come from `FilePath` (`base/d0/d0d1/digest`).
- `backends.dfy`, module `Backends`: the two backends agree. Replaying the
  same writes on both gives the same `read` for every key, and the same
  `backlog` once the durable backend's timestamps are dropped, `KeyError`
  included, whatever attachments the writes carry. This assumes the SQL
  backend's clock strictly increases.

Abstractions:
- SHA-1 is a function `sha1: Bytes -> string` given to the constructor,
  which must return 40-character digests.
- The wall clock is the integer `now` passed to `Write`.
- Stored values are opaque: the type parameter `V` stands for the
  JSON-encoded value.
- The constructor takes the table and the files an earlier run left behind.
  The database and the directory persist across runs.

Behaviour of the code that the model keeps:
- Two writes to one key with the same timestamp are not ordered by
  insertion. The primary key makes the second commit fail. `Write` reports
  `IntegrityError` and leaves the table unchanged.
- Attachments are not deduplicated by an existence check. The file is
  rewritten unconditionally. Identical digests still share one path, so one
  file per digest remains (`SameDigestOneBlob`). The file is written before
  the commit, so a refused commit leaves the file behind, and no row ever
  names a missing file (`AttachmentsOnDisk`, part of the class invariant).
- The two `backlog`s yield different shapes: the in-memory backend yields
  bare values, the durable backend `(timestamp, value)` pairs. After
  writing 1 then 2 to `x`, one yields `[2, 1]` and the other
  `[(t2, 2), (t1, 1)]`, so a caller of `backlog` cannot swap one backend
  for the other. `BacklogOf` in `SqlStorage` keeps the pairs, and
  `BackendsAgree` compares the backlogs only after dropping the timestamps.
- `read` on the durable backend answers the row with the greatest
  timestamp. That row is the last write only if the clock went forward
  (`SqlStorage.ReadAfterWrite` requires this).

## Model

| member | source | states |
|---|---|---|
| `Storage.Reverse` | grandcentral/storage.py:55 | The backlog order: the result has the input's length, and its element `i` is the input's element `n-1-i`, so the newest value comes first. |
| `Storage.ReadOf` | grandcentral/storage.py:42-43 | `read` on the dictionary: the last element of the key's list, or `KeyError(key)`. Its promises are proved in `ReadOfReplay`, `MissingKey`, `ReadAfterWrite` and `ReadIsNewestOfBacklog`. |
| `Storage.WriteTo` | grandcentral/storage.py:45-49 | `write` on the dictionary. Its promises are proved in `WriteAppends`, `WriteIsolation` and `ReplayHistory`. |
| `Storage.BacklogOf` | grandcentral/storage.py:51-55 | `backlog` on the dictionary: the key's list reversed, or `KeyError(key)`. Its promises are proved in `BacklogOfReplay`, `MissingKey` and `ReadAfterWrite`. |
| `Storage.WriteAppends` | grandcentral/storage.py:45-49 | `write(k, v)` makes the history of `k` the old history followed by `[v]`, one longer. It adds `k` to the keys and no other key. Every other key's history is unchanged, and every list stays non-empty. |
| `Storage.ReadAfterWrite` | grandcentral/storage.py:42-49 | After `write(k, v)`, `read(k)` is `v`. `backlog(k)` is `[v]` followed by the previous backlog, or `[v]` for a new key. |
| `Storage.WriteIsolation` | grandcentral/storage.py:45-49 | Writing to `j != k` leaves both `read(k)` and `backlog(k)` unchanged. |
| `Storage.MissingKey` | grandcentral/storage.py:42-53 | For a key absent from the dictionary, `read` and `backlog` both raise `KeyError` carrying that key. |
| `Storage.ReadIsNewestOfBacklog` | grandcentral/storage.py:42-55 | `read(k)` succeeds exactly when `backlog(k)` does. When they succeed, the backlog is non-empty and `read(k)` is its first element. |
| `Storage.ReplayHistory` | grandcentral/storage.py:45-49 | After any sequence of writes on a fresh store, each key's list is exactly the values written to it, in order. A key is present exactly when something was written to it. Every list is non-empty. |
| `Storage.ReadOfReplay` | grandcentral/storage.py:42-49 | After any sequence of writes, `read(k)` is the value of the last write to `k`, or `KeyError(k)` if there was none. |
| `Storage.BacklogOfReplay` | grandcentral/storage.py:51-55 | After any sequence of writes, `backlog(k)` is the reverse of the values written to `k`, one entry per write, or `KeyError(k)` if there was none. |
| `Storage.StorageScenarios` | tests/tests.py:68-94 | The test scenarios hold. Writing 1 to `x` reads back 1. Writing `y` after `x` reads back 2 for `y`. `read('x')` and `backlog('x')` raise `KeyError('x')` on a fresh store. Writing 1 then 2 to `x` gives the backlog `[2, 1]`. |
| `Storage.MemoryStorage.constructor` | grandcentral/storage.py:39-40 | A new store has an empty dictionary and satisfies the non-empty-list invariant. |
| `Storage.MemoryStorage.Read` | grandcentral/storage.py:42-43 | Answers `ReadOf` of the dictionary: the last element of the key's list, or `KeyError(key)`. |
| `Storage.MemoryStorage.Write` | grandcentral/storage.py:45-49 | Keeps the invariant. The new dictionary is `WriteTo` of the old one: the key's list is created if absent, then extended by the value. |
| `Storage.MemoryStorage.Backlog` | grandcentral/storage.py:51-55 | Answers `BacklogOf` of the dictionary: the key's list reversed, or `KeyError(key)` with nothing yielded. |
| `SqlStorage.PrimaryKeyUnique` | grandcentral/sqlalchemystorage.py:52-62 | The `records` table (`Record` rows of key, timestamp, value, attachment) under its primary-key constraint: no two rows share `(key, timestamp)`. Kept by `AddRowKeepsTable` and by the class invariant. |
| `SqlStorage.AddRow` | grandcentral/sqlalchemystorage.py:133-134 | `sess.add` and `commit` under the primary key: the row is appended unless its key is taken. Its promises are proved in `AddRowKeepsTable`. |
| `SqlStorage.AddRowKeepsTable` | grandcentral/sqlalchemystorage.py:52-56 | Adding a row keeps the primary key `(key, timestamp)` unique. The table grows by exactly one row when the key is free and by none otherwise. Existing rows are not modified, and the new row is last. |
| `SqlStorage.Select` | grandcentral/sqlalchemystorage.py:107-108 | `filter(Record.key == key)`: the rows of the key, in table order. Its promises are proved in `SelectRows`. |
| `SqlStorage.SortNewestFirst` | grandcentral/sqlalchemystorage.py:109 | `order_by(Record.timestamp.desc())`, as an insertion sort. Its promises are proved in `SortRows`, `SortEntries` and `SortStrictly`. |
| `SqlStorage.Query` | grandcentral/sqlalchemystorage.py:137-139 | The whole query: the filter, then the ordering. Its promises are proved in `QueryRows` and `QueryHeadIsNewest`. |
| `SqlStorage.SelectRows` | grandcentral/sqlalchemystorage.py:107-108 | The filter on the key: every selected row is a table row with that key, and every table row with that key is selected. |
| `SqlStorage.SortRows` | grandcentral/sqlalchemystorage.py:109 | The descending-timestamp ordering: the result is in non-increasing timestamp order and is a permutation of the input. |
| `SqlStorage.SortEntries` | grandcentral/sqlalchemystorage.py:109 | Ordering the rows only rearranges their `(timestamp, value)` entries: the multiset of entries is unchanged. |
| `SqlStorage.QueryRows` | grandcentral/sqlalchemystorage.py:137-139 | The backlog query is newest first and is a permutation of the key's rows. It holds every row with the key and nothing else. It is empty exactly when no row has the key. |
| `SqlStorage.QueryHeadIsNewest` | grandcentral/sqlalchemystorage.py:107-110 | The first row of a non-empty query is a table row with the key. Its timestamp is greater than or equal to that of every row with the key. |
| `SqlStorage.ReadOf` | grandcentral/sqlalchemystorage.py:106-116 | `read(k)` raises `KeyError(k)` exactly when no row has key `k`. Otherwise it answers the value of a row for `k` whose timestamp is greater than or equal to every other row's for `k`. |
| `SqlStorage.BacklogOf` | grandcentral/sqlalchemystorage.py:136-148 | `backlog(k)` raises `KeyError(k)` exactly when no row has key `k`, and then yields nothing. Otherwise it yields one `(timestamp, value)` per row for `k`, as a permutation of those rows' entries, in non-increasing timestamp order. |
| `SqlStorage.BacklogStrictlyNewestFirst` | grandcentral/sqlalchemystorage.py:136-145 | Under the primary-key constraint, the backlog's timestamps strictly decrease. |
| `SqlStorage.SelectKeepsPrimaryKey` | grandcentral/sqlalchemystorage.py:55 | Under the primary key, the rows of one key have pairwise distinct timestamps. |
| `SqlStorage.ReadAfterWrite` | grandcentral/sqlalchemystorage.py:106-134 | Suppose a write to `k` is stamped later than every existing row for `k`. Then `read(k)` answers its value, and `backlog(k)` starts with its `(timestamp, value)`. |
| `SqlStorage.WriteIsolation` | grandcentral/sqlalchemystorage.py:118-134 | Adding a row for another key leaves `read(k)` and `backlog(k)` unchanged. |
| `SqlStorage.ReadIsNewestOfBacklog` | grandcentral/sqlalchemystorage.py:106-145 | `read(k)` succeeds exactly when `backlog(k)` does. Then `read(k)` is the value of the backlog's first entry. |
| `SqlStorage.FilePath` | grandcentral/sqlalchemystorage.py:90-94 | `_storage_filepath_for_attachment`. Its promises are proved in `FilePathLayout` and `FilePathInjective`. |
| `SqlStorage.FilePathLayout` | grandcentral/sqlalchemystorage.py:90-94 | The attachment path is the base followed by `/d0/d0d1/`, built from the digest's first and first two characters, and then the digest. |
| `SqlStorage.FilePathInjective` | grandcentral/sqlalchemystorage.py:90-94 | Content addressing: two digests give the same path under one base if and only if they are equal. |
| `SqlStorage.DigestOf` | grandcentral/sqlalchemystorage.py:119-126 | The attachment column of a new row: null without an attachment, otherwise the hex SHA-1 digest of its bytes. Used in the contract of `SQLAlchemyStorage.Write`. |
| `SqlStorage.StoreBlob` | grandcentral/sqlalchemystorage.py:127-131 | Writing the attachment bytes to the file at the digest's path. Its promises are proved in `SameDigestOneBlob` and `DistinctDigestsKeepBothBlobs`. |
| `SqlStorage.SameDigestOneBlob` | grandcentral/sqlalchemystorage.py:121-131 | Storing under one digest twice leaves one file at that digest's path, holding the later bytes. Storing the same bytes twice equals storing them once. Storing adds exactly that one path. |
| `SqlStorage.DistinctDigestsKeepBothBlobs` | grandcentral/sqlalchemystorage.py:121-131 | Storing an attachment with another digest leaves the first attachment's file in place. |
| `SqlStorage.WriteKeepsAttachmentsOnDisk` | grandcentral/sqlalchemystorage.py:118-134 | No row names a missing file, and a write keeps it so, committed or refused: the new row's digest is a full SHA-1 digest whose file is stored before the row is added, and no file is removed. |
| `SqlStorage.SQLAlchemyStorage.constructor` | grandcentral/sqlalchemystorage.py:70-88 | Opens the store on an existing table and files in which no row names a missing file. The attachment directory is `storage_path + "files/"`. |
| `SqlStorage.SQLAlchemyStorage.Write` | grandcentral/sqlalchemystorage.py:118-134 | If the primary key `(key, now)` is free, appends exactly one row: key `k`, timestamp `now`, and attachment null or `sha1(a)`. Otherwise reports `IntegrityError` and adds no row. With an attachment, the bytes are written at the digest's path either way. The primary key stays unique, and every recorded attachment stays on disk. |
| `SqlStorage.WriteSameAttachmentTwice` | grandcentral/sqlalchemystorage.py:118-134 | Two `write`s with the same attachment bytes: the existing rows stay, each committed write adds one row, every added row records the same digest, and the files end as after storing the bytes once, in one file. The invariant is kept. |
| `SqlStorage.SQLAlchemyStorage.Backlog` | grandcentral/sqlalchemystorage.py:136-148 | Its loop over the query, with the `yielded` flag, computes exactly `BacklogOf` of the table. |
| `Backends.ReplayTableRows` | grandcentral/sqlalchemystorage.py:118-134 | With a strictly increasing clock, every write commits. The table holds one row per write, in write order, with unique primary keys. |
| `Backends.SelectOfReplay` | grandcentral/sqlalchemystorage.py:107-108 | With a strictly increasing clock, a key's rows are in ascending timestamp order and hold exactly the values written to the key, in order. |
| `Backends.SortOldestFirst` | grandcentral/sqlalchemystorage.py:109 | Ordering by descending timestamp reverses rows that are already in ascending order. |
| `Backends.BackendsAgree` | grandcentral/storage.py:24-35 | Take the same writes, with a strictly increasing clock and any attachment digests. The durable backend's `read` equals the reference backend's, and its `backlog` without timestamps equals the reference backend's, `KeyError(key)` included. |

## Left out

- The HTTP layer, the network client, the async helpers and the tests themselves: transport plumbing outside the storage engine.
- Database engine and session setup, directory creation, and the default storage path computed from the module's location. These are I/O. The constructor takes the storage path, the existing table and the existing files as parameters.
- The session's state after a refused commit is not modelled. SQLAlchemy needs a rollback before it accepts more work. The model only says the table is unchanged.
- `json.dumps`/`json.loads`: values are opaque and assumed to round-trip.
- `hashlib.sha1`: it is the function `sha1` given at construction. The model assumes only that its results are 40 characters long. A collision between different attachments overwrites the earlier file (`SameDigestOneBlob`).
- Floating-point wall-clock timestamps (`time.time`, the unused `now_timestamp`): they are integers supplied by the caller of `Write`.
- The two-argument signature of `BaseStorage.write` as a shared interface: the durable backend takes the attachment as a third argument, so the model keeps each backend's own signature instead of one abstract `write`.
- Aliasing of stored values: values are taken as immutable. Python's `MemoryStorage` keeps the caller's objects and hands the same objects back, so a value mutated after `write` changes later `read` and `backlog` answers, while the durable backend stores a JSON copy and returns freshly decoded values. The backends agree (`BackendsAgree`) only for values not mutated after `write`.
- `MemoryStorage.backlog` and `SQLAlchemyStorage.backlog` are Python generators. They read `_mem`, or run the query, only at the first `next()`, and their `KeyError` surfaces only then. A `write` made between the `backlog` call and the start of iteration therefore shows up in Python's result but not in the model's. The model returns the whole sequence, or the error, at once, from the state at the call.
- Concurrency: every operation is modelled as one sequential step.
