/** The durable backend: a `records` table of rows (key, timestamp, value,
    attachment digest) whose primary key is (key, timestamp), plus
    attachment files stored under a path derived from their SHA-1 digest.
    The relational engine is reduced to the table as a sequence of rows in
    insertion order, the file system to a map from path to bytes, the hash
    to a function given at construction and the wall clock to an integer
    timestamp passed to `Write`. */
module SqlStorage {
  import S = Storage

  type Bytes = seq<bv8>

  datatype Option<T> = None | Some(value: T)

  /** One row of the `records` table. `value` is the stored (JSON-encoded)
      value, opaque here; `attachment` is the hex digest of the attachment. */
  datatype Record<V> = Record(key: string, timestamp: int, value: V, attachment: Option<string>)

  /** What `write` reports: the row was committed, or the database refused it
      because a row with the same (key, timestamp) already exists. */
  datatype WriteOutcome = Committed | IntegrityError(key: string, timestamp: int)

  /** Length of a SHA-1 hex digest. */
  const DigestLength := 40

  // ---------------------------------------------------------------------
  // The table and its primary key
  // ---------------------------------------------------------------------

  /** The primary-key constraint: no two rows share (key, timestamp). */
  ghost predicate PrimaryKeyUnique<V>(table: seq<Record<V>>)
  {
    forall i, j :: 0 <= i < j < |table| ==>
      table[i].key != table[j].key || table[i].timestamp != table[j].timestamp
  }

  /** Some row already holds the primary key (key, timestamp). */
  predicate Occupied<V>(table: seq<Record<V>>, key: string, timestamp: int)
  {
    exists i :: 0 <= i < |table| && table[i].key == key && table[i].timestamp == timestamp
  }

  /** The table after adding `record` and committing: the database appends
      the row unless its primary key is taken. */
  function AddRow<V>(table: seq<Record<V>>, record: Record<V>): seq<Record<V>>
  {
    if Occupied(table, record.key, record.timestamp) then table else table + [record]
  }

  /** A commit keeps the primary key unique, appends at most one row, and
      leaves every existing row as it was. */
  lemma AddRowKeepsTable<V>(table: seq<Record<V>>, record: Record<V>)
    requires PrimaryKeyUnique(table)
    ensures PrimaryKeyUnique(AddRow(table, record))
    ensures |AddRow(table, record)| == |table| + (if Occupied(table, record.key, record.timestamp) then 0 else 1)
    ensures AddRow(table, record)[..|table|] == table
    ensures !Occupied(table, record.key, record.timestamp) ==> AddRow(table, record)[|table|] == record
  {
  }

  // ---------------------------------------------------------------------
  // The query `filter(Record.key == key).order_by(Record.timestamp.desc())`
  // ---------------------------------------------------------------------

  /** The rows with key `key`, in table order. */
  function Select<V>(table: seq<Record<V>>, key: string): seq<Record<V>>
  {
    if table == [] then []
    else
      var last := table[|table| - 1];
      Select(table[..|table| - 1], key) + (if last.key == key then [last] else [])
  }

  /** The filter keeps exactly the rows with key `key`. */
  lemma {:induction false} SelectRows<V>(table: seq<Record<V>>, key: string)
    ensures forall i :: 0 <= i < |Select(table, key)| ==>
      Select(table, key)[i] in table && Select(table, key)[i].key == key
    ensures forall i :: 0 <= i < |table| && table[i].key == key ==> table[i] in Select(table, key)
  {
    if table != [] {
      var init, last := table[..|table| - 1], table[|table| - 1];
      SelectRows(init, key);
      assert table == init + [last];
    }
  }

  /** Descending timestamp order. */
  ghost predicate NewestFirst<V>(s: seq<Record<V>>)
  {
    forall i, j :: 0 <= i < j < |s| ==> s[i].timestamp >= s[j].timestamp
  }

  /** Strictly descending timestamp order. */
  ghost predicate StrictlyNewestFirst<V>(s: seq<Record<V>>)
  {
    forall i, j :: 0 <= i < j < |s| ==> s[i].timestamp > s[j].timestamp
  }

  /** `record` placed into a newest-first sequence before every row that is
      not newer than it. */
  function InsertNewestFirst<V>(record: Record<V>, s: seq<Record<V>>): seq<Record<V>>
  {
    if s == [] || record.timestamp >= s[0].timestamp then [record] + s
    else [s[0]] + InsertNewestFirst(record, s[1..])
  }

  /** Inserting adds exactly `record` to the rows. */
  lemma {:induction false} InsertPermutes<V>(record: Record<V>, s: seq<Record<V>>)
    ensures multiset(InsertNewestFirst(record, s)) == multiset(s) + multiset{record}
  {
    if s != [] && record.timestamp < s[0].timestamp {
      InsertPermutes(record, s[1..]);
      assert s == [s[0]] + s[1..];
    }
  }

  /** Inserting brings in no row but `record` and those of `s`. */
  lemma {:induction false} InsertFrom<V>(record: Record<V>, s: seq<Record<V>>)
    ensures forall i :: 0 <= i < |InsertNewestFirst(record, s)| ==>
      InsertNewestFirst(record, s)[i] == record || InsertNewestFirst(record, s)[i] in s
  {
    if s != [] && record.timestamp < s[0].timestamp {
      InsertFrom(record, s[1..]);
      var r := InsertNewestFirst(record, s);
      forall i | 0 <= i < |r|
        ensures r[i] == record || r[i] in s
      {
        if i > 0 {
          assert r[i] == InsertNewestFirst(record, s[1..])[i - 1];
        }
      }
    }
  }

  /** Inserting keeps the order newest first. */
  lemma {:induction false} InsertOrdered<V>(record: Record<V>, s: seq<Record<V>>)
    requires NewestFirst(s)
    ensures NewestFirst(InsertNewestFirst(record, s))
  {
    if s != [] && record.timestamp < s[0].timestamp {
      var rest := InsertNewestFirst(record, s[1..]);
      InsertOrdered(record, s[1..]);
      InsertFrom(record, s[1..]);
      forall k | 0 <= k < |rest|
        ensures rest[k].timestamp <= s[0].timestamp
      {
        if rest[k] != record {
          var m :| 0 <= m < |s[1..]| && s[1..][m] == rest[k];
          assert s[m + 1] == rest[k];
        }
      }
      var r := [s[0]] + rest;
      forall i, j | 0 <= i < j < |r|
        ensures r[i].timestamp >= r[j].timestamp
      {
        if i > 0 {
          assert r[i] == rest[i - 1] && r[j] == rest[j - 1];
        } else {
          assert r[j] == rest[j - 1];
        }
      }
    }
  }

  /** `s` in descending timestamp order: the order of the query. */
  function SortNewestFirst<V>(s: seq<Record<V>>): seq<Record<V>>
  {
    if s == [] then [] else InsertNewestFirst(s[|s| - 1], SortNewestFirst(s[..|s| - 1]))
  }

  /** The sort orders newest first and is a permutation of its input. */
  lemma {:induction false} SortRows<V>(s: seq<Record<V>>)
    ensures NewestFirst(SortNewestFirst(s))
    ensures multiset(SortNewestFirst(s)) == multiset(s)
  {
    if s != [] {
      var init := s[..|s| - 1];
      SortRows(init);
      InsertPermutes(s[|s| - 1], SortNewestFirst(init));
      InsertOrdered(s[|s| - 1], SortNewestFirst(init));
      assert s == init + [s[|s| - 1]];
    }
  }

  /** The rows of the query for `key`, newest first. */
  function Query<V>(table: seq<Record<V>>, key: string): seq<Record<V>>
  {
    SortNewestFirst(Select(table, key))
  }

  /** Every row of the query comes from the table and has key `key`, and
      the query is empty exactly when no row has key `key`. */
  lemma QueryRows<V>(table: seq<Record<V>>, key: string)
    ensures NewestFirst(Query(table, key))
    ensures multiset(Query(table, key)) == multiset(Select(table, key))
    ensures forall i :: 0 <= i < |Query(table, key)| ==>
      Query(table, key)[i] in table && Query(table, key)[i].key == key
    ensures forall i :: 0 <= i < |table| && table[i].key == key ==> table[i] in Query(table, key)
    ensures Query(table, key) == [] <==> forall i :: 0 <= i < |table| ==> table[i].key != key
  {
    var q := Query(table, key);
    var s := Select(table, key);
    SelectRows(table, key);
    SortRows(s);
    forall i | 0 <= i < |q|
      ensures q[i] in table && q[i].key == key
    {
      assert q[i] in multiset(s);
      var m :| 0 <= m < |s| && s[m] == q[i];
    }
    forall i | 0 <= i < |table| && table[i].key == key
      ensures table[i] in q
    {
      assert table[i] in s;
      assert table[i] in multiset(q);
    }
    if q == [] {
      forall i | 0 <= i < |table|
        ensures table[i].key != key
      {
        assert table[i] in table;
      }
    } else {
      assert q[0] in q;
    }
  }

  /** The (timestamp, value) pair the backlog yields for a row. */
  function Entry<V>(r: Record<V>): (int, V)
  {
    (r.timestamp, r.value)
  }

  /** The (timestamp, value) pairs of rows, in order. */
  function Entries<V>(s: seq<Record<V>>): seq<(int, V)>
  {
    seq(|s|, i requires 0 <= i < |s| => Entry(s[i]))
  }

  /** Entries of a concatenation are the concatenation of the entries. */
  lemma EntriesAppend<V>(a: seq<Record<V>>, b: seq<Record<V>>)
    ensures Entries(a + b) == Entries(a) + Entries(b)
  {
  }

  /** Inserting a row adds exactly its entry to the entries. */
  lemma {:induction false} InsertEntries<V>(record: Record<V>, s: seq<Record<V>>)
    ensures multiset(Entries(InsertNewestFirst(record, s))) == multiset(Entries(s)) + multiset{Entry(record)}
  {
    if s == [] || record.timestamp >= s[0].timestamp {
      EntriesAppend([record], s);
    } else {
      InsertEntries(record, s[1..]);
      EntriesAppend([s[0]], InsertNewestFirst(record, s[1..]));
      EntriesAppend([s[0]], s[1..]);
      assert s == [s[0]] + s[1..];
    }
  }

  /** Sorting the rows rearranges their entries and nothing more. */
  lemma {:induction false} SortEntries<V>(s: seq<Record<V>>)
    ensures multiset(Entries(SortNewestFirst(s))) == multiset(Entries(s))
  {
    if s != [] {
      var init, last := s[..|s| - 1], s[|s| - 1];
      SortEntries(init);
      InsertEntries(last, SortNewestFirst(init));
      assert s == init + [last];
      EntriesAppend(init, [last]);
    }
  }

  // ---------------------------------------------------------------------
  // read and backlog as functions of the table
  // ---------------------------------------------------------------------

  /** A row with key `key` whose timestamp no other row with that key exceeds. */
  ghost predicate Newest<V>(table: seq<Record<V>>, key: string, row: Record<V>)
  {
    row in table && row.key == key &&
    forall j :: 0 <= j < |table| && table[j].key == key ==> table[j].timestamp <= row.timestamp
  }

  /** The first row of a non-empty query is a newest row of the key. */
  lemma QueryHeadIsNewest<V>(table: seq<Record<V>>, key: string)
    requires Query(table, key) != []
    ensures exists n :: 0 <= n < |table| && table[n] == Query(table, key)[0] && Newest(table, key, table[n])
  {
    QueryRows(table, key);
    var q := Query(table, key);
    assert q[0] in table;
    var n :| 0 <= n < |table| && table[n] == q[0];
    forall j | 0 <= j < |table| && table[j].key == key
      ensures table[j].timestamp <= q[0].timestamp
    {
      assert table[j] in q;
      var m :| 0 <= m < |q| && q[m] == table[j];
      assert m == 0 || q[0].timestamp >= q[m].timestamp;
    }
  }

  /** `read(key)`: the value of the first row of the query, or `KeyError(key)`
      when the query finds nothing. */
  function ReadOf<V>(table: seq<Record<V>>, key: string): (r: S.Result<V, string>)
    ensures r.KeyError? <==> forall i :: 0 <= i < |table| ==> table[i].key != key
    ensures r.KeyError? ==> r.key == key
    ensures r.Ok? ==> exists i :: 0 <= i < |table| && Newest(table, key, table[i]) && table[i].value == r.value
  {
    QueryRows(table, key);
    var q := Query(table, key);
    if q == [] then S.KeyError(key)
    else
      QueryHeadIsNewest(table, key);
      S.Ok(q[0].value)
  }

  /** `backlog(key)`: the (timestamp, value) pairs of the query in order, or
      `KeyError(key)` when it yielded nothing. */
  function BacklogOf<V>(table: seq<Record<V>>, key: string): (r: S.Result<seq<(int, V)>, string>)
    ensures r.KeyError? <==> forall i :: 0 <= i < |table| ==> table[i].key != key
    ensures r.KeyError? ==> r.key == key
    ensures r.Ok? ==> r.value != [] && |r.value| == |Select(table, key)|
    ensures r.Ok? ==> forall i, j :: 0 <= i < j < |r.value| ==> r.value[i].0 >= r.value[j].0
    ensures r.Ok? ==> multiset(r.value) == multiset(Entries(Select(table, key)))
  {
    QueryRows(table, key);
    var q := Query(table, key);
    SortEntries(Select(table, key));
    assert |q| == |multiset(q)| == |Select(table, key)|;
    if q == [] then S.KeyError(key) else S.Ok(Entries(q))
  }

  /** Under the primary key, the backlog is strictly newest first: no two
      entries share a timestamp. */
  lemma BacklogStrictlyNewestFirst<V>(table: seq<Record<V>>, key: string)
    requires PrimaryKeyUnique(table)
    ensures BacklogOf(table, key).Ok? ==>
      forall i, j :: 0 <= i < j < |BacklogOf(table, key).value| ==>
        BacklogOf(table, key).value[i].0 > BacklogOf(table, key).value[j].0
  {
    SelectKeepsPrimaryKey(table, key);
    SortStrictly(Select(table, key));
  }

  /** Under the primary key, the rows of one key have pairwise distinct timestamps. */
  lemma {:induction false} SelectKeepsPrimaryKey<V>(table: seq<Record<V>>, key: string)
    requires PrimaryKeyUnique(table)
    ensures forall i, j :: 0 <= i < j < |Select(table, key)| ==>
      Select(table, key)[i].timestamp != Select(table, key)[j].timestamp
  {
    if table != [] {
      var init := table[..|table| - 1];
      var last := table[|table| - 1];
      SelectKeepsPrimaryKey(init, key);
      var s := Select(init, key);
      SelectRows(init, key);
      if last.key == key {
        forall i | 0 <= i < |s|
          ensures s[i].timestamp != last.timestamp
        {
          assert s[i] in s;
          var m :| 0 <= m < |init| && init[m] == s[i];
          assert table[m] == s[i];
        }
      }
    }
  }

  /** Sorting rows with pairwise distinct timestamps gives strictly descending order. */
  lemma {:induction false} SortStrictly<V>(s: seq<Record<V>>)
    requires forall i, j :: 0 <= i < j < |s| ==> s[i].timestamp != s[j].timestamp
    ensures StrictlyNewestFirst(SortNewestFirst(s))
  {
    if s != [] {
      var init := s[..|s| - 1];
      var last := s[|s| - 1];
      SortStrictly(init);
      SortRows(init);
      var sorted := SortNewestFirst(init);
      forall x | x in sorted
        ensures x.timestamp != last.timestamp
      {
        assert x in multiset(init);
        var m :| 0 <= m < |init| && init[m] == x;
      }
      InsertStrictly(last, sorted);
    }
  }

  /** Inserting a row with a fresh timestamp keeps strictly descending order. */
  lemma {:induction false} InsertStrictly<V>(record: Record<V>, s: seq<Record<V>>)
    requires StrictlyNewestFirst(s)
    requires forall x :: x in s ==> x.timestamp != record.timestamp
    ensures StrictlyNewestFirst(InsertNewestFirst(record, s))
  {
    if s != [] && record.timestamp < s[0].timestamp {
      InsertStrictly(record, s[1..]);
      InsertPermutes(record, s[1..]);
      var rest := InsertNewestFirst(record, s[1..]);
      forall x | x in rest
        ensures x.timestamp < s[0].timestamp
      {
        assert x in multiset(s[1..]) + multiset{record};
      }
    }
  }

  /** A write to `key` stamped later than every row of `key` is what `read`
      answers next, and the backlog starts with it. */
  lemma ReadAfterWrite<V>(table: seq<Record<V>>, key: string, now: int, value: V, attachment: Option<string>)
    requires forall i :: 0 <= i < |table| && table[i].key == key ==> table[i].timestamp < now
    ensures ReadOf(AddRow(table, Record(key, now, value, attachment)), key) == S.Ok(value)
    ensures BacklogOf(AddRow(table, Record(key, now, value, attachment)), key).value[0] == (now, value)
  {
    var rec := Record(key, now, value, attachment);
    assert !Occupied(table, key, now);
    var t := table + [rec];
    assert AddRow(table, rec) == t;
    QueryRows(t, key);
    var q := Query(t, key);
    assert rec == t[|table|] && rec in t;
    assert rec in q;
    assert q[0] == rec by {
      assert q[0] in q;
      var n :| 0 <= n < |q| && q[n] == rec;
      assert q[0].timestamp >= rec.timestamp;
      assert q[0] in t && q[0] !in table;
    }
  }

  /** A write to another key leaves `read(key)` and `backlog(key)` unchanged. */
  lemma WriteIsolation<V>(table: seq<Record<V>>, record: Record<V>, key: string)
    requires record.key != key
    ensures ReadOf(AddRow(table, record), key) == ReadOf(table, key)
    ensures BacklogOf(AddRow(table, record), key) == BacklogOf(table, key)
  {
    var t := AddRow(table, record);
    if t != table {
      assert t[..|t| - 1] == table;
      assert Select(t, key) == Select(table, key);
    }
  }

  /** `read` answers the value of the first entry `backlog` yields. */
  lemma ReadIsNewestOfBacklog<V>(table: seq<Record<V>>, key: string)
    ensures ReadOf(table, key).Ok? <==> BacklogOf(table, key).Ok?
    ensures BacklogOf(table, key).Ok? ==> ReadOf(table, key).value == BacklogOf(table, key).value[0].1
  {
  }

  // ---------------------------------------------------------------------
  // Attachment files
  // ---------------------------------------------------------------------

  /** `_storage_filepath_for_attachment`: `base/d0/d0d1/digest`. */
  function FilePath(base: string, digest: string): string
    requires |digest| >= 2
  {
    base + "/" + [digest[0]] + "/" + [digest[0], digest[1]] + "/" + digest
  }

  /** The path lies under `base`, in the shard directories named by the
      digest's first one and first two characters, and ends in the digest. */
  lemma FilePathLayout(base: string, digest: string)
    requires |digest| >= 2
    ensures |FilePath(base, digest)| == |base| + 6 + |digest|
    ensures FilePath(base, digest)[..|base|] == base
    ensures FilePath(base, digest)[|base|..|base| + 6] == ['/', digest[0], '/', digest[0], digest[1], '/']
    ensures FilePath(base, digest)[|base| + 6..] == digest
  {
  }

  /** Content addressing: under one base, a path names exactly one digest. */
  lemma FilePathInjective(base: string, d1: string, d2: string)
    requires |d1| >= 2 && |d2| >= 2
    ensures FilePath(base, d1) == FilePath(base, d2) <==> d1 == d2
  {
    if FilePath(base, d1) == FilePath(base, d2) {
      FilePathLayout(base, d1);
      FilePathLayout(base, d2);
    }
  }

  /** The files after writing `bytes` to the path of `digest`. */
  function StoreBlob(files: map<string, Bytes>, base: string, digest: string, bytes: Bytes): map<string, Bytes>
    requires |digest| >= 2
  {
    files[FilePath(base, digest) := bytes]
  }

  /** Writing the same attachment twice leaves one file, as writing it once
      does; two attachments with one digest share one path, the later bytes
      winning. */
  lemma SameDigestOneBlob(files: map<string, Bytes>, base: string, digest: string, a: Bytes, b: Bytes)
    requires |digest| >= 2
    ensures StoreBlob(StoreBlob(files, base, digest, a), base, digest, b) == StoreBlob(files, base, digest, b)
    ensures StoreBlob(StoreBlob(files, base, digest, a), base, digest, a) == StoreBlob(files, base, digest, a)
    ensures StoreBlob(files, base, digest, a).Keys == files.Keys + {FilePath(base, digest)}
  {
  }

  /** Attachments with different digests land in different files: storing
      the second leaves the first in place. */
  lemma DistinctDigestsKeepBothBlobs(files: map<string, Bytes>, base: string, d1: string, a: Bytes, d2: string, b: Bytes)
    requires |d1| >= 2 && |d2| >= 2 && d1 != d2
    ensures FilePath(base, d1) in StoreBlob(StoreBlob(files, base, d1, a), base, d2, b)
    ensures StoreBlob(StoreBlob(files, base, d1, a), base, d2, b)[FilePath(base, d1)] == a
    ensures StoreBlob(StoreBlob(files, base, d1, a), base, d2, b)[FilePath(base, d2)] == b
  {
    FilePathInjective(base, d1, d2);
  }

  /** The digest a row records for an optional attachment. */
  function DigestOf(sha1: Bytes -> string, attachment: Option<Bytes>): Option<string>
  {
    match attachment
    case None => None
    case Some(bytes) => Some(sha1(bytes))
  }

  /** No row refers to a missing file: every recorded digest is a full
      SHA-1 digest whose path is present among the files. */
  ghost predicate AttachmentsOnDisk<V>(table: seq<Record<V>>, files: map<string, Bytes>, base: string)
  {
    forall i :: 0 <= i < |table| && table[i].attachment.Some? ==>
      |table[i].attachment.value| == DigestLength && FilePath(base, table[i].attachment.value) in files
  }

  /** A write keeps every recorded attachment on disk, whether its commit
      succeeds or is refused: the file is stored before the row is added,
      and files are never removed. */
  lemma WriteKeepsAttachmentsOnDisk<V>(table: seq<Record<V>>, files: map<string, Bytes>, base: string,
                                       sha1: Bytes -> string, record: Record<V>, attachment: Option<Bytes>)
    requires AttachmentsOnDisk(table, files, base)
    requires forall b :: |sha1(b)| == DigestLength
    requires record.attachment == DigestOf(sha1, attachment)
    ensures AttachmentsOnDisk(AddRow(table, record),
              match attachment
              case None => files
              case Some(bytes) => StoreBlob(files, base, sha1(bytes), bytes),
              base)
  {
    var files' := match attachment
                  case None => files
                  case Some(bytes) => StoreBlob(files, base, sha1(bytes), bytes);
    assert files.Keys <= files'.Keys;
    var t := AddRow(table, record);
    forall i | 0 <= i < |t| && t[i].attachment.Some?
      ensures |t[i].attachment.value| == DigestLength && FilePath(base, t[i].attachment.value) in files'
    {
      if i < |table| {
        assert t[i] == table[i];
      }
    }
  }

  // ---------------------------------------------------------------------
  // The backend itself
  // ---------------------------------------------------------------------

  class SQLAlchemyStorage<V> {
    /** The directory attachments go under (`_files_path`). */
    const filesPath: string
    /** The hex SHA-1 digest of a byte string. */
    const sha1: Bytes -> string
    /** The `records` table, in insertion order. */
    var records: seq<Record<V>>
    /** The attachment files, by path. */
    var files: map<string, Bytes>

    ghost predicate Valid()
      reads this
    {
      && PrimaryKeyUnique(records)
      && (forall b :: |sha1(b)| == DigestLength)
      && AttachmentsOnDisk(records, files, filesPath)
    }

    /** Opens the store at `storagePath`, whose table and files may already
        hold what earlier runs wrote. */
    constructor (storagePath: string, sha1: Bytes -> string, table: seq<Record<V>>, disk: map<string, Bytes>)
      requires PrimaryKeyUnique(table)
      requires forall b :: |sha1(b)| == DigestLength
      requires AttachmentsOnDisk(table, disk, storagePath + "files/")
      ensures Valid()
      ensures filesPath == storagePath + "files/" && this.sha1 == sha1
      ensures records == table && files == disk
    {
      filesPath := storagePath + "files/";
      this.sha1 := sha1;
      records := table;
      files := disk;
    }

    /** `write`: build the row; with an attachment, record its digest and
        write the bytes to the digest's path; then add the row and commit.
        The file is written before the commit, so a refused commit leaves it
        behind. */
    method Write(key: string, value: V, attachment: Option<Bytes>, now: int) returns (outcome: WriteOutcome)
      requires Valid()
      modifies this
      ensures Valid()
      ensures outcome == if Occupied(old(records), key, now) then IntegrityError(key, now) else Committed
      ensures records == AddRow(old(records), Record(key, now, value, DigestOf(sha1, attachment)))
      ensures files == match attachment
                       case None => old(files)
                       case Some(bytes) => StoreBlob(old(files), filesPath, sha1(bytes), bytes)
    {
      var record := Record(key, now, value, None);
      if attachment.Some? {
        var digest := sha1(attachment.value);
        record := record.(attachment := Some(digest));
        var storageFilepath := FilePath(filesPath, digest);
        files := files[storageFilepath := attachment.value];
      }
      AddRowKeepsTable(records, record);
      WriteKeepsAttachmentsOnDisk(records, old(files), filesPath, sha1, record, attachment);
      if Occupied(records, key, now) {
        outcome := IntegrityError(key, now);
      } else {
        records := records + [record];
        outcome := Committed;
      }
    }

    /** `backlog`: walk the query, yielding each row's (timestamp, value),
        and raise `KeyError(key)` if nothing was yielded. */
    method Backlog(key: string) returns (r: S.Result<seq<(int, V)>, string>)
      ensures r == BacklogOf(records, key)
    {
      var qs := Query(records, key);
      var yielded := false;
      var out: seq<(int, V)> := [];
      for i := 0 to |qs|
        invariant out == Entries(qs[..i])
        invariant yielded <==> i > 0
      {
        assert qs[..i + 1] == qs[..i] + [qs[i]];
        EntriesAppend(qs[..i], [qs[i]]);
        out := out + [Entry(qs[i])];
        yielded := true;
      }
      if !yielded {
        return S.KeyError(key);
      }
      assert qs[..|qs|] == qs;
      r := S.Ok(out);
    }
  }

  /** Two writes carrying the same attachment bytes: every row they add
      records the same digest, and the files end as after storing the bytes
      once, in the one file at that digest's path. */
  method WriteSameAttachmentTwice<V>(store: SQLAlchemyStorage<V>, key1: string, value1: V, now1: int,
                                     key2: string, value2: V, now2: int, bytes: Bytes)
    returns (first: WriteOutcome, second: WriteOutcome)
    requires store.Valid()
    modifies store
    ensures store.Valid()
    ensures store.files == StoreBlob(old(store.files), store.filesPath, store.sha1(bytes), bytes)
    ensures |store.records| == |old(store.records)| + (if first.Committed? then 1 else 0) + (if second.Committed? then 1 else 0)
    ensures store.records[..|old(store.records)|] == old(store.records)
    ensures forall i :: |old(store.records)| <= i < |store.records| ==>
      store.records[i].attachment == Some(store.sha1(bytes))
  {
    first := store.Write(key1, value1, Some(bytes), now1);
    ghost var mid := store.records;
    second := store.Write(key2, value2, Some(bytes), now2);
    assert store.records[..|mid|] == mid;
    SameDigestOneBlob(old(store.files), store.filesPath, store.sha1(bytes), bytes, bytes);
  }
}
