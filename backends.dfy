/** The two backends agree on the storage contract: the same writes,
    replayed on `MemoryStorage` and on `SQLAlchemyStorage` with timestamps
    from a strictly increasing clock, give the same `read` for every key, and
    the same `backlog` once the durable backend's timestamps are dropped,
    whatever attachments the writes carry. */
module Backends {
  import S = Storage
  import Q = SqlStorage

  /** The clock never repeats or goes back. */
  ghost predicate Increasing(stamps: seq<int>)
  {
    forall i, j :: 0 <= i < j < |stamps| ==> stamps[i] < stamps[j]
  }

  /** Ascending timestamp order. */
  ghost predicate OldestFirst<V>(s: seq<Q.Record<V>>)
  {
    forall i, j :: 0 <= i < j < |s| ==> s[i].timestamp < s[j].timestamp
  }

  /** The `records` table of a fresh store after the writes `ws`, in order,
      the i-th stamped `stamps[i]` and recording the attachment digest
      `digests[i]`. */
  function ReplayTable<V>(ws: seq<(string, V)>, stamps: seq<int>, digests: seq<Q.Option<string>>): seq<Q.Record<V>>
    requires |stamps| == |ws| && |digests| == |ws|
  {
    if ws == [] then []
    else
      var n := |ws| - 1;
      Q.AddRow(ReplayTable(ws[..n], stamps[..n], digests[..n]), Q.Record(ws[n].0, stamps[n], ws[n].1, digests[n]))
  }

  /** The values of a backlog, without their timestamps. */
  function Values<V>(entries: seq<(int, V)>): (vs: seq<V>)
    ensures |vs| == |entries|
    ensures forall i :: 0 <= i < |entries| ==> vs[i] == entries[i].1
  {
    seq(|entries|, i requires 0 <= i < |entries| => entries[i].1)
  }

  /** What a caller of `backlog` observes once timestamps are dropped. */
  function Observed<V>(r: S.Result<seq<(int, V)>, string>): S.Result<seq<V>, string>
  {
    match r
    case Ok(entries) => S.Ok(Values(entries))
    case KeyError(key) => S.KeyError(key)
  }

  /** With an increasing clock every write commits: the table holds one row
      per write, in write order, and its primary key is unique. */
  lemma {:induction false} ReplayTableRows<V>(ws: seq<(string, V)>, stamps: seq<int>, digests: seq<Q.Option<string>>)
    requires |stamps| == |ws| && |digests| == |ws| && Increasing(stamps)
    ensures |ReplayTable(ws, stamps, digests)| == |ws|
    ensures forall i :: 0 <= i < |ws| ==>
      ReplayTable(ws, stamps, digests)[i] == Q.Record(ws[i].0, stamps[i], ws[i].1, digests[i])
    ensures Q.PrimaryKeyUnique(ReplayTable(ws, stamps, digests))
  {
    if ws != [] {
      var n := |ws| - 1;
      var prev := ReplayTable(ws[..n], stamps[..n], digests[..n]);
      ReplayTableRows(ws[..n], stamps[..n], digests[..n]);
      var rec := Q.Record(ws[n].0, stamps[n], ws[n].1, digests[n]);
      assert !Q.Occupied(prev, rec.key, rec.timestamp) by {
        forall i | 0 <= i < |prev|
          ensures prev[i].timestamp != rec.timestamp
        {
          assert prev[i].timestamp == stamps[i];
        }
      }
      assert ReplayTable(ws, stamps, digests) == prev + [rec];
    }
  }

  /** One more write with an increasing clock appends exactly its row, and
      every earlier row is stamped before it. */
  lemma ReplayTableStep<V>(ws: seq<(string, V)>, stamps: seq<int>, digests: seq<Q.Option<string>>, n: nat)
    requires |stamps| == |ws| && |digests| == |ws| && n + 1 == |ws| && Increasing(stamps)
    ensures ReplayTable(ws, stamps, digests) == ReplayTable(ws[..n], stamps[..n], digests[..n]) + [Q.Record(ws[n].0, stamps[n], ws[n].1, digests[n])]
    ensures forall i :: 0 <= i < |ReplayTable(ws[..n], stamps[..n], digests[..n])| ==>
      ReplayTable(ws[..n], stamps[..n], digests[..n])[i].timestamp < stamps[n]
  {
    ReplayTableRows(ws, stamps, digests);
    ReplayTableRows(ws[..n], stamps[..n], digests[..n]);
  }

  /** Adding a row extends the key's selection by that row exactly when it has the key. */
  lemma SelectAppend<V>(table: seq<Q.Record<V>>, rec: Q.Record<V>, key: string)
    ensures Q.Select(table + [rec], key) == Q.Select(table, key) + (if rec.key == key then [rec] else [])
  {
    assert (table + [rec])[..|table|] == table;
  }

  /** One more row adds its value at the end of the values. */
  lemma ValuesAppend<V>(s: seq<Q.Record<V>>, rec: Q.Record<V>)
    ensures Values(Q.Entries(s + [rec])) == Values(Q.Entries(s)) + [rec.value]
  {
  }

  /** A row stamped after every row keeps ascending order when appended. */
  lemma OldestFirstAppend<V>(s: seq<Q.Record<V>>, rec: Q.Record<V>)
    requires OldestFirst(s)
    requires forall i :: 0 <= i < |s| ==> s[i].timestamp < rec.timestamp
    ensures OldestFirst(s + [rec])
  {
  }

  /** The rows of one key come out oldest first, holding exactly the values
      written to that key, in order. */
  lemma {:induction false} SelectOfReplay<V>(ws: seq<(string, V)>, stamps: seq<int>, digests: seq<Q.Option<string>>, key: string)
    requires |stamps| == |ws| && |digests| == |ws| && Increasing(stamps)
    ensures OldestFirst(Q.Select(ReplayTable(ws, stamps, digests), key))
    ensures Values(Q.Entries(Q.Select(ReplayTable(ws, stamps, digests), key))) == S.Written(ws, key)
  {
    if ws != [] {
      var n := |ws| - 1;
      var prev := ReplayTable(ws[..n], stamps[..n], digests[..n]);
      var rec := Q.Record(ws[n].0, stamps[n], ws[n].1, digests[n]);
      ReplayTableStep(ws, stamps, digests, n);
      SelectOfReplay(ws[..n], stamps[..n], digests[..n], key);
      var s := Q.Select(prev, key);
      Q.SelectRows(prev, key);
      SelectAppend(prev, rec, key);
      if rec.key == key {
        forall i | 0 <= i < |s|
          ensures s[i].timestamp < rec.timestamp
        {
          var m :| 0 <= m < |prev| && prev[m] == s[i];
        }
        OldestFirstAppend(s, rec);
        ValuesAppend(s, rec);
      }
    }
  }

  /** Sorting rows that are already oldest first newest first reverses them. */
  lemma {:induction false} SortOldestFirst<V>(s: seq<Q.Record<V>>)
    requires OldestFirst(s)
    ensures Q.SortNewestFirst(s) == S.Reverse(s)
  {
    if s != [] {
      var init := s[..|s| - 1];
      var last := s[|s| - 1];
      SortOldestFirst(init);
      var r := S.Reverse(init);
      assert r != [] ==> r[0] == init[|init| - 1] && r[0].timestamp < last.timestamp;
      assert Q.InsertNewestFirst(last, r) == [last] + r;
    }
  }

  /** Dropping timestamps commutes with reversing. */
  lemma ValuesOfReverse<V>(s: seq<Q.Record<V>>)
    ensures Values(Q.Entries(S.Reverse(s))) == S.Reverse(Values(Q.Entries(s)))
  {
  }

  /** For the same writes, the durable backend's `read` equals the in-memory
      reference backend's, and its `backlog` equals the reference backend's
      once the timestamps of its `(timestamp, value)` pairs are dropped;
      `KeyError(key)` is included in both. */
  lemma BackendsAgree<V>(ws: seq<(string, V)>, stamps: seq<int>, digests: seq<Q.Option<string>>, key: string)
    requires |stamps| == |ws| && |digests| == |ws| && Increasing(stamps)
    ensures S.NoEmptyHistory(S.Replay(ws))
    ensures Q.ReadOf(ReplayTable(ws, stamps, digests), key) == S.ReadOf(S.Replay(ws), key)
    ensures Observed(Q.BacklogOf(ReplayTable(ws, stamps, digests), key)) == S.BacklogOf(S.Replay(ws), key)
  {
    var t := ReplayTable(ws, stamps, digests);
    var sel := Q.Select(t, key);
    SelectOfReplay(ws, stamps, digests, key);
    SortOldestFirst(sel);
    ValuesOfReverse(sel);
    S.ReadOfReplay(ws, key);
    S.BacklogOfReplay(ws, key);
    var w := S.Written(ws, key);
    assert |sel| == |w|;
    if w != [] {
      assert Q.Query(t, key)[0] == sel[|sel| - 1];
    }
  }
}
