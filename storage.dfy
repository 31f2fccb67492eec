/** The storage contract every backend of the message store satisfies
    (`read`, `write`, `backlog`), and the in-memory reference backend
    `MemoryStorage`, which keeps a dictionary from each key to the list of
    values written to it. */
module Storage {

  /** Outcome of `read` and `backlog`: the answer, or the `KeyError` the
      backends raise for a key without history, carrying that key. */
  datatype Result<T, K> = Ok(value: T) | KeyError(key: K)

  /** `s` newest-first: the element appended last comes first. */
  function Reverse<T>(s: seq<T>): (r: seq<T>)
    ensures |r| == |s|
    ensures forall i :: 0 <= i < |s| ==> r[i] == s[|s| - 1 - i]
  {
    if s == [] then [] else [s[|s| - 1]] + Reverse(s[..|s| - 1])
  }

  // ---------------------------------------------------------------------
  // The dictionary `_mem` as a value, and what each operation does to it
  // ---------------------------------------------------------------------

  /** The values written to `key`, oldest first; empty for an unknown key. */
  function History<K, V>(mem: map<K, seq<V>>, key: K): seq<V>
  {
    if key in mem then mem[key] else []
  }

  /** The dictionary's invariant: a key is present only with a non-empty list. */
  ghost predicate NoEmptyHistory<K, V>(mem: map<K, seq<V>>)
  {
    forall key :: key in mem ==> mem[key] != []
  }

  /** What `read(key)` answers: the last element of the key's list. */
  function ReadOf<K, V>(mem: map<K, seq<V>>, key: K): Result<V, K>
    requires NoEmptyHistory(mem)
  {
    if key in mem then Ok(mem[key][|mem[key]| - 1]) else KeyError(key)
  }

  /** What `backlog(key)` yields: the key's list reversed, newest first. */
  function BacklogOf<K, V>(mem: map<K, seq<V>>, key: K): Result<seq<V>, K>
  {
    if key in mem then Ok(Reverse(mem[key])) else KeyError(key)
  }

  /** The dictionary after `write(key, value)`. */
  function WriteTo<K, V>(mem: map<K, seq<V>>, key: K, value: V): map<K, seq<V>>
  {
    mem[key := History(mem, key) + [value]]
  }

  /** `write` appends exactly one value to the key's list, touches no other
      key, and keeps every list non-empty. */
  lemma WriteAppends<K, V>(mem: map<K, seq<V>>, key: K, value: V)
    requires NoEmptyHistory(mem)
    ensures NoEmptyHistory(WriteTo(mem, key, value))
    ensures History(WriteTo(mem, key, value), key) == History(mem, key) + [value]
    ensures |History(WriteTo(mem, key, value), key)| == |History(mem, key)| + 1
    ensures WriteTo(mem, key, value).Keys == mem.Keys + {key}
    ensures forall other :: other != key ==> History(WriteTo(mem, key, value), other) == History(mem, other)
  {
  }

  /** After `write(key, value)`, `read(key)` answers `value` and the backlog
      starts with `value`, followed by the previous backlog. */
  lemma ReadAfterWrite<K, V>(mem: map<K, seq<V>>, key: K, value: V)
    requires NoEmptyHistory(mem)
    ensures NoEmptyHistory(WriteTo(mem, key, value))
    ensures ReadOf(WriteTo(mem, key, value), key) == Ok(value)
    ensures BacklogOf(WriteTo(mem, key, value), key)
         == Ok([value] + if key in mem then BacklogOf(mem, key).value else [])
  {
    var h := History(mem, key);
    assert Reverse(h + [value]) == [value] + Reverse(h) by {
      assert (h + [value])[..|h|] == h;
    }
  }

  /** Writing to one key leaves what `read` and `backlog` answer for every
      other key unchanged. */
  lemma WriteIsolation<K, V>(mem: map<K, seq<V>>, written: K, value: V, key: K)
    requires NoEmptyHistory(mem)
    requires written != key
    ensures NoEmptyHistory(WriteTo(mem, written, value))
    ensures ReadOf(WriteTo(mem, written, value), key) == ReadOf(mem, key)
    ensures BacklogOf(WriteTo(mem, written, value), key) == BacklogOf(mem, key)
  {
  }

  /** A key that was never written: `read` and `backlog` both raise
      `KeyError` carrying that key. */
  lemma MissingKey<K, V>(mem: map<K, seq<V>>, key: K)
    requires NoEmptyHistory(mem)
    requires key !in mem
    ensures ReadOf(mem, key) == KeyError(key)
    ensures BacklogOf(mem, key) == KeyError(key)
  {
  }

  /** For a key with history, `read` answers the first value `backlog` yields. */
  lemma ReadIsNewestOfBacklog<K, V>(mem: map<K, seq<V>>, key: K)
    requires NoEmptyHistory(mem)
    ensures ReadOf(mem, key).Ok? <==> BacklogOf(mem, key).Ok?
    ensures BacklogOf(mem, key).Ok? ==>
      BacklogOf(mem, key).value != [] && ReadOf(mem, key).value == BacklogOf(mem, key).value[0]
  {
  }

  // ---------------------------------------------------------------------
  // A sequence of writes, replayed on a fresh store
  // ---------------------------------------------------------------------

  /** The dictionary of a fresh `MemoryStorage` after the writes `ws`, in order. */
  function Replay<K, V>(ws: seq<(K, V)>): map<K, seq<V>>
  {
    if ws == [] then map[]
    else
      var (key, value) := ws[|ws| - 1];
      WriteTo(Replay(ws[..|ws| - 1]), key, value)
  }

  /** The values of the writes in `ws` that went to `key`, in write order. */
  function Written<K(==), V>(ws: seq<(K, V)>, key: K): seq<V>
  {
    if ws == [] then []
    else Written(ws[..|ws| - 1], key) + (if ws[|ws| - 1].0 == key then [ws[|ws| - 1].1] else [])
  }

  /** Replaying writes gives each key exactly the values written to it, in
      order; a key is present exactly when something was written to it. */
  lemma {:induction false} ReplayHistory<K, V>(ws: seq<(K, V)>, key: K)
    ensures NoEmptyHistory(Replay(ws))
    ensures History(Replay(ws), key) == Written(ws, key)
    ensures key in Replay(ws) <==> Written(ws, key) != []
  {
    if ws != [] {
      var init := ws[..|ws| - 1];
      var (k, v) := ws[|ws| - 1];
      ReplayHistory(init, key);
      WriteAppends(Replay(init), k, v);
    }
  }

  /** After any sequence of writes, `read(key)` answers the value of the last
      write to `key`, and raises `KeyError(key)` if there was none. */
  lemma ReadOfReplay<K, V>(ws: seq<(K, V)>, key: K)
    ensures NoEmptyHistory(Replay(ws))
    ensures Written(ws, key) == [] ==> ReadOf(Replay(ws), key) == KeyError(key)
    ensures Written(ws, key) != [] ==>
      ReadOf(Replay(ws), key) == Ok(Written(ws, key)[|Written(ws, key)| - 1])
  {
    ReplayHistory(ws, key);
  }

  /** After any sequence of writes, `backlog(key)` yields the values written
      to `key` newest first, one per write, and raises `KeyError(key)` if
      there was none. */
  lemma BacklogOfReplay<K, V>(ws: seq<(K, V)>, key: K)
    ensures Written(ws, key) == [] ==> BacklogOf(Replay(ws), key) == KeyError(key)
    ensures Written(ws, key) != [] ==>
      BacklogOf(Replay(ws), key) == Ok(Reverse(Written(ws, key)))
    ensures BacklogOf(Replay(ws), key).Ok? ==> |BacklogOf(Replay(ws), key).value| == |Written(ws, key)|
  {
    ReplayHistory(ws, key);
  }

  /** The storage test scenarios: `write('x', 1)` then `read('x')` is 1;
      writing 'y' after 'x' reads back 2 for 'y'; `read` and `backlog` of a
      fresh store raise `KeyError('x')`; writes 1 then 2 to 'x' give the
      backlog `[2, 1]`. */
  lemma {:induction false} StorageScenarios()
    ensures ReadOf(Replay([("x", 1)]), "x") == Ok(1)
    ensures ReadOf(Replay([("x", 1), ("y", 2)]), "y") == Ok(2)
    ensures ReadOf(Replay<string, int>([]), "x") == KeyError("x")
    ensures BacklogOf(Replay<string, int>([]), "x") == KeyError("x")
    ensures BacklogOf(Replay([("x", 1), ("x", 2)]), "x") == Ok([2, 1])
  {
    ReadOfReplay([("x", 1)], "x");
    ReadOfReplay([("x", 1), ("y", 2)], "y");
    assert [("x", 1), ("x", 2)][..1] == [("x", 1)];
    BacklogOfReplay([("x", 1), ("x", 2)], "x");
    assert Written([("x", 1), ("x", 2)], "x") == [1, 2];
    assert Reverse([1, 2]) == [2, 1] by {
      assert [1, 2][..1] == [1];
    }
  }

  // ---------------------------------------------------------------------
  // The backend itself
  // ---------------------------------------------------------------------

  /** The in-memory reference backend. */
  class MemoryStorage<K(==), V> {
    /** `_mem`: each key's values, oldest first. */
    var mem: map<K, seq<V>>

    ghost predicate Valid()
      reads this
    {
      NoEmptyHistory(mem)
    }

    constructor ()
      ensures Valid() && mem == map[]
    {
      mem := map[];
    }

    /** `read`: the key's last value, or `KeyError(key)`. */
    method Read(key: K) returns (r: Result<V, K>)
      requires Valid()
      ensures r == ReadOf(mem, key)
    {
      if key !in mem {
        return KeyError(key);
      }
      var values := mem[key];
      r := Ok(values[|values| - 1]);
    }

    /** `write`: create the key's list if absent, then append the value. */
    method Write(key: K, value: V)
      requires Valid()
      modifies this
      ensures Valid()
      ensures mem == WriteTo(old(mem), key, value)
    {
      if key !in mem {
        mem := mem[key := []];
      }
      mem := mem[key := mem[key] + [value]];
    }

    /** `backlog`: the key's values newest first, or `KeyError(key)` before
        anything is yielded. */
    method Backlog(key: K) returns (r: Result<seq<V>, K>)
      requires Valid()
      ensures r == BacklogOf(mem, key)
    {
      if key !in mem {
        return KeyError(key);
      }
      r := Ok(Reverse(mem[key]));
    }
  }
}
