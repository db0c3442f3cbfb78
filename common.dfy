/** Values shared by the scanner and the GATT back-end: optional values, results,
    the C integer widths that appear in their interfaces, and the effect of
    `emplace` on an unordered map. */
module Common {

  datatype Option<+T> = None | Some(value: T)

  datatype Result<+T, +E> = Ok(value: T) | Err(error: E)

  type uint8 = x: int | 0 <= x < 0x100
  type uint16 = x: int | 0 <= x < 0x1_0000
  type int16 = x: int | -0x8000 <= x < 0x8000
  type uint64 = x: int | 0 <= x < 0x1_0000_0000_0000_0000

  /** An opaque `void*` that callers hand in and get back in their callbacks. */
  type Pointer = nat

  /** The identity of a C function pointer registered as a callback. */
  type Callback = nat

  /** The keys of a sequence of key/value pairs. */
  function KeysOf<K, V>(entries: seq<(K, V)>): (keys: set<K>)
    ensures forall i | 0 <= i < |entries| :: entries[i].0 in keys
    ensures forall k | k in keys :: exists i | 0 <= i < |entries| :: entries[i].0 == k
  {
    set i | 0 <= i < |entries| :: entries[i].0
  }

  /** The map left by calling `m.emplace(k, v)` for every pair of `entries`,
      in order: `emplace` inserts only when the key is absent, so an existing
      entry (or an earlier pair with the same key) is kept. */
  function EmplaceAll<K, V>(m: map<K, V>, entries: seq<(K, V)>): (r: map<K, V>)
    ensures r.Keys == m.Keys + KeysOf(entries)
    ensures forall k | k in m :: r[k] == m[k]
    decreases |entries|
  {
    if entries == [] then m
    else
      var prev := EmplaceAll(m, entries[..|entries| - 1]);
      var e := entries[|entries| - 1];
      assert KeysOf(entries) == KeysOf(entries[..|entries| - 1]) + {e.0};
      if e.0 in prev then prev else prev[e.0 := e.1]
  }

  /** A key absent from `m` ends up bound to the value of its first pair. */
  lemma {:induction false} EmplaceAllFirstWins<K, V>(m: map<K, V>, entries: seq<(K, V)>, i: nat)
    requires i < |entries| && entries[i].0 !in m
    requires forall j | 0 <= j < i :: entries[j].0 != entries[i].0
    ensures entries[i].0 in EmplaceAll(m, entries)
    ensures EmplaceAll(m, entries)[entries[i].0] == entries[i].1
    decreases |entries|
  {
    var n := |entries| - 1;
    var prefix := entries[..n];
    if i < n {
      EmplaceAllFirstWins(m, prefix, i);
    } else {
      assert entries[i].0 !in KeysOf(prefix);
    }
  }

  /** The keys of two concatenated pair sequences. */
  lemma KeysOfAppend<K, V>(a: seq<(K, V)>, b: seq<(K, V)>)
    ensures KeysOf(a + b) == KeysOf(a) + KeysOf(b)
  {
    forall k | k in KeysOf(a + b)
      ensures k in KeysOf(a) + KeysOf(b)
    {
      var i :| 0 <= i < |a + b| && (a + b)[i].0 == k;
      if i >= |a| {
        assert b[i - |a|].0 == k;
      }
    }
    forall k | k in KeysOf(a)
      ensures k in KeysOf(a + b)
    {
      var i :| 0 <= i < |a| && a[i].0 == k;
      assert (a + b)[i] == a[i];
    }
    forall k | k in KeysOf(b)
      ensures k in KeysOf(a + b)
    {
      var i :| 0 <= i < |b| && b[i].0 == k;
      assert (a + b)[|a| + i] == b[i];
    }
  }

  /** The last pair is emplaced into the map built from the others. */
  lemma EmplaceAllLast<K, V>(m: map<K, V>, entries: seq<(K, V)>)
    requires entries != []
    ensures EmplaceAll(m, entries) ==
              var prev := EmplaceAll(m, entries[..|entries| - 1]);
              var e := entries[|entries| - 1];
              if e.0 in prev then prev else prev[e.0 := e.1]
  {
  }
}
