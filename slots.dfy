/** Slot-level model of an open-addressing table with linear probing and
    tombstones: the state of one slot, the +1 (mod capacity) probe walk, the
    table invariant, and the lemmas showing that each kind of slot update
    keeps that invariant. Everything here is about a plain sequence of slots;
    the class in module OpenAddressing keeps such a sequence in an array. */
module Slots {

  datatype Option<T(!new)> = None | Some(value: T)

  /** A stored entry. `deleted` marks a tombstone: its key and value are kept,
      but it no longer belongs to the table's contents. */
  datatype Entry<K(!new), V(!new)> = Entry(key: K, value: V, deleted: bool)

  /** A slot is empty (None) or holds an entry, live or tombstoned. */
  type Slot<K(!new), V(!new)> = Option<Entry<K, V>>

  // ---------------------------------------------------------------------------
  // The probe walk

  /** The slot reached after `e` steps of `index = (index + 1) % n` from `h`. */
  function Pos(h: nat, e: nat, n: nat): (r: nat)
    requires h < n && e < n
    ensures r < n
  {
    if h + e < n then h + e else h + e - n
  }

  /** How many steps the walk from `h` takes to reach slot `i`. */
  function Offset(h: nat, i: nat, n: nat): (r: nat)
    requires h < n && i < n
    ensures r < n && Pos(h, r, n) == i
  {
    if h <= i then i - h else i + n - h
  }

  /** The walk visits no slot twice within `n` steps. */
  lemma OffsetOfPos(h: nat, e: nat, n: nat)
    requires h < n && e < n
    ensures Offset(h, Pos(h, e, n), n) == e
  {
  }

  /** One more step of the walk is one more `(index + 1) % n`. */
  lemma PosStep(h: nat, d: nat, n: nat)
    requires h < n && d + 1 < n
    ensures (Pos(h, d, n) + 1) % n == Pos(h, d + 1, n)
  {
  }

  /** The home slot of a key in a table of `n` slots. */
  function Home<K(!new)>(hash: K -> nat, key: K, n: nat): (h: nat)
    requires 0 < n
    ensures h < n
  {
    hash(key) % n
  }

  // ---------------------------------------------------------------------------
  // Slot states

  ghost predicate IsLive<K(!new), V(!new)>(s: seq<Slot<K, V>>, i: int) {
    0 <= i < |s| && s[i].Some? && !s[i].value.deleted
  }

  /** Slot `i` is live and holds `key`. */
  ghost predicate HoldsKey<K(!new), V(!new)>(s: seq<Slot<K, V>>, i: int, key: K) {
    IsLive(s, i) && s[i].value.key == key
  }

  ghost predicate HasNull<K(!new), V(!new)>(s: seq<Slot<K, V>>) {
    exists i :: 0 <= i < |s| && s[i].None?
  }

  ghost predicate NoTombstones<K(!new), V(!new)>(s: seq<Slot<K, V>>) {
    forall i :: 0 <= i < |s| && s[i].Some? ==> !s[i].value.deleted
  }

  ghost function LiveIndices<K(!new), V(!new)>(s: seq<Slot<K, V>>): set<nat> {
    set i: nat | i < |s| && IsLive(s, i)
  }

  ghost function OccupiedIndices<K(!new), V(!new)>(s: seq<Slot<K, V>>): set<nat> {
    set i: nat | i < |s| && s[i].Some?
  }

  /** The number of live (non-null, non-deleted) slots. */
  ghost function LiveCount<K(!new), V(!new)>(s: seq<Slot<K, V>>): nat {
    |LiveIndices(s)|
  }

  // ---------------------------------------------------------------------------
  // Runs of slots along the walk from h

  /** The first `d` slots of the walk from `h` are all non-null. */
  ghost predicate OccupiedRun<K(!new), V(!new)>(s: seq<Slot<K, V>>, h: nat, d: nat)
    requires h < |s| && d <= |s|
  {
    forall e :: 0 <= e < d ==> s[Pos(h, e, |s|)].Some?
  }

  /** The first `d` slots of the walk from `h` are all live: the insertion
      scan passes over them. */
  ghost predicate LiveRun<K(!new), V(!new)>(s: seq<Slot<K, V>>, h: nat, d: nat)
    requires h < |s| && d <= |s|
  {
    forall e :: 0 <= e < d ==> IsLive(s, Pos(h, e, |s|))
  }

  /** The first `d` slots of the walk from `h` are non-null and none of them
      is a live slot holding `key`: the search passes over them. */
  ghost predicate SkipRun<K(!new), V(!new)>(s: seq<Slot<K, V>>, key: K, h: nat, d: nat)
    requires h < |s| && d <= |s|
  {
    forall e :: 0 <= e < d ==> s[Pos(h, e, |s|)].Some? && !HoldsKey(s, Pos(h, e, |s|), key)
  }

  /** `index` is where the search for `key` stops: the first slot of the walk
      from `h` that is null or live with `key`, every slot before it skipped. */
  ghost predicate SearchStop<K(!new), V(!new)>(s: seq<Slot<K, V>>, key: K, h: nat, index: nat)
    requires h < |s|
  {
    exists d :: 0 <= d < |s| && index == Pos(h, d, |s|) && SkipRun(s, key, h, d) &&
      (s[index].None? || HoldsKey(s, index, key))
  }

  /** `p` is where the insertion scan stops: the first slot of the walk from
      `h` that is null or tombstoned. */
  ghost predicate InsertionPoint<K(!new), V(!new)>(s: seq<Slot<K, V>>, h: nat, p: nat)
    requires h < |s|
  {
    exists d :: 0 <= d < |s| && p == Pos(h, d, |s|) && LiveRun(s, h, d) && !IsLive(s, p)
  }

  // ---------------------------------------------------------------------------
  // The table invariant

  /** No two live slots hold equal keys. */
  ghost predicate UniqueKeys<K(!new), V(!new)>(s: seq<Slot<K, V>>) {
    forall i, j :: IsLive(s, i) && IsLive(s, j) && s[i].value.key == s[j].value.key ==> i == j
  }

  /** Every live key is reached from its home slot through non-null slots. */
  ghost predicate Reachable<K(!new), V(!new)>(s: seq<Slot<K, V>>, hash: K -> nat) {
    forall i :: IsLive(s, i) ==>
      OccupiedRun(s, Home(hash, s[i].value.key, |s|), Offset(Home(hash, s[i].value.key, |s|), i, |s|))
  }

  /** `m` holds exactly the key/value pairs of the live slots. */
  ghost predicate Abstraction<K(!new), V(!new)>(s: seq<Slot<K, V>>, m: map<K, V>) {
    && (forall i :: IsLive(s, i) ==> s[i].value.key in m && m[s[i].value.key] == s[i].value.value)
    && (forall k :: k in m ==> exists i :: HoldsKey(s, i, k))
  }

  ghost predicate TableInv<K(!new), V(!new)>(s: seq<Slot<K, V>>, hash: K -> nat, m: map<K, V>) {
    UniqueKeys(s) && Reachable(s, hash) && Abstraction(s, m) && |m| == LiveCount(s)
  }

  // ---------------------------------------------------------------------------
  // Lemmas

  /** A map is determined by the live slots it abstracts. */
  lemma AbstractionUnique<K(!new), V(!new)>(s: seq<Slot<K, V>>, m1: map<K, V>, m2: map<K, V>)
    requires Abstraction(s, m1) && Abstraction(s, m2)
    ensures m1 == m2
  {
    forall k | k in m1
      ensures k in m2 && m1[k] == m2[k]
    {
      var i :| HoldsKey(s, i, k);
    }
    forall k | k in m2
      ensures k in m1
    {
      var i :| HoldsKey(s, i, k);
    }
  }

  /** A table of empty slots satisfies the invariant for the empty map. */
  lemma EmptyTable<K(!new), V(!new)>(s: seq<Slot<K, V>>, hash: K -> nat)
    requires forall i :: 0 <= i < |s| ==> s[i].None?
    ensures TableInv(s, hash, map[]) && NoTombstones(s)
  {
    assert LiveIndices(s) == {};
  }

  /** A table with no null slot has every slot occupied. */
  lemma {:induction false} FullTableOccupied<K(!new), V(!new)>(s: seq<Slot<K, V>>)
    ensures !HasNull(s) ==> |OccupiedIndices(s)| == |s|
  {
    if |s| > 0 && !HasNull(s) {
      var s' := s[..|s| - 1];
      assert forall j :: 0 <= j < |s'| ==> s'[j] == s[j];
      assert OccupiedIndices(s) == OccupiedIndices(s') + {|s| - 1};
      FullTableOccupied(s');
    }
  }

  /** Pigeonhole: fewer non-null slots than slots leaves a null slot. */
  lemma NullSlotExists<K(!new), V(!new)>(s: seq<Slot<K, V>>)
    requires |OccupiedIndices(s)| < |s|
    ensures HasNull(s)
  {
    FullTableOccupied(s);
  }

  /** Without tombstones, fewer live slots than slots leaves a null slot. */
  lemma NullSlotWithoutTombstones<K(!new), V(!new)>(s: seq<Slot<K, V>>)
    requires NoTombstones(s) && LiveCount(s) < |s|
    ensures HasNull(s)
  {
    assert OccupiedIndices(s) == LiveIndices(s);
    NullSlotExists(s);
  }

  /** There are no more live slots than slots. */
  lemma {:induction false} LiveCountBound<K(!new), V(!new)>(s: seq<Slot<K, V>>)
    ensures LiveCount(s) <= |s|
  {
    if |s| > 0 {
      var s' := s[..|s| - 1];
      var a, b := LiveIndices(s), LiveIndices(s') + {|s| - 1};
      assert forall j :: 0 <= j < |s'| ==> s'[j] == s[j];
      assert a <= b;
      assert b == a + (b - a);
      LiveCountBound(s');
    }
  }

  /** A search that reaches a null slot having skipped every slot before it
      has shown that no live slot holds the key. */
  lemma ProbeMiss<K(!new), V(!new)>(s: seq<Slot<K, V>>, hash: K -> nat, m: map<K, V>, key: K, d: nat)
    requires TableInv(s, hash, m) && d < |s|
    requires SkipRun(s, key, Home(hash, key, |s|), d) && s[Pos(Home(hash, key, |s|), d, |s|)].None?
    ensures forall i :: !HoldsKey(s, i, key)
    ensures key !in m
  {
    var h := Home(hash, key, |s|);
    forall i | IsLive(s, i)
      ensures s[i].value.key != key
    {
      var o := Offset(h, i, |s|);
      if o < d {
        assert !HoldsKey(s, Pos(h, o, |s|), key);
      } else {
        assert OccupiedRun(s, Home(hash, s[i].value.key, |s|), Offset(Home(hash, s[i].value.key, |s|), i, |s|));
      }
    }
  }

  /** A search step past an occupied slot without the key extends the
      skipped run by one and moves to the next slot of the walk. */
  lemma SkipStep<K(!new), V(!new)>(s: seq<Slot<K, V>>, key: K, h: nat, d: nat)
    requires h < |s| && d + 1 < |s| && SkipRun(s, key, h, d)
    requires s[Pos(h, d, |s|)].Some? && !HoldsKey(s, Pos(h, d, |s|), key)
    ensures SkipRun(s, key, h, d + 1)
    ensures (Pos(h, d, |s|) + 1) % |s| == Pos(h, d + 1, |s|)
  {
    PosStep(h, d, |s|);
  }

  /** When a null slot or a live holder of the key exists, the walk from `h`
      reaches one of them within `|s|` steps. */
  lemma SearchBound<K(!new), V(!new)>(s: seq<Slot<K, V>>, key: K, h: nat) returns (stop: nat)
    requires h < |s| && (HasNull(s) || exists i :: HoldsKey(s, i, key))
    ensures stop < |s|
    ensures s[Pos(h, stop, |s|)].None? || HoldsKey(s, Pos(h, stop, |s|), key)
  {
    var j: nat;
    if HasNull(s) {
      j :| j < |s| && s[j].None?;
    } else {
      j :| HoldsKey(s, j, key);
    }
    stop := Offset(h, j, |s|);
  }

  /** Without a null slot, a search for a key no live slot holds has no
      slot to stop at: the walk goes round forever. */
  lemma NoSearchStop<K(!new), V(!new)>(s: seq<Slot<K, V>>, key: K, h: nat)
    requires h < |s| && !HasNull(s) && forall i :: !HoldsKey(s, i, key)
    ensures forall index :: !SearchStop(s, key, h, index)
  {
  }

  /** When the home slot itself is null or tombstoned, the insertion scan
      stops there. */
  lemma InsertionPointAtHome<K(!new), V(!new)>(s: seq<Slot<K, V>>, h: nat, p: nat)
    requires h < |s| && InsertionPoint(s, h, p) && !IsLive(s, h)
    ensures p == h
  {
    var d :| 0 <= d < |s| && p == Pos(h, d, |s|) && LiveRun(s, h, d) && !IsLive(s, p);
    assert Pos(h, 0, |s|) == h;
  }

  // Placing a new key at the insertion point.

  lemma InsertUnique<K(!new), V(!new)>(s: seq<Slot<K, V>>, key: K, value: V, p: nat)
    requires UniqueKeys(s) && p < |s| && forall i :: !HoldsKey(s, i, key)
    ensures UniqueKeys(s[p := Some(Entry(key, value, false))])
  {
    var t := s[p := Some(Entry(key, value, false))];
    forall i, j | IsLive(t, i) && IsLive(t, j) && t[i].value.key == t[j].value.key
      ensures i == j
    {
      assert i != p ==> IsLive(s, i) && !HoldsKey(s, i, key);
      assert j != p ==> IsLive(s, j) && !HoldsKey(s, j, key);
    }
  }

  lemma InsertReachable<K(!new), V(!new)>(s: seq<Slot<K, V>>, hash: K -> nat, key: K, value: V, p: nat)
    requires Reachable(s, hash) && 0 < |s| && InsertionPoint(s, Home(hash, key, |s|), p)
    ensures Reachable(s[p := Some(Entry(key, value, false))], hash)
  {
    var h := Home(hash, key, |s|);
    var d :| 0 <= d < |s| && p == Pos(h, d, |s|) && LiveRun(s, h, d) && !IsLive(s, p);
    var t := s[p := Some(Entry(key, value, false))];
    forall i | IsLive(t, i)
      ensures OccupiedRun(t, Home(hash, t[i].value.key, |t|), Offset(Home(hash, t[i].value.key, |t|), i, |t|))
    {
      if i == p {
        OffsetOfPos(h, d, |s|);
      } else {
        assert IsLive(s, i);
      }
    }
  }

  lemma InsertAbstraction<K(!new), V(!new)>(s: seq<Slot<K, V>>, m: map<K, V>, key: K, value: V, p: nat)
    requires Abstraction(s, m) && p < |s| && !IsLive(s, p) && key !in m
    ensures Abstraction(s[p := Some(Entry(key, value, false))], m[key := value])
  {
    var t := s[p := Some(Entry(key, value, false))];
    var m' := m[key := value];
    forall k | k in m'
      ensures exists i :: HoldsKey(t, i, k)
    {
      if k == key {
        assert HoldsKey(t, p, k);
      } else {
        var i :| HoldsKey(s, i, k);
        assert HoldsKey(t, i, k);
      }
    }
  }

  /** Placing a new key at the insertion point keeps the invariant and adds
      the pair to the contents. */
  lemma InsertPreserves<K(!new), V(!new)>(s: seq<Slot<K, V>>, hash: K -> nat, m: map<K, V>, key: K, value: V, p: nat)
    requires TableInv(s, hash, m) && 0 < |s| && key !in m
    requires InsertionPoint(s, Home(hash, key, |s|), p)
    ensures p < |s| && !IsLive(s, p)
    ensures TableInv(s[p := Some(Entry(key, value, false))], hash, m[key := value])
    ensures LiveCount(s[p := Some(Entry(key, value, false))]) == LiveCount(s) + 1
    ensures NoTombstones(s) ==> NoTombstones(s[p := Some(Entry(key, value, false))])
  {
    var t := s[p := Some(Entry(key, value, false))];
    forall i | IsLive(s, i)
      ensures s[i].value.key != key
    {
    }
    InsertUnique(s, key, value, p);
    InsertReachable(s, hash, key, value, p);
    InsertAbstraction(s, m, key, value, p);
    InsertLive(s, p, Entry(key, value, false));
  }

  /** Filling a slot that is not live with a live entry adds exactly that
      slot to the live ones. */
  lemma InsertLive<K(!new), V(!new)>(s: seq<Slot<K, V>>, p: nat, e: Entry<K, V>)
    requires p < |s| && !IsLive(s, p) && !e.deleted
    ensures LiveIndices(s[p := Some(e)]) == LiveIndices(s) + {p}
    ensures NoTombstones(s) ==> NoTombstones(s[p := Some(e)])
  {
  }

  // Updating a live slot in place.

  lemma OverwriteAbstraction<K(!new), V(!new)>(s: seq<Slot<K, V>>, m: map<K, V>, i: nat, value: V)
    requires UniqueKeys(s) && Abstraction(s, m) && IsLive(s, i)
    ensures Abstraction(s[i := Some(s[i].value.(value := value))], m[s[i].value.key := value])
  {
    var t := s[i := Some(s[i].value.(value := value))];
    var m' := m[s[i].value.key := value];
    forall k | k in m'
      ensures exists j :: HoldsKey(t, j, k)
    {
      var j :| HoldsKey(s, j, k);
      assert HoldsKey(t, j, k);
    }
  }

  /** Overwriting the value of a live slot keeps the invariant and updates
      the contents at that slot's key. */
  lemma OverwritePreserves<K(!new), V(!new)>(s: seq<Slot<K, V>>, hash: K -> nat, m: map<K, V>, i: nat, value: V)
    requires TableInv(s, hash, m) && IsLive(s, i)
    ensures TableInv(s[i := Some(s[i].value.(value := value))], hash, m[s[i].value.key := value])
    ensures LiveCount(s[i := Some(s[i].value.(value := value))]) == LiveCount(s)
    ensures NoTombstones(s) ==> NoTombstones(s[i := Some(s[i].value.(value := value))])
  {
    var t := s[i := Some(s[i].value.(value := value))];
    forall j | IsLive(t, j)
      ensures OccupiedRun(t, Home(hash, t[j].value.key, |t|), Offset(Home(hash, t[j].value.key, |t|), j, |t|))
    {
      assert IsLive(s, j);
    }
    OverwriteAbstraction(s, m, i, value);
    OverwriteLive(s, i, value);
  }

  /** Overwriting the value of a live slot leaves the live slots, their keys
      and the tombstones as they were. */
  lemma OverwriteLive<K(!new), V(!new)>(s: seq<Slot<K, V>>, i: nat, value: V)
    requires IsLive(s, i)
    ensures LiveIndices(s[i := Some(s[i].value.(value := value))]) == LiveIndices(s)
    ensures UniqueKeys(s) ==> UniqueKeys(s[i := Some(s[i].value.(value := value))])
    ensures NoTombstones(s) ==> NoTombstones(s[i := Some(s[i].value.(value := value))])
  {
  }

  lemma TombstoneAbstraction<K(!new), V(!new)>(s: seq<Slot<K, V>>, m: map<K, V>, i: nat)
    requires UniqueKeys(s) && Abstraction(s, m) && IsLive(s, i)
    ensures Abstraction(s[i := Some(s[i].value.(deleted := true))], m - {s[i].value.key})
  {
    var t := s[i := Some(s[i].value.(deleted := true))];
    var m' := m - {s[i].value.key};
    forall k | k in m'
      ensures exists j :: HoldsKey(t, j, k)
    {
      var j :| HoldsKey(s, j, k);
      assert HoldsKey(t, j, k);
    }
  }

  lemma TombstoneReachable<K(!new), V(!new)>(s: seq<Slot<K, V>>, hash: K -> nat, i: nat)
    requires Reachable(s, hash) && IsLive(s, i)
    ensures Reachable(s[i := Some(s[i].value.(deleted := true))], hash)
  {
    var t := s[i := Some(s[i].value.(deleted := true))];
    forall j | IsLive(t, j)
      ensures OccupiedRun(t, Home(hash, t[j].value.key, |t|), Offset(Home(hash, t[j].value.key, |t|), j, |t|))
    {
      assert IsLive(s, j);
    }
  }

  /** Tombstoning a live slot takes exactly that slot out of the live ones. */
  lemma TombstoneLive<K(!new), V(!new)>(s: seq<Slot<K, V>>, i: nat)
    requires IsLive(s, i)
    ensures LiveIndices(s[i := Some(s[i].value.(deleted := true))]) == LiveIndices(s) - {i}
    ensures UniqueKeys(s) ==> UniqueKeys(s[i := Some(s[i].value.(deleted := true))])
  {
  }

  /** Tombstoning a live slot keeps the invariant and removes its key from
      the contents. */
  lemma TombstonePreserves<K(!new), V(!new)>(s: seq<Slot<K, V>>, hash: K -> nat, m: map<K, V>, i: nat)
    requires TableInv(s, hash, m) && IsLive(s, i)
    ensures TableInv(s[i := Some(s[i].value.(deleted := true))], hash, m - {s[i].value.key})
    ensures LiveCount(s[i := Some(s[i].value.(deleted := true))]) == LiveCount(s) - 1
    ensures HasNull(s) ==> HasNull(s[i := Some(s[i].value.(deleted := true))])
  {
    var t := s[i := Some(s[i].value.(deleted := true))];
    var key := s[i].value.key;
    TombstoneAbstraction(s, m, i);
    TombstoneReachable(s, hash, i);
    TombstoneLive(s, i);
    assert (m - {key}).Keys == m.Keys - {key};
    if HasNull(s) {
      var j :| 0 <= j < |s| && s[j].None?;
      assert t[j].None?;
    }
  }

  // ---------------------------------------------------------------------------
  // The pairs of a prefix of the slots, in the order the rehash visits them

  /** The key/value pairs of the live slots among the first `i`, later slots
      winning on equal keys. */
  ghost function LiveMap<K(!new), V(!new)>(s: seq<Slot<K, V>>, i: nat): map<K, V>
    requires i <= |s|
  {
    if i == 0 then map[]
    else if IsLive(s, i - 1) then LiveMap(s, i - 1)[s[i - 1].value.key := s[i - 1].value.value]
    else LiveMap(s, i - 1)
  }

  /** Every key of LiveMap(s, i) comes from a live slot before `i`, so it has
      at most `i` keys. */
  lemma {:induction false} LiveMapKeys<K(!new), V(!new)>(s: seq<Slot<K, V>>, i: nat)
    requires i <= |s|
    ensures forall k :: k in LiveMap(s, i) ==> exists j :: 0 <= j < i && HoldsKey(s, j, k)
    ensures |LiveMap(s, i)| <= i
  {
    if i > 0 {
      LiveMapKeys(s, i - 1);
      var m := LiveMap(s, i - 1);
      if IsLive(s, i - 1) {
        var k := s[i - 1].value.key;
        assert LiveMap(s, i).Keys == m.Keys + {k};
        assert |m.Keys + {k}| <= |m.Keys| + 1;
        forall k' | k' in LiveMap(s, i)
          ensures exists j :: 0 <= j < i && HoldsKey(s, j, k')
        {
          if k' == k {
            assert HoldsKey(s, i - 1, k');
          } else {
            var j :| 0 <= j < i - 1 && HoldsKey(s, j, k');
          }
        }
      }
    }
  }

  /** With unique keys, the live key at slot `i` is not among the pairs of
      the slots before it. */
  lemma LiveMapFresh<K(!new), V(!new)>(s: seq<Slot<K, V>>, i: nat)
    requires UniqueKeys(s) && IsLive(s, i)
    ensures s[i].value.key !in LiveMap(s, i)
  {
    LiveMapKeys(s, i);
    forall j | 0 <= j < i && IsLive(s, j)
      ensures s[j].value.key != s[i].value.key
    {
    }
  }

  /** With unique keys, LiveMap of all the slots is the map the slots
      abstract. */
  lemma LiveMapComplete<K(!new), V(!new)>(s: seq<Slot<K, V>>, m: map<K, V>)
    requires UniqueKeys(s) && Abstraction(s, m)
    ensures LiveMap(s, |s|) == m
  {
    LiveMapPrefix(s, |s|);
    assert s[..|s|] == s;
    AbstractionUnique(s, LiveMap(s, |s|), m);
  }

  lemma {:induction false} LiveMapPrefix<K(!new), V(!new)>(s: seq<Slot<K, V>>, i: nat)
    requires UniqueKeys(s) && i <= |s|
    ensures Abstraction(s[..i], LiveMap(s, i))
  {
    if i == 0 {
      assert LiveIndices(s[..0]) == {};
    } else {
      LiveMapPrefix(s, i - 1);
      AbstractionExtend(s, LiveMap(s, i - 1), i - 1);
    }
  }

  /** Extending a prefix of the slots by one slot extends its abstraction by
      that slot's pair when it is live. */
  lemma AbstractionExtend<K(!new), V(!new)>(s: seq<Slot<K, V>>, m: map<K, V>, i: nat)
    requires UniqueKeys(s) && i < |s| && Abstraction(s[..i], m)
    ensures IsLive(s, i) ==> s[i].value.key !in m && Abstraction(s[..i + 1], m[s[i].value.key := s[i].value.value])
    ensures !IsLive(s, i) ==> Abstraction(s[..i + 1], m)
  {
    var u := s[..i + 1];
    if IsLive(s, i) {
      var key := s[i].value.key;
      forall j | IsLive(s[..i], j)
        ensures s[..i][j].value.key != key
      {
        assert IsLive(s, j);
      }
      var m' := m[key := s[i].value.value];
      forall k | k in m'
        ensures exists j :: HoldsKey(u, j, k)
      {
        if k == key {
          assert HoldsKey(u, i, k);
        } else {
          var j :| HoldsKey(s[..i], j, k);
          assert HoldsKey(u, j, k);
        }
      }
      forall j | IsLive(u, j)
        ensures u[j].value.key in m' && m'[u[j].value.key] == u[j].value.value
      {
        if j < i {
          assert IsLive(s[..i], j);
        }
      }
    } else {
      forall k | k in m
        ensures exists j :: HoldsKey(u, j, k)
      {
        var j :| HoldsKey(s[..i], j, k);
        assert HoldsKey(u, j, k);
      }
      forall j | IsLive(u, j)
        ensures u[j].value.key in m && m[u[j].value.key] == u[j].value.value
      {
        assert IsLive(s[..i], j);
      }
    }
  }
}
