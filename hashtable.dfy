/** The hash table of src/HashTable.java: an array of slots searched by
    linear probing, with tombstones for removal and growth by doubling when
    the load factor is reached. */
module OpenAddressing {
  import opened Slots

  const InitialCapacity: nat := 16
  const InitialLoadFactor: real := 0.5
  /** Integer.MAX_VALUE - 8, the largest capacity the constructor accepts. */
  const MaxCapacity: nat := 2147483647 - 8

  /** The capacity the constructor keeps: the requested one when it lies in
      1..MaxCapacity, the default otherwise. */
  function NormalizedCapacity(initialCapacity: int): (c: nat)
    ensures 1 <= c <= MaxCapacity
    ensures c == initialCapacity <==> 1 <= initialCapacity <= MaxCapacity
    ensures c != initialCapacity ==> c == InitialCapacity
  {
    if initialCapacity <= 0 || initialCapacity > MaxCapacity then InitialCapacity else initialCapacity
  }

  /** The load factor the constructor keeps: the requested one when it lies
      in [0, 1], the default otherwise. */
  function NormalizedLoadFactor(initialLoadFactor: real): (lf: real)
    ensures 0.0 <= lf <= 1.0
    ensures lf == initialLoadFactor <==> 0.0 <= initialLoadFactor <= 1.0
    ensures lf != initialLoadFactor ==> lf == InitialLoadFactor
  {
    if initialLoadFactor < 0.0 || initialLoadFactor > 1.0 then InitialLoadFactor else initialLoadFactor
  }

  /** The growth condition: `size` has reached `lf` times the capacity. */
  predicate AtThreshold(lf: real, c: int, s: int) {
    lf * c as real <= s as real
  }

  // ---------------------------------------------------------------------------
  // Why nested growth stops.
  //
  // The re-insertion put of a rehash runs its growth check with size one
  // higher than the table's live count, so a rehash can start another one.
  // Each nesting level at least doubles the capacity and raises size by one.
  // Budget counts the capacity still missing before lf * capacity > 2; from
  // then on every doubling adds more than 2 to lf * capacity while size
  // gains 1, so Slack, size + 1 - floor(lf * capacity) or 0 when that is
  // negative, drops.

  ghost function Budget(lf: real, c: int): nat
    requires 0.0 < lf
  {
    var k := (2.0 / lf).Floor + 1;
    if c < k then k - c else 0
  }

  ghost function Slack(lf: real, c: int, s: int): nat {
    var r := s + 1 - (lf * c as real).Floor;
    if r > 0 then r else 0
  }

  lemma MulMonotone(a: real, x: real, y: real)
    requires 0.0 < a && y <= x
    ensures a * y <= a * x
  {
  }

  lemma MulStrictMonotone(a: real, x: real, y: real)
    requires 0.0 < a && y < x
    ensures a * y < a * x
  {
  }

  /** Past 2 / lf, lf times the capacity exceeds 2. */
  lemma ScaledAboveTwo(lf: real, k: real)
    requires 0.0 < lf && 2.0 / lf < k
    ensures 2.0 < lf * k
  {
    var q := 2.0 / lf;
    MulStrictMonotone(lf, k, q);
    var two, above := lf * q, lf * k;
    assert two == 2.0 && two < above;
  }

  /** At least doubling the capacity at least doubles lf times it. */
  lemma ScaledDoubling(lf: real, c: real, c': real)
    requires 0.0 < lf && 2.0 * c <= c'
    ensures 2.0 * (lf * c) <= lf * c'
  {
    MulMonotone(lf, c', 2.0 * c);
    assert lf * (2.0 * c) == 2.0 * (lf * c);
  }

  /** From a rehash started at capacity c and size s (so lf * c <= s) to a
      re-insertion put at capacity c' >= 2c and the same size, the measure
      (Budget, Slack) drops lexicographically. */
  lemma GrowthMeasureDrops(lf: real, c: int, c': int, s: int)
    requires 0.0 < lf && 1 <= c && 2 * c <= c' && AtThreshold(lf, c, s)
    ensures Budget(lf, c') < Budget(lf, c) ||
            (Budget(lf, c') == Budget(lf, c) && Slack(lf, c', s + 1) < Slack(lf, c, s))
  {
    if c >= (2.0 / lf).Floor + 1 {
      FloorGap(lf, c, c');
    }
  }

  /** Once lf * c exceeds 2, doubling c raises the floor of lf * c by at
      least 2. */
  lemma FloorGap(lf: real, c: int, c': int)
    requires 0.0 < lf && (2.0 / lf).Floor + 1 <= c && 2 * c <= c'
    ensures (lf * c' as real).Floor > (lf * c as real).Floor + 1
  {
    var k := (2.0 / lf).Floor + 1;
    var x := lf * c as real;
    var x' := lf * c' as real;
    ScaledAboveTwo(lf, k as real);
    MulMonotone(lf, c as real, k as real);
    ScaledDoubling(lf, c as real, c' as real);
    assert 2.0 < x && 2.0 * x <= x';
  }

  class HashTable<K(==,!new), V(!new)> {
    /** hashCode() & Integer.MAX_VALUE of a key. */
    const hash: K -> nat
    const loadFactor: real
    var capacity: nat
    var size: int
    var elements: array<Slot<K, V>>
    /** The live key/value pairs. */
    ghost var Contents: map<K, V>

    /** The shape of the table: array, capacity and the slot invariant.
        `size` is left out because a rehash runs re-insertions with `size`
        ahead of the live count. */
    ghost predicate Wf()
      reads this, elements
    {
      && elements.Length == capacity && 0 < capacity
      && 0.0 <= loadFactor <= 1.0
      && TableInv(elements[..], hash, Contents)
    }

    /** The class invariant: the shape and `size` counting the live slots. */
    ghost predicate Valid()
      reads this, elements
      ensures Valid() ==> size == |Contents| && size <= capacity
    {
      LiveCountBound(elements[..]);
      Wf() && size == LiveCount(elements[..])
    }

    /** At the load threshold. A table whose size has reached its capacity
        is always full, since the load factor is at most 1. */
    predicate IsFull()
      reads this
      ensures 0.0 <= loadFactor <= 1.0 && capacity <= size ==> IsFull()
    {
      AtThreshold(loadFactor, capacity, size)
    }

    constructor (hash: K -> nat, initialCapacity: int, initialLoadFactor: real)
      ensures Valid() && fresh(elements)
      ensures this.hash == hash
      ensures capacity == NormalizedCapacity(initialCapacity)
      ensures loadFactor == NormalizedLoadFactor(initialLoadFactor)
      ensures size == 0 && Contents == map[]
      ensures size < capacity
      ensures forall i :: 0 <= i < elements.Length ==> elements[i].None?
    {
      this.hash := hash;
      capacity := NormalizedCapacity(initialCapacity);
      loadFactor := NormalizedLoadFactor(initialLoadFactor);
      size := 0;
      Contents := map[];
      new;
      elements := new Slot<K, V>[capacity](_ => None);
      EmptyTable(elements[..], hash);
    }

    /** HashTable(): default capacity and load factor. */
    constructor Default(hash: K -> nat)
      ensures Valid() && fresh(elements)
      ensures this.hash == hash
      ensures capacity == InitialCapacity && loadFactor == InitialLoadFactor
      ensures size == 0 && Contents == map[]
      ensures size < capacity
      ensures forall i :: 0 <= i < elements.Length ==> elements[i].None?
    {
      this.hash := hash;
      capacity := InitialCapacity;
      loadFactor := InitialLoadFactor;
      size := 0;
      Contents := map[];
      new;
      elements := new Slot<K, V>[InitialCapacity](_ => None);
      EmptyTable(elements[..], hash);
    }

    /** HashTable(initialCapacity): default load factor. */
    constructor WithCapacity(hash: K -> nat, initialCapacity: int)
      ensures Valid() && fresh(elements)
      ensures this.hash == hash
      ensures capacity == NormalizedCapacity(initialCapacity) && loadFactor == InitialLoadFactor
      ensures size == 0 && Contents == map[]
      ensures size < capacity
      ensures forall i :: 0 <= i < elements.Length ==> elements[i].None?
    {
      this.hash := hash;
      capacity := NormalizedCapacity(initialCapacity);
      loadFactor := InitialLoadFactor;
      size := 0;
      Contents := map[];
      new;
      elements := new Slot<K, V>[capacity](_ => None);
      EmptyTable(elements[..], hash);
    }

    /** The probe search: walk from the key's home slot over non-null slots
        until a null slot or a live slot holding the key. */
    method Find(key: K) returns (index: nat)
      requires Wf() && (HasNull(elements[..]) || key in Contents)
      ensures index < elements.Length
      ensures SearchStop(elements[..], key, Home(hash, key, capacity), index)
      ensures elements[index].None? <==> key !in Contents
      ensures elements[index].Some? ==>
        HoldsKey(elements[..], index, key) && Contents[key] == elements[index].value.value
    {
      ghost var s := elements[..];
      ghost var n := capacity;
      ghost var h := Home(hash, key, n);
      // The walk is bound to stop within `stop` steps.
      ghost var stop := SearchBound(s, key, h);
      index := hash(key) % capacity;
      ghost var d := 0;
      while elements[index].Some?
        invariant 0 <= d <= stop && index == Pos(h, d, n)
        invariant SkipRun(s, key, h, d)
        decreases stop - d
      {
        if elements[index].value.key == key && !elements[index].value.deleted {
          assert SkipRun(s, key, h, d) && HoldsKey(s, index, key);
          return;
        }
        assert d != stop by {
          assert !HoldsKey(s, index, key);
        }
        SkipStep(s, key, h, d);
        index := (index + 1) % capacity;
        d := d + 1;
      }
      ProbeMiss(s, hash, Contents, key, d);
    }

    method Get(key: K) returns (r: Option<V>)
      requires Wf() && (HasNull(elements[..]) || key in Contents)
      ensures r == if key in Contents then Some(Contents[key]) else None
    {
      var index := Find(key);
      if elements[index].Some? {
        return Some(elements[index].value.value);
      }
      return None;
    }

    method Size() returns (r: int)
      requires Valid()
      ensures r == |Contents|
    {
      return size;
    }

    /** The insertion scan of put: walk from the key's home slot over live
        slots until a null or tombstoned slot. */
    method FreeSlot(key: K) returns (index: nat)
      requires elements.Length == capacity && 0 < capacity && HasNull(elements[..])
      ensures index < elements.Length
      ensures InsertionPoint(elements[..], Home(hash, key, capacity), index)
    {
      ghost var s := elements[..];
      ghost var n := capacity;
      ghost var h := Home(hash, key, n);
      ghost var j :| 0 <= j < n && s[j].None?;
      ghost var stop := Offset(h, j, n);
      index := hash(key) % capacity;
      ghost var d := 0;
      while elements[index].Some? && !elements[index].value.deleted
        invariant 0 <= d <= stop && index == Pos(h, d, n)
        invariant LiveRun(s, h, d)
        decreases stop - d
      {
        PosStep(h, d, n);
        index := (index + 1) % capacity;
        d := d + 1;
      }
    }

    /** Upsert. A live key has its value overwritten in place; a new key goes
        to the first null or tombstoned slot from its home, and the table
        grows when the load factor is reached. */
    method Put(key: K, value: V) returns (prev: Option<V>)
      requires Wf() && 0.0 < loadFactor && (HasNull(elements[..]) || key in Contents)
      modifies this, elements
      decreases Budget(loadFactor, capacity), Slack(loadFactor, capacity, size + 1), 4
      ensures Wf()
      ensures Contents == old(Contents)[key := value]
      ensures prev == if key in old(Contents) then Some(old(Contents)[key]) else None
      ensures size == old(size) + (if key in old(Contents) then 0 else 1)
      ensures old(Valid()) ==> Valid()
      ensures capacity >= old(capacity)
      ensures elements == old(elements) || fresh(elements)
      ensures NoTombstones(old(elements[..])) ==> NoTombstones(elements[..])
      ensures old(size) < old(capacity) ==> size < capacity
      // A live key: only its slot changes, and no growth check runs.
      ensures key in old(Contents) ==>
        && elements == old(elements) && capacity == old(capacity)
        && exists i :: HoldsKey(old(elements[..]), i, key) &&
             elements[..] == old(elements[..])[i := Some(Entry(key, value, false))]
      // A new key below the threshold: stored at the insertion point.
      ensures key !in old(Contents) && !(AtThreshold(loadFactor, old(capacity), size)) ==>
        && elements == old(elements) && capacity == old(capacity)
        && exists p: nat :: InsertionPoint(old(elements[..]), Home(hash, key, old(capacity)), p) &&
             elements[..] == old(elements[..])[p := Some(Entry(key, value, false))]
      // A new key at the threshold: the table has grown.
      ensures key !in old(Contents) && AtThreshold(loadFactor, old(capacity), size) ==>
        && fresh(elements) && capacity >= 2 * old(capacity)
        && NoTombstones(elements[..]) && HasNull(elements[..])
    {
      var index := Find(key);
      if elements[index].Some? {
        ghost var s := elements[..];
        prev := Some(elements[index].value.value);
        OverwritePreserves(s, hash, Contents, index, value);
        elements[index] := Some(elements[index].value.(value := value));
        Contents := Contents[key := value];
        return;
      }
      Insert(key, value);
      prev := None;
    }

    /** The insertion path of put, for a key that is not live: the new entry
        goes to the insertion point, size grows by one, and the table grows
        when the load factor is reached. */
    method Insert(key: K, value: V)
      requires Wf() && 0.0 < loadFactor && key !in Contents && HasNull(elements[..])
      modifies this, elements
      decreases Budget(loadFactor, capacity), Slack(loadFactor, capacity, size + 1), 3
      ensures Wf()
      ensures Contents == old(Contents)[key := value] && size == old(size) + 1
      ensures old(Valid()) ==> Valid()
      ensures capacity >= old(capacity)
      ensures elements == old(elements) || fresh(elements)
      ensures NoTombstones(old(elements[..])) ==> NoTombstones(elements[..])
      ensures old(size) < old(capacity) ==> size < capacity
      ensures !AtThreshold(loadFactor, old(capacity), size) ==>
        && elements == old(elements) && capacity == old(capacity)
        && exists p: nat :: InsertionPoint(old(elements[..]), Home(hash, key, old(capacity)), p) &&
             elements[..] == old(elements[..])[p := Some(Entry(key, value, false))]
      ensures AtThreshold(loadFactor, old(capacity), size) ==>
        && fresh(elements) && capacity >= 2 * old(capacity)
        && NoTombstones(elements[..]) && HasNull(elements[..])
    {
      ghost var s := elements[..];
      var index := FreeSlot(key);
      assert InsertionPoint(old(elements[..]), Home(hash, key, old(capacity)), index);
      InsertPreserves(s, hash, Contents, key, value, index);
      elements[index] := Some(Entry(key, value, false));
      size := size + 1;
      Contents := Contents[key := value];
      assert elements[..] == old(elements[..])[index := Some(Entry(key, value, false))];
      assert Wf();
      if IsFull() {
        assert AtThreshold(loadFactor, old(capacity), size);
        EnsureCapacity();
      } else {
        assert !(AtThreshold(loadFactor, old(capacity), size));
      }
    }

    /** Tombstoning remove: the slot keeps its key and value and is marked
        deleted. */
    method Remove(key: K) returns (prev: Option<V>)
      requires Wf() && (HasNull(elements[..]) || key in Contents)
      modifies this, elements
      ensures Wf() && elements == old(elements) && capacity == old(capacity)
      ensures Contents == old(Contents) - {key}
      ensures prev == if key in old(Contents) then Some(old(Contents)[key]) else None
      ensures size == old(size) - (if key in old(Contents) then 1 else 0)
      ensures old(Valid()) ==> Valid()
      ensures old(HasNull(elements[..])) ==> HasNull(elements[..])
      ensures key in old(Contents) ==>
        exists i :: HoldsKey(old(elements[..]), i, key) &&
          elements[..] == old(elements[..])[i := Some(Entry(key, old(Contents)[key], true))]
      ensures key !in old(Contents) ==> elements[..] == old(elements[..]) && Contents == old(Contents)
    {
      var index := Find(key);
      if elements[index].Some? {
        prev := Some(elements[index].value.value);
        Delete(index);
        return;
      }
      assert Contents - {key} == Contents;
      prev := None;
    }

    /** Entry.delete() on a live slot, with the size decrement of remove: the
        slot becomes a tombstone keeping its key and value. */
    method Delete(index: nat)
      requires Wf() && IsLive(elements[..], index)
      modifies this, elements
      ensures Wf() && elements == old(elements) && capacity == old(capacity)
      ensures Contents == old(Contents) - {old(elements[index]).value.key}
      ensures size == old(size) - 1
      ensures old(Valid()) ==> Valid()
      ensures old(HasNull(elements[..])) ==> HasNull(elements[..])
      ensures elements[..] == old(elements[..])[index := Some(old(elements[index]).value.(deleted := true))]
    {
      ghost var s := elements[..];
      var e := elements[index].value;
      TombstonePreserves(s, hash, Contents, index);
      elements[index] := Some(e.(deleted := true));
      size := size - 1;
      Contents := Contents - {e.key};
    }

    /** Rehash: double the capacity and re-insert every live entry through
        Reinsert. */
    method EnsureCapacity()
      requires Wf() && 0.0 < loadFactor && AtThreshold(loadFactor, capacity, size)
      modifies this
      decreases Budget(loadFactor, capacity), Slack(loadFactor, capacity, size), 2
      ensures Wf() && fresh(elements)
      ensures capacity >= 2 * old(capacity)
      ensures Contents == old(Contents) && size == old(size)
      ensures NoTombstones(elements[..]) && HasNull(elements[..])
    {
      var oldElements := elements;
      ghost var oldS := elements[..];
      ghost var oldContents := Contents;
      capacity := capacity * 2;
      elements := new Slot<K, V>[capacity](_ => None);
      Contents := map[];
      EmptyTable(elements[..], hash);
      ReinsertAll(oldElements, oldS, old(capacity));
      LiveMapComplete(oldS, oldContents);
      LiveMapKeys(oldS, oldElements.Length);
      NullSlotWithoutTombstones(elements[..]);
    }

    /** The state of a rehash after the first i old slots: the shape with no
        tombstones, the pairs of those slots as contents, and the old
        capacity c0 at its threshold, with at least twice its slots. */
    ghost predicate Rehashing(oldS: seq<Slot<K, V>>, i: nat, c0: nat)
      reads this, elements
    {
      && Wf() && 0.0 < loadFactor && NoTombstones(elements[..])
      && UniqueKeys(oldS) && i <= |oldS| && 2 * |oldS| <= capacity
      && Contents == LiveMap(oldS, i)
      && 1 <= c0 && 2 * c0 <= capacity && AtThreshold(loadFactor, c0, size)
    }

    /** The rehash loop: every slot of the old array, in index order, goes
        through Reinsert. The old capacity c0 bounds the nested growth. */
    method ReinsertAll(oldElements: array<Slot<K, V>>, ghost oldS: seq<Slot<K, V>>, ghost c0: nat)
      requires Rehashing(oldS, 0, c0)
      requires oldElements != elements && oldElements[..] == oldS
      modifies this, elements
      decreases Budget(loadFactor, c0), Slack(loadFactor, c0, size), 1
      ensures Rehashing(oldS, |oldS|, c0)
      ensures (elements == old(elements) || fresh(elements))
      ensures capacity >= old(capacity) && size == old(size)
    {
      for i := 0 to oldElements.Length
        invariant Rehashing(oldS, i, c0)
        invariant elements == old(elements) || fresh(elements)
        invariant capacity >= old(capacity) && size == old(size)
      {
        Reinsert(oldS, i, oldElements[i], c0);
      }
    }

    /** One iteration of the rehash loop: a live old entry goes back in
        through Put, which counts it, so the count is undone. */
    method Reinsert(ghost oldS: seq<Slot<K, V>>, i: nat, slot: Slot<K, V>, ghost c0: nat)
      requires Rehashing(oldS, i, c0) && i < |oldS| && slot == oldS[i]
      modifies this, elements
      decreases Budget(loadFactor, c0), Slack(loadFactor, c0, size), 0
      ensures Rehashing(oldS, i + 1, c0)
      ensures (elements == old(elements) || fresh(elements))
      ensures capacity >= old(capacity) && size == old(size)
    {
      if slot.Some? && !slot.value.deleted {
        LiveMapKeys(oldS, i);
        LiveMapFresh(oldS, i);
        NullSlotWithoutTombstones(elements[..]);
        GrowthMeasureDrops(loadFactor, c0, capacity, size);
        var _ := Put(slot.value.key, slot.value.value);
        size := size - 1;
      }
    }
  }

  /** get(k) right after put(k, v) yields v, whatever the table held. */
  method PutThenGet<K(==,!new), V(!new)>(t: HashTable<K, V>, key: K, value: V) returns (r: Option<V>)
    requires t.Valid() && 0.0 < t.loadFactor && (HasNull(t.elements[..]) || key in t.Contents)
    modifies t, t.elements
    ensures t.Valid() && t.Contents == old(t.Contents)[key := value]
    ensures r == Some(value)
  {
    var _ := t.Put(key, value);
    r := t.Get(key);
  }

  /** get(k) and a second remove(k) right after remove(k) both yield
      nothing. */
  method RemoveThenGet<K(==,!new), V(!new)>(t: HashTable<K, V>, key: K) returns (r: Option<V>, again: Option<V>)
    requires t.Valid() && HasNull(t.elements[..])
    modifies t, t.elements
    ensures t.Valid() && t.Contents == old(t.Contents) - {key}
    ensures r == None && again == None
  {
    var _ := t.Remove(key);
    r := t.Get(key);
    again := t.Remove(key);
  }

  /** A state reached through the public operations in which no slot is
      null: capacity 2, load factor 1, put(0), remove(0), put(1), with every
      key its own hash. The search for key 2 has no slot to stop at, so
      get(2) would never return; this is why Find, Get, Put and Remove ask
      for a null slot unless the key is live. */
  method NoNullSlotReachable() returns (t: HashTable<nat, nat>)
    ensures t.Valid() && t.capacity == 2 && t.size == 1 && t.Contents == map[1 := 11]
    ensures t.elements[..] == [Some(Entry(0, 10, true)), Some(Entry(1, 11, false))]
    ensures !HasNull(t.elements[..])
    ensures forall index :: !SearchStop(t.elements[..], 2, Home(t.hash, 2, 2), index)
  {
    t := new HashTable((k: nat) => k, 2, 1.0);
    assert t.elements[..] == [None, None];
    PutFirst(t);
    RemoveFirst(t);
    PutSecond(t);
    NoSearchStop(t.elements[..], 2, Home(t.hash, 2, 2));
  }

  /** put(0, 10) on the empty table of NoNullSlotReachable. */
  method PutFirst(t: HashTable<nat, nat>)
    requires t.Valid() && t.capacity == 2 && t.loadFactor == 1.0 && t.size == 0
    requires t.hash(0) == 0 && t.elements[..] == [None, None]
    modifies t, t.elements
    ensures t.Valid() && t.capacity == 2 && t.loadFactor == 1.0 && t.size == 1
    ensures t.elements == old(t.elements)
    ensures t.elements[..] == [Some(Entry(0, 10, false)), None]
  {
    ghost var s0 := t.elements[..];
    assert s0[0] == None && Home(t.hash, 0, 2) == 0;
    var _ := t.Put(0, 10);
    assert t.size == 1 && !AtThreshold(t.loadFactor, 2, t.size);
    ghost var p: nat :| InsertionPoint(s0, Home(t.hash, 0, 2), p) && t.elements[..] == s0[p := Some(Entry(0, 10, false))];
    InsertionPointAtHome(s0, 0, p);
  }

  /** remove(0) in NoNullSlotReachable: the first slot becomes a tombstone. */
  method RemoveFirst(t: HashTable<nat, nat>)
    requires t.Valid() && t.capacity == 2 && t.size == 1
    requires t.elements[..] == [Some(Entry(0, 10, false)), None]
    modifies t, t.elements
    ensures t.Valid() && t.capacity == 2 && t.size == 0
    ensures t.elements == old(t.elements)
    ensures t.elements[..] == [Some(Entry(0, 10, true)), None]
  {
    assert t.elements[..][1] == None && HoldsKey(t.elements[..], 0, 0);
    var _ := t.Remove(0);
  }

  /** put(1, 11) in NoNullSlotReachable fills the last null slot. */
  method PutSecond(t: HashTable<nat, nat>)
    requires t.Valid() && t.capacity == 2 && t.loadFactor == 1.0 && t.size == 0
    requires t.hash(1) == 1 && t.elements[..] == [Some(Entry(0, 10, true)), None]
    modifies t, t.elements
    ensures t.Valid() && t.capacity == 2 && t.size == 1 && t.Contents == map[1 := 11]
    ensures t.elements[..] == [Some(Entry(0, 10, true)), Some(Entry(1, 11, false))]
    ensures !HasNull(t.elements[..])
  {
    ghost var s0 := t.elements[..];
    assert s0[1] == None && Home(t.hash, 1, 2) == 1;
    assert t.Contents == map[] by {
      assert LiveIndices(s0) == {};
    }
    var _ := t.Put(1, 11);
    assert t.size == 1 && !AtThreshold(t.loadFactor, 2, t.size);
    ghost var p: nat :| InsertionPoint(s0, Home(t.hash, 1, 2), p) && t.elements[..] == s0[p := Some(Entry(1, 11, false))];
    InsertionPointAtHome(s0, 1, p);
  }
}
