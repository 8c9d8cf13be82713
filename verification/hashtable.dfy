/** hash.go: a power-of-two open-addressing hash table whose slots carry a
    version stamp, so that clearing the table only bumps the table's
    version. The slot array is updated in place; what each operation does to
    it is stated with the functions of module Slots. */
module VersionedHash {
  import opened Bits
  import opened Probing
  import opened Slots

  /** HASH_INITIAL_SIZE */
  const InitialSize: u32 := 32

  /** The load-factor test `float32(count) / float32(capacity) > 0.60` of
      `Put`, over the integers. Below the threshold there is a free slot;
      above it, doubling the capacity brings the load to at most 0.6. */
  predicate Grows(count: nat, capacity: nat): (r: bool)
    ensures !r && capacity >= 1 ==> count < capacity
    ensures r && count <= capacity ==> 5 * count <= 3 * (2 * capacity)
  {
    5 * count > 3 * capacity
  }

  /** `make([]KeyValue, n)`: n zeroed slots, none of them live. */
  method MakeSlots<T(0), V(0)>(n: nat) returns (a: array<KeyValue<T, V>>)
    ensures fresh(a) && a.Length == n
    ensures forall i :: 0 <= i < n ==> a[i].hash == 0 && a[i].version == 0
  {
    a := new KeyValue<T, V>[n];
    forall i | 0 <= i < n {
      a[i] := a[i].(hash := 0, version := 0);
    }
  }

  /** The table, for keys of type Key<T>. */
  class HashTable<T(==, 0, !new), V(0)> {
    var version: u32
    var elements: array<KeyValue<T, V>>
    var capacity: u32
    var count: u32

    /** The invariant every operation keeps. `count` may exceed the number of
        live slots, because `Delete` leaves it alone. */
    ghost predicate Valid()
      reads this, elements
    {
      && elements.Length == capacity
      && WellFormed(elements[..], version, count)
    }

    /** What `Get(key)` reports. */
    ghost function Find(key: Key<T>): Option<V>
      reads this, elements
    {
      Lookup(elements[..], version, key)
    }

    /** NewHashTable */
    constructor ()
      ensures Valid() && Consistent(elements[..], version)
      ensures version == 1 && count == 0 && capacity == 32 && elements.Length == 32
      ensures forall i :: 0 <= i < elements.Length ==> elements[i].version == 0
      ensures fresh(elements)
    {
      var slots := MakeSlots(InitialSize);
      version := 1;
      elements := slots;
      capacity := InitialSize;
      count := 0;
      new;
      NoneLive(elements[..], version);
    }

    /** `_put`: walk the probe sequence; claim the first non-live slot, or
        overwrite the value of the first live slot holding the key. When
        neither happens within `capacity` probes the source only logs an
        error, and the table is left as it was. */
    method Insert(key: Key<T>, value: V)
      requires Valid() && count < capacity
      modifies this`count, elements
      ensures Valid()
      ensures elements[..] == Store(old(elements[..]), version, key.hash, key, value)
      ensures count == old(count) + (if Scan(old(elements[..]), version, key.hash, key, 0).Vacant? then 1 else 0)
    {
      var h := key.hash;
      var cap, ver := capacity, version;
      var probe := Mask(h, cap);
      var step := 1;
      var i := 0;
      ghost var s := elements[..];
      assert |s| == cap;
      StoreWellFormed(s, ver, count, key, value);
      while i < cap
        invariant i <= cap
        invariant probe == Probe(h, cap, i) && step == i + 1
        invariant Scan(s, ver, h, key, 0) == Scan(s, ver, h, key, i)
        invariant elements[..] == s && count == old(count)
      {
        var curr := elements[probe];
        StoreAt(s, ver, h, key, value, i);
        if curr.version != ver {
          elements[probe] := KeyValue(h, key, value, ver);
          count := count + 1;
          assert elements[..] == s[probe := KeyValue(h, key, value, ver)] == Store(s, ver, h, key, value);
          return;
        } else if h == curr.hash && key == curr.key {
          elements[probe] := curr.(value := value);
          assert elements[..] == s[probe := s[probe].(value := value)] == Store(s, ver, h, key, value);
          return;
        }
        ScanNext(s, ver, h, key, i);
        ProbeNext(h, cap, i, probe, step);
        probe := Mask(probe + step, cap);
        step := step + 1;
        i := i + 1;
      }
    }

    /** `Put`: grow first when the load factor is above 0.60, then `_put`.
        The insert always finds a slot, and `Get(key)` then returns value. */
    method Put(key: Key<T>, value: V)
      requires Valid()
      requires Grows(count, capacity) ==> 2 * capacity <= 0x8000_0000
      modifies this, elements
      ensures Valid() && version == old(version)
      ensures elements == old(elements) || fresh(elements)
      ensures capacity == if Grows(old(count), old(capacity)) then 2 * old(capacity) else old(capacity)
      ensures Find(key) == Some(value)
      ensures !Grows(old(count), old(capacity)) ==>
                && elements == old(elements)
                && elements[..] == Store(old(elements[..]), version, key.hash, key, value)
                && count == old(count) + (if old(Find(key)).None? then 1 else 0)
      ensures Grows(old(count), old(capacity)) ==>
                && count == LiveCount(elements[..], version)
                && Consistent(elements[..], version)
                && forall k: Key<T> :: k != key ==> Find(k) == LastLive(old(elements[..]), version, k)
      ensures old(Consistent(elements[..], version)) ==>
                && Consistent(elements[..], version)
                && forall k: Key<T> :: k != key ==> Find(k) == Lookup(old(elements[..]), version, k)
    {
      ghost var before := elements[..];
      ghost var wasConsistent := Consistent(before, version);
      if 5 * count > 3 * capacity {
        Grow();
      }
      ghost var s := elements[..];
      RoomMeansNotExhausted(s, version, key.hash, key);
      StoreThenLookup(s, version, key, value);
      StoreLiveCount(s, version, key.hash, key, value);
      if Consistent(s, version) {
        StoreKeepsConsistent(s, version, key, value);
        StoreUpdates(s, version, key, value);
      }
      if wasConsistent {
        forall k: Key<T> | k != key
          ensures Lookup(s, version, k) == Lookup(before, version, k)
        {
          if s != before {
            ConsistentLastLive(before, version, k);
          }
        }
      }
      Insert(key, value);
    }

    /** `grow`: double the capacity, allocate a fresh array and re-insert
        the live slots in slot order; `count` is rebuilt by the inserts. The
        result is consistent, and each key maps to the value of its last
        live slot in the old array. */
    method Grow()
      requires Valid() && 2 * capacity <= 0x8000_0000
      modifies this
      ensures Valid() && fresh(elements)
      ensures version == old(version) && capacity == 2 * old(capacity)
      ensures count == LiveCount(elements[..], version) <= LiveCount(old(elements[..]), version)
      ensures Consistent(elements[..], version)
      ensures forall k: Key<T> :: Find(k) == LastLive(old(elements[..]), version, k)
    {
      var nextPow2 := capacity * 2;
      var oldV := version;
      var oldE := elements;
      ghost var olds := elements[..];
      Pow2Double(capacity as nat);
      capacity := nextPow2;
      elements := MakeSlots(nextPow2);
      count := 0;
      NoneLive(elements[..], oldV);
      var j := 0;
      while j < oldE.Length
        invariant j <= oldE.Length && oldE[..] == olds
        invariant fresh(elements) && capacity == nextPow2 && version == oldV
        invariant Valid()
        invariant count == LiveCount(elements[..], oldV) && Rehashed(elements[..], olds, oldV, j)
      {
        Reinsert(oldE[j], olds, j);
        j := j + 1;
      }
      assert olds[..oldE.Length] == olds;
    }

    /** The body of `grow`'s loop: old slot j is put again when it is live.
        The new array then reflects one more slot of the old one. */
    method Reinsert(kv: KeyValue<T, V>, ghost olds: seq<KeyValue<T, V>>, ghost j: nat)
      requires Valid() && count == LiveCount(elements[..], version)
      requires j < |olds| < capacity && kv == olds[j] && Rehashed(elements[..], olds, version, j)
      modifies this`count, elements
      ensures Valid() && count == LiveCount(elements[..], version)
      ensures Rehashed(elements[..], olds, version, j + 1)
    {
      ghost var s := elements[..];
      if kv.version == version {
        StoreLiveCount(s, version, kv.key.hash, kv.key, kv.value);
        Insert(kv.key, kv.value);
      }
      RehashStep(olds, s, elements[..], version, j);
    }

    /** `Get`: the same walk; stop at the first non-live slot. The pair
        (value, ok) of the source is returned as Some(value) or None. */
    method Get(key: Key<T>) returns (r: Option<V>)
      requires Valid()
      ensures r == Find(key)
    {
      var h := key.hash;
      var cap, ver := capacity, version;
      var step := 1;
      var probe := Mask(h, cap);
      var i := 0;
      ghost var s := elements[..];
      assert |s| == cap;
      r := None;
      while i < cap
        invariant i <= cap
        invariant probe == Probe(h, cap, i) && step == i + 1
        invariant Scan(s, ver, h, key, 0) == Scan(s, ver, h, key, i)
        invariant r == None
      {
        var curr := elements[probe];
        if ver == curr.version && curr.hash == h {
          if key == curr.key {
            r := Some(curr.value);
            break;
          }
        } else if ver != curr.version {
          break;
        }
        ScanNext(s, ver, h, key, i);
        ProbeNext(h, cap, i, probe, step);
        probe := Mask(probe + step, cap);
        step := step + 1;
        i := i + 1;
      }
    }

    /** `Delete`: the same walk; the first live slot holding the key gets
        stamp 0. `count` is not decremented. */
    method Delete(key: Key<T>)
      requires Valid()
      modifies elements
      ensures Valid() && count == old(count)
      ensures elements[..] == Erase(old(elements[..]), version, key.hash, key)
      ensures Find(key) == None
    {
      var h := key.hash;
      var cap, ver := capacity, version;
      var probe := Mask(h, cap);
      var step := 1;
      var i := 0;
      ghost var s := elements[..];
      assert |s| == cap;
      EraseWellFormed(s, ver, count, key);
      EraseThenLookup(s, ver, key);
      while i < cap
        invariant i <= cap
        invariant probe == Probe(h, cap, i) && step == i + 1
        invariant Scan(s, ver, h, key, 0) == Scan(s, ver, h, key, i)
        invariant elements[..] == s
      {
        var curr := elements[probe];
        if ver == curr.version && curr.hash == h {
          if key == curr.key {
            EraseAt(s, ver, h, key, i);
            elements[probe] := curr.(version := 0);
            assert elements[..] == s[probe := s[probe].(version := 0)];
            return;
          }
        } else if ver != curr.version {
          EraseAt(s, ver, h, key, i);
          return;
        }
        ScanNext(s, ver, h, key, i);
        ProbeNext(h, cap, i, probe, step);
        probe := Mask(probe + step, cap);
        step := step + 1;
        i := i + 1;
      }
    }

    /** `Keys`: the keys of the live slots in slot order. */
    method Keys() returns (keys: seq<Key<T>>)
      ensures keys == LiveKeys(elements[..], version)
    {
      keys := [];
      var i := 0;
      while i < elements.Length
        invariant i <= elements.Length
        invariant keys == LiveKeys(elements[..i], version)
      {
        assert elements[..i + 1][..i] == elements[..i];
        if version == elements[i].version {
          keys := keys + [elements[i].key];
        }
        i := i + 1;
      }
      assert elements[..elements.Length] == elements[..];
    }

    /** `Values` as written: the loop of `Keys` again, so it collects the
        keys of the live slots, not their values. */
    method ValuesAsWritten() returns (values: seq<Key<T>>)
      ensures values == LiveKeys(elements[..], version)
    {
      values := [];
      var i := 0;
      while i < elements.Length
        invariant i <= elements.Length
        invariant values == LiveKeys(elements[..i], version)
      {
        assert elements[..i + 1][..i] == elements[..i];
        if version == elements[i].version {
          values := values + [elements[i].key];
        }
        i := i + 1;
      }
      assert elements[..elements.Length] == elements[..];
    }

    /** `Values` as intended: the values of the live slots in slot order. */
    method Values() returns (values: seq<V>)
      ensures values == LiveValues(elements[..], version)
    {
      values := [];
      var i := 0;
      while i < elements.Length
        invariant i <= elements.Length
        invariant values == LiveValues(elements[..i], version)
      {
        assert elements[..i + 1][..i] == elements[..i];
        if version == elements[i].version {
          values := values + [elements[i].value];
        }
        i := i + 1;
      }
      assert elements[..elements.Length] == elements[..];
    }

    /** `Len`: the count, which bounds the live entries from above. */
    function Len(): (n: int)
      reads this, elements
      requires Valid()
      ensures LiveCount(elements[..], version) <= n <= elements.Length
    {
      count as int
    }

    /** `Cap`: the length of the slot array, a power of two. */
    function Cap(): (n: int)
      reads this, elements
      requires Valid()
      ensures n == elements.Length && IsPow2(n)
    {
      capacity as int
    }

    /** `Clear`: bump the version; no slot is touched, and none is live. */
    method Clear()
      requires Valid() && version < 0xFFFF_FFFF
      modifies this
      ensures Valid() && elements == old(elements) && elements[..] == old(elements[..])
      ensures version == old(version) + 1 && count == 0 && capacity == old(capacity)
      ensures Consistent(elements[..], version)
      ensures forall k: Key<T> :: Find(k) == None
    {
      version := version + 1;
      count := 0;
      NoneLive(elements[..], version);
    }

    /** `Truncate`: shrink to the least power of two covering newSize with a
        fresh array and version 1, or else clear. */
    method Truncate(newSize: u32)
      requires Valid() && 1 <= newSize <= 0x8000_0000
      requires capacity <= NextPow2(newSize) ==> version < 0xFFFF_FFFF
      modifies this
      ensures Valid() && count == 0 && Consistent(elements[..], version)
      ensures forall k: Key<T> :: Find(k) == None
      ensures old(capacity) > NextPow2(newSize) ==>
                && fresh(elements) && capacity == NextPow2(newSize) && version == 1
                && forall i :: 0 <= i < elements.Length ==> elements[i].version == 0
      ensures old(capacity) <= NextPow2(newSize) ==>
                && elements == old(elements) && elements[..] == old(elements[..])
                && capacity == old(capacity) && version == old(version) + 1
    {
      var nextPow2 := NextPow2(newSize as nat);
      if capacity > nextPow2 {
        elements := MakeSlots(nextPow2);
        capacity := nextPow2;
        count := 0;
        version := 1;
        NoneLive(elements[..], version);
      } else {
        Clear();
      }
    }
  }

  /** Twenty distinct puts into a new table fit without growing; the
      twenty-first finds the load factor at 20/32 > 0.60 and doubles. */
  method LoadFactorScenario() returns (lenAt20: int, capAt20: int, capAt21: int)
    ensures lenAt20 == 20 && capAt20 == 32 && capAt21 == 64
  {
    var t := new HashTable<u32, u32>();
    var i: u32 := 0;
    while i < 20
      invariant i <= 20
      invariant fresh(t) && fresh(t.elements)
      invariant t.Valid() && Consistent(t.elements[..], t.version)
      invariant t.count == i && t.capacity == 32
      invariant forall k: Key<u32> {:trigger Lookup(t.elements[..], t.version, k)} ::
                  i <= k.id ==> Lookup(t.elements[..], t.version, k) == None
    {
      t.Put(Key(i, i), i);
      forall k: Key<u32> | i + 1 <= k.id
        ensures Lookup(t.elements[..], t.version, k) == None
      {
        assert t.Find(k) == Lookup(t.elements[..], t.version, k);
      }
      i := i + 1;
    }
    lenAt20 := t.Len();
    capAt20 := t.Cap();
    t.Put(Key(20, 20), 20);
    capAt21 := t.Cap();
  }
}
