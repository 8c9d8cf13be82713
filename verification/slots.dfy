/** The slot array of hash.go seen as a sequence of values, and what
    `_put`, `Get` and `Delete` do to it. A slot is live when its stamp equals
    the table's version; stamp 0 marks a deleted slot (and every slot of a
    freshly allocated array). All three operations share one walk along the
    probe sequence, `Scan`, and differ only in what they do where it stops. */
module Slots {
  import opened Bits
  import opened Probing

  datatype Option<T> = None | Some(value: T)

  /** A key: Go's `Hashable`. `hash` is what its `Hash` method returns,
      and `Equal` is equality of keys, so that equal keys hash alike. */
  datatype Key<T> = Key(id: T, hash: u32)

  /** One array position: cached hash, key, value and stamp. */
  datatype KeyValue<T, V> = KeyValue(hash: u32, key: Key<T>, value: V, version: u32)

  predicate Live<T, V>(kv: KeyValue<T, V>, version: nat)
  {
    kv.version == version
  }

  /** The test `hash == curr.hash && key.Equal(curr.Key)`. */
  predicate Matches<T(==), V>(kv: KeyValue<T, V>, h: nat, key: Key<T>)
  {
    kv.hash == h && kv.key == key
  }

  /** Probe j of the walk for hash h is a live slot holding another key,
      so the walk goes on past it. */
  predicate Passed<T(==), V>(s: seq<KeyValue<T, V>>, version: nat, h: nat, key: Key<T>, j: nat)
  {
    j < |s| && Live(s[Probe(h, |s|, j)], version) && !Matches(s[Probe(h, |s|, j)], h, key)
  }

  /** Where a walk stops: at probe n on a live slot holding the key, at
      probe n on a slot that is not live, or after |s| probes. */
  datatype Stop = Hit(n: nat) | Vacant(n: nat) | Exhausted

  /** The number of probes passed over before the walk stops. */
  function StopAt(r: Stop, len: nat): nat
  {
    if r.Exhausted? then len else r.n
  }

  /** The walk shared by `_put`, `Get` and `Delete`, from probe i on. */
  function Scan<T(==), V>(s: seq<KeyValue<T, V>>, version: nat, h: nat, key: Key<T>, i: nat): (r: Stop)
    ensures !r.Exhausted? ==> i <= r.n < |s|
    ensures r.Hit? ==> Live(s[Probe(h, |s|, r.n)], version) && Matches(s[Probe(h, |s|, r.n)], h, key)
    ensures r.Vacant? ==> !Live(s[Probe(h, |s|, r.n)], version)
    decreases |s| - i
  {
    if i >= |s| then Exhausted
    else
      var p := Probe(h, |s|, i);
      if !Live(s[p], version) then Vacant(i)
      else if Matches(s[p], h, key) then Hit(i)
      else Scan(s, version, h, key, i + 1)
  }

  /** The slot where a walk stopped. */
  function SlotOf<T, V>(s: seq<KeyValue<T, V>>, h: nat, r: Stop): (p: nat)
    requires !r.Exhausted? && r.n < |s|
    ensures p < |s|
  {
    Probe(h, |s|, r.n)
  }

  /** What `Get` returns. */
  function Lookup<T(==), V>(s: seq<KeyValue<T, V>>, version: nat, key: Key<T>): (r: Option<V>)
    ensures r.Some? ==> exists q :: 0 <= q < |s| && Live(s[q], version) && s[q].key == key && s[q].value == r.value
  {
    var stop := Scan(s, version, key.hash, key, 0);
    if stop.Hit? then Some(s[SlotOf(s, key.hash, stop)].value) else None
  }

  /** The slot array after `_put`: the first non-live slot on the walk is
      claimed, or the first live slot holding the key gets the new value, or
      nothing changes when the walk is exhausted. */
  function Store<T(==), V>(s: seq<KeyValue<T, V>>, version: u32, h: u32, key: Key<T>, value: V): (r: seq<KeyValue<T, V>>)
    ensures |r| == |s|
  {
    var stop := Scan(s, version, h, key, 0);
    if stop.Exhausted? then s
    else
      var p := SlotOf(s, h, stop);
      if stop.Hit? then s[p := s[p].(value := value)] else s[p := KeyValue(h, key, value, version)]
  }

  /** A walk that has reached probe i unchanged stops there on a non-live
      slot or on the key: this is the step `_put` takes in place. */
  lemma StoreAt<T, V>(s: seq<KeyValue<T, V>>, version: u32, h: u32, key: Key<T>, value: V, i: nat)
    requires i < |s| && Scan(s, version, h, key, 0) == Scan(s, version, h, key, i)
    ensures var p := Probe(h, |s|, i);
            && (!Live(s[p], version) ==>
                  Scan(s, version, h, key, 0) == Vacant(i) &&
                  Store(s, version, h, key, value) == s[p := KeyValue(h, key, value, version)])
            && (Live(s[p], version) && Matches(s[p], h, key) ==>
                  Scan(s, version, h, key, 0) == Hit(i) &&
                  Store(s, version, h, key, value) == s[p := s[p].(value := value)])
  {
    var p := Probe(h, |s|, i);
    if !Live(s[p], version) {
      assert Scan(s, version, h, key, i) == Vacant(i);
    } else if Matches(s[p], h, key) {
      assert Scan(s, version, h, key, i) == Hit(i);
    }
  }

  /** `_put` changes at most one slot, and a slot it changed now holds the
      stored hash, key and value under the current version. */
  lemma StoreChangesOneSlot<T, V>(s: seq<KeyValue<T, V>>, version: u32, h: u32, key: Key<T>, value: V, q: nat)
    requires q < |s|
    ensures var r := Store(s, version, h, key, value);
            r[q] != s[q] ==>
              && Live(r[q], version) && Matches(r[q], h, key) && r[q].value == value
              && forall q' :: 0 <= q' < |s| && q' != q ==> r[q'] == s[q']
  {
    var stop := Scan(s, version, h, key, 0);
    if !stop.Exhausted? {
      var p := SlotOf(s, h, stop);
      assert Store(s, version, h, key, value)[q] != s[q] ==> q == p;
    }
  }

  /** The slot array after `Delete`: the first live slot holding the key
      gets stamp 0; nothing else changes. */
  function Erase<T(==), V>(s: seq<KeyValue<T, V>>, version: nat, h: nat, key: Key<T>): (r: seq<KeyValue<T, V>>)
    ensures |r| == |s|
  {
    var stop := Scan(s, version, h, key, 0);
    if stop.Hit? then
      var p := SlotOf(s, h, stop);
      s[p := s[p].(version := 0)]
    else s
  }

  /** The step `Delete` takes in place when its walk hits the key at probe i. */
  lemma EraseAt<T, V>(s: seq<KeyValue<T, V>>, version: nat, h: nat, key: Key<T>, i: nat)
    requires i < |s| && Scan(s, version, h, key, 0) == Scan(s, version, h, key, i)
    ensures var p := Probe(h, |s|, i);
            && (Live(s[p], version) && Matches(s[p], h, key) ==>
                  Erase(s, version, h, key) == s[p := s[p].(version := 0)])
            && (!Live(s[p], version) ==> Erase(s, version, h, key) == s)
  {
    var p := Probe(h, |s|, i);
    if !Live(s[p], version) {
      assert Scan(s, version, h, key, i) == Vacant(i);
    } else if Matches(s[p], h, key) {
      assert Scan(s, version, h, key, i) == Hit(i);
    }
  }

  /** The number of live slots. */
  function LiveCount<T, V>(s: seq<KeyValue<T, V>>, version: nat): (n: nat)
    ensures n <= |s|
  {
    if |s| == 0 then 0
    else LiveCount(s[..|s| - 1], version) + (if Live(s[|s| - 1], version) then 1 else 0)
  }

  /** The keys of the live slots, in slot order: what `Keys` (and, as
      written, `Values`) returns. */
  function LiveKeys<T, V>(s: seq<KeyValue<T, V>>, version: nat): (keys: seq<Key<T>>)
    ensures |keys| == LiveCount(s, version)
  {
    if |s| == 0 then []
    else LiveKeys(s[..|s| - 1], version) + (if Live(s[|s| - 1], version) then [s[|s| - 1].key] else [])
  }

  /** The values of the live slots, in slot order: what `Values` is meant
      to return. */
  function LiveValues<T, V>(s: seq<KeyValue<T, V>>, version: nat): (values: seq<V>)
    ensures |values| == LiveCount(s, version)
  {
    if |s| == 0 then []
    else LiveValues(s[..|s| - 1], version) + (if Live(s[|s| - 1], version) then [s[|s| - 1].value] else [])
  }

  /** The value of the last live slot (in slot order) holding key. */
  function LastLive<T(==), V>(s: seq<KeyValue<T, V>>, version: nat, key: Key<T>): Option<V>
  {
    if |s| == 0 then None
    else if Live(s[|s| - 1], version) && s[|s| - 1].key == key then Some(s[|s| - 1].value)
    else LastLive(s[..|s| - 1], version, key)
  }

  /** Every live slot caches the hash of its key. */
  ghost predicate HashesCached<T, V>(s: seq<KeyValue<T, V>>, version: nat)
  {
    forall q :: 0 <= q < |s| && Live(s[q], version) ==> s[q].hash == s[q].key.hash
  }

  /** No slot carries a stamp newer than the table's version. */
  ghost predicate Stamped<T, V>(s: seq<KeyValue<T, V>>, version: nat)
  {
    forall q :: 0 <= q < |s| ==> s[q].version <= version
  }

  /** The slot-array part of the table's invariant: a power-of-two length
      that fits a uint32, current stamps only, cached hashes, and a count
      that bounds the live slots from above. */
  ghost predicate WellFormed<T, V>(s: seq<KeyValue<T, V>>, version: nat, count: nat)
  {
    && IsPow2(|s|) && |s| <= 0x8000_0000
    && version >= 1
    && Stamped(s, version)
    && LiveCount(s, version) <= count <= |s|
    && HashesCached(s, version)
  }

  /** The walk for the key of live slot q stops on q itself. */
  ghost predicate FoundAt<T, V>(s: seq<KeyValue<T, V>>, version: nat, q: nat)
    requires q < |s|
  {
    var stop := Scan(s, version, s[q].hash, s[q].key, 0);
    stop.Hit? && SlotOf(s, s[q].hash, stop) == q
  }

  /** Every live slot is the one `Get` finds for its key: no key is stored
      twice and no entry is hidden behind a non-live slot. */
  ghost predicate Consistent<T, V>(s: seq<KeyValue<T, V>>, version: nat)
  {
    forall q {:trigger FoundAt(s, version, q)} :: 0 <= q < |s| && Live(s[q], version) ==> FoundAt(s, version, q)
  }

  // ---------------------------------------------------------------------
  // The walk

  /** One step of a probe loop: a live slot holding another key is passed. */
  lemma ScanNext<T, V>(s: seq<KeyValue<T, V>>, version: nat, h: nat, key: Key<T>, i: nat)
    requires Passed(s, version, h, key, i)
    ensures Scan(s, version, h, key, i) == Scan(s, version, h, key, i + 1)
  {
  }

  /** Every probe before the one where a walk stops is passed over. */
  lemma {:induction false} ScanPasses<T, V>(s: seq<KeyValue<T, V>>, version: nat, h: nat, key: Key<T>, i: nat)
    ensures forall j :: i <= j < StopAt(Scan(s, version, h, key, i), |s|) ==> Passed(s, version, h, key, j)
    decreases |s| - i
  {
    if Passed(s, version, h, key, i) {
      ScanPasses(s, version, h, key, i + 1);
    }
  }

  /** Walking over probes that are passed does not change where a walk ends. */
  lemma {:induction false} ScanSkips<T, V>(s: seq<KeyValue<T, V>>, version: nat, h: nat, key: Key<T>, i: nat, n: nat)
    requires i <= n <= |s|
    requires forall j :: i <= j < n ==> Passed(s, version, h, key, j)
    ensures Scan(s, version, h, key, i) == Scan(s, version, h, key, n)
    decreases n - i
  {
    if i < n {
      assert Passed(s, version, h, key, i);
      ScanSkips(s, version, h, key, i + 1, n);
    }
  }

  /** A walk that is exhausted has passed only live slots, so (by the
      coverage of the probe sequence) every slot is live. */
  lemma ExhaustedMeansFull<T, V>(s: seq<KeyValue<T, V>>, version: nat, h: nat, key: Key<T>)
    requires IsPow2(|s|)
    requires Scan(s, version, h, key, 0).Exhausted?
    ensures forall q :: 0 <= q < |s| ==> Live(s[q], version)
  {
    ScanPasses(s, version, h, key, 0);
    forall q | 0 <= q < |s|
      ensures Live(s[q], version)
    {
      ProbeCovers(h, |s|, q);
      var j :| 0 <= j < |s| && Probe(h, |s|, j) == q;
      assert Passed(s, version, h, key, j);
    }
  }

  lemma {:induction false} AllLiveCount<T, V>(s: seq<KeyValue<T, V>>, version: nat)
    requires forall q :: 0 <= q < |s| ==> Live(s[q], version)
    ensures LiveCount(s, version) == |s|
  {
    if |s| > 0 {
      AllLiveCount(s[..|s| - 1], version);
    }
  }

  /** With fewer live slots than slots, a walk always finds a place. */
  lemma RoomMeansNotExhausted<T, V>(s: seq<KeyValue<T, V>>, version: nat, h: nat, key: Key<T>)
    requires IsPow2(|s|) && LiveCount(s, version) < |s|
    ensures !Scan(s, version, h, key, 0).Exhausted?
  {
    if Scan(s, version, h, key, 0).Exhausted? {
      ExhaustedMeansFull(s, version, h, key);
      AllLiveCount(s, version);
    }
  }

  /** Replacing one slot changes the live count by the liveness difference. */
  lemma {:induction false} LiveCountUpdate<T, V>(s: seq<KeyValue<T, V>>, version: nat, p: nat, x: KeyValue<T, V>)
    requires p < |s|
    ensures LiveCount(s[p := x], version) + (if Live(s[p], version) then 1 else 0)
         == LiveCount(s, version) + (if Live(x, version) then 1 else 0)
    decreases |s|
  {
    var t := s[p := x];
    if p < |s| - 1 {
      assert t[..|t| - 1] == s[..|s| - 1][p := x];
      LiveCountUpdate(s[..|s| - 1], version, p, x);
    } else {
      assert t[..|t| - 1] == s[..|s| - 1];
    }
  }

  lemma {:induction false} NoneLiveCount<T, V>(s: seq<KeyValue<T, V>>, version: nat)
    requires forall q :: 0 <= q < |s| ==> !Live(s[q], version)
    ensures LiveCount(s, version) == 0
  {
    if |s| > 0 {
      NoneLiveCount(s[..|s| - 1], version);
    }
  }

  /** A key that no live slot holds is not found. */
  lemma AbsentNotFound<T, V>(s: seq<KeyValue<T, V>>, version: nat, key: Key<T>)
    requires forall q :: 0 <= q < |s| && Live(s[q], version) ==> s[q].key != key
    ensures Lookup(s, version, key) == None
  {
  }

  /** An array in which every stamp is older than the version has no live
      slot: it is well formed with count 0, consistent, and finds nothing. */
  lemma NoneLive<T, V>(s: seq<KeyValue<T, V>>, version: nat)
    requires IsPow2(|s|) && |s| <= 0x8000_0000 && version >= 1
    requires forall q :: 0 <= q < |s| ==> s[q].version < version
    ensures WellFormed(s, version, 0) && Consistent(s, version)
    ensures forall k: Key<T> :: Lookup(s, version, k) == None
  {
    NoneLiveCount(s, version);
    forall k: Key<T>
      ensures Lookup(s, version, k) == None
    {
      AbsentNotFound(s, version, k);
    }
  }

  // ---------------------------------------------------------------------
  // Put

  /** The walk for the stored key now stops, at the same probe, on a live
      slot that holds it. */
  lemma StoreScan<T, V>(s: seq<KeyValue<T, V>>, version: u32, h: u32, key: Key<T>, value: V)
    requires IsPow2(|s|) && !Scan(s, version, h, key, 0).Exhausted?
    ensures var stop := Scan(s, version, h, key, 0);
            Scan(Store(s, version, h, key, value), version, h, key, 0) == Hit(stop.n)
  {
    var stop := Scan(s, version, h, key, 0);
    var t := Store(s, version, h, key, value);
    var p := SlotOf(s, h, stop);
    ScanPasses(s, version, h, key, 0);
    forall j | 0 <= j < stop.n
      ensures Passed(t, version, h, key, j)
    {
      ProbeDistinct(h, |s|, j, stop.n);
      assert Passed(s, version, h, key, j);
    }
    ScanSkips(t, version, h, key, 0, stop.n);
  }

  /** Put then Get: the key is found with the value just stored. */
  lemma StoreThenLookup<T, V>(s: seq<KeyValue<T, V>>, version: u32, key: Key<T>, value: V)
    requires IsPow2(|s|) && !Scan(s, version, key.hash, key, 0).Exhausted?
    ensures Lookup(Store(s, version, key.hash, key, value), version, key) == Some(value)
  {
    StoreScan(s, version, key.hash, key, value);
  }

  /** Storing one key keeps every other key that was found, with its value. */
  lemma StoreKeepsFound<T, V>(s: seq<KeyValue<T, V>>, version: u32, h: u32, key: Key<T>, value: V,
                                  h': nat, key': Key<T>)
    requires IsPow2(|s|) && key' != key
    requires Scan(s, version, h', key', 0).Hit?
    ensures var t := Store(s, version, h, key, value);
            Scan(t, version, h', key', 0) == Scan(s, version, h', key', 0) &&
            (h' == key'.hash ==> Lookup(t, version, key') == Lookup(s, version, key'))
  {
    var t := Store(s, version, h, key, value);
    var found := Scan(s, version, h', key', 0);
    var q := SlotOf(s, h', found);
    var stop := Scan(s, version, h, key, 0);
    if !stop.Exhausted? {
      var p := SlotOf(s, h, stop);
      assert p != q;
      ScanPasses(s, version, h', key', 0);
      forall j | 0 <= j < found.n
        ensures Passed(t, version, h', key', j)
      {
        assert Passed(s, version, h', key', j);
      }
      ScanSkips(t, version, h', key', 0, found.n);
      ScanSkips(s, version, h', key', 0, found.n);
    }
  }

  lemma StoreLiveCount<T, V>(s: seq<KeyValue<T, V>>, version: u32, h: u32, key: Key<T>, value: V)
    ensures LiveCount(Store(s, version, h, key, value), version)
         == LiveCount(s, version) + (if Scan(s, version, h, key, 0).Vacant? then 1 else 0)
  {
    var stop := Scan(s, version, h, key, 0);
    if !stop.Exhausted? {
      var p := SlotOf(s, h, stop);
      if stop.Hit? {
        LiveCountUpdate(s, version, p, s[p].(value := value));
      } else {
        LiveCountUpdate(s, version, p, KeyValue(h, key, value, version));
      }
    }
  }

  /** Put stamps only with the current version, and caches the key's hash. */
  lemma StoreKeepsStamps<T, V>(s: seq<KeyValue<T, V>>, version: u32, h: u32, key: Key<T>, value: V)
    requires Stamped(s, version) && HashesCached(s, version) && h == key.hash
    ensures var t := Store(s, version, h, key, value);
            Stamped(t, version) && HashesCached(t, version)
  {
  }

  /** `_put` keeps the invariant when the count grows with each new slot. */
  lemma StoreWellFormed<T, V>(s: seq<KeyValue<T, V>>, version: u32, count: nat, key: Key<T>, value: V)
    requires WellFormed(s, version, count) && count < |s|
    ensures var grown := Scan(s, version, key.hash, key, 0).Vacant?;
            WellFormed(Store(s, version, key.hash, key, value), version, count + (if grown then 1 else 0))
  {
    StoreKeepsStamps(s, version, key.hash, key, value);
    StoreLiveCount(s, version, key.hash, key, value);
  }

  // ---------------------------------------------------------------------
  // Consistent tables behave as maps

  /** In a consistent table a key is held by at most one live slot. */
  lemma ConsistentUnique<T, V>(s: seq<KeyValue<T, V>>, version: nat, q1: nat, q2: nat)
    requires Consistent(s, version) && HashesCached(s, version)
    requires q1 < |s| && q2 < |s| && Live(s[q1], version) && Live(s[q2], version)
    requires s[q1].key == s[q2].key
    ensures q1 == q2
  {
    assert FoundAt(s, version, q1) && FoundAt(s, version, q2);
  }

  /** In a consistent table `Get` finds every live slot's key and value. */
  lemma ConsistentFinds<T, V>(s: seq<KeyValue<T, V>>, version: nat, q: nat)
    requires Consistent(s, version) && HashesCached(s, version)
    requires q < |s| && Live(s[q], version)
    ensures Lookup(s, version, s[q].key) == Some(s[q].value)
  {
    assert FoundAt(s, version, q);
  }

  /** Storing into a consistent table keeps it consistent. */
  lemma StoreKeepsConsistent<T, V>(s: seq<KeyValue<T, V>>, version: u32, key: Key<T>, value: V)
    requires IsPow2(|s|) && LiveCount(s, version) < |s|
    requires Consistent(s, version) && HashesCached(s, version)
    ensures Consistent(Store(s, version, key.hash, key, value), version)
  {
    var h := key.hash;
    var t := Store(s, version, h, key, value);
    RoomMeansNotExhausted(s, version, h, key);
    var stop := Scan(s, version, h, key, 0);
    var p := SlotOf(s, h, stop);
    StoreScan(s, version, h, key, value);
    forall q | 0 <= q < |t| && Live(t[q], version)
      ensures FoundAt(t, version, q)
    {
      if q != p {
        assert t[q] == s[q] && FoundAt(s, version, q);
        if s[q].key == key {
          assert false;
        }
        StoreKeepsFound(s, version, h, key, value, s[q].hash, s[q].key);
      }
    }
  }

  /** On a consistent table, Store acts on lookups like a map update. */
  lemma StoreUpdates<T, V>(s: seq<KeyValue<T, V>>, version: u32, key: Key<T>, value: V)
    requires IsPow2(|s|) && LiveCount(s, version) < |s|
    requires Consistent(s, version) && HashesCached(s, version)
    ensures var t := Store(s, version, key.hash, key, value);
            forall k: Key<T> :: Lookup(t, version, k) == if k == key then Some(value) else Lookup(s, version, k)
  {
    var h := key.hash;
    var t := Store(s, version, h, key, value);
    RoomMeansNotExhausted(s, version, h, key);
    forall k: Key<T>
      ensures Lookup(t, version, k) == if k == key then Some(value) else Lookup(s, version, k)
    {
      if k == key {
        StoreThenLookup(s, version, key, value);
      } else if Scan(s, version, k.hash, k, 0).Hit? {
        StoreKeepsFound(s, version, h, key, value, k.hash, k);
      } else {
        forall q | 0 <= q < |s| && Live(s[q], version)
          ensures s[q].key != k
        {
          ConsistentFinds(s, version, q);
        }
        AbsentNotFound(s, version, k);
        AbsentNotFound(t, version, k);
      }
    }
  }

  /** LastLive is the value of the only live slot with the key. */
  lemma {:induction false} LastLiveOnly<T, V>(s: seq<KeyValue<T, V>>, version: nat, key: Key<T>, q: nat)
    requires q < |s| && Live(s[q], version) && s[q].key == key
    requires forall q' :: 0 <= q' < |s| && Live(s[q'], version) && s[q'].key == key ==> q' == q
    ensures LastLive(s, version, key) == Some(s[q].value)
  {
    if q < |s| - 1 {
      LastLiveOnly(s[..|s| - 1], version, key, q);
    }
  }

  lemma {:induction false} LastLiveNone<T, V>(s: seq<KeyValue<T, V>>, version: nat, key: Key<T>)
    requires forall q :: 0 <= q < |s| && Live(s[q], version) ==> s[q].key != key
    ensures LastLive(s, version, key) == None
  {
    if |s| > 0 {
      LastLiveNone(s[..|s| - 1], version, key);
    }
  }

  /** Extending a prefix of the old array by one slot. */
  lemma PrefixStep<T, V>(s: seq<KeyValue<T, V>>, version: nat, j: nat)
    requires j < |s|
    ensures LiveCount(s[..j + 1], version) == LiveCount(s[..j], version) + (if Live(s[j], version) then 1 else 0)
    ensures forall k :: LastLive(s[..j + 1], version, k)
                     == if Live(s[j], version) && s[j].key == k then Some(s[j].value) else LastLive(s[..j], version, k)
  {
    var prefix := s[..j + 1];
    assert prefix[..j] == s[..j] && prefix[j] == s[j];
    forall k
      ensures LastLive(prefix, version, k)
           == if Live(s[j], version) && s[j].key == k then Some(s[j].value) else LastLive(s[..j], version, k)
    {
    }
  }

  /** What `grow` keeps while re-inserting: after the first j old slots,
      the new array is consistent, holds no more live slots than that prefix,
      and maps every key to its last live value in the prefix. */
  ghost predicate Rehashed<T(!new), V>(t: seq<KeyValue<T, V>>, olds: seq<KeyValue<T, V>>, version: nat, j: nat)
  {
    && j <= |olds|
    && Consistent(t, version)
    && LiveCount(t, version) <= LiveCount(olds[..j], version)
    && forall k: Key<T> :: Lookup(t, version, k) == LastLive(olds[..j], version, k)
  }

  /** One iteration of `grow`: re-inserting old slot j (when live) extends
      the prefix that the new array reflects by one. */
  lemma RehashStep<T(!new), V>(olds: seq<KeyValue<T, V>>, t: seq<KeyValue<T, V>>, t': seq<KeyValue<T, V>>,
                         version: u32, j: nat)
    requires j < |olds| < |t| && IsPow2(|t|) && HashesCached(t, version)
    requires Rehashed(t, olds, version, j)
    requires t' == if Live(olds[j], version) then Store(t, version, olds[j].key.hash, olds[j].key, olds[j].value) else t
    ensures Rehashed(t', olds, version, j + 1)
  {
    var kv := olds[j];
    PrefixStep(olds, version, j);
    if Live(kv, version) {
      StoreKeepsConsistent(t, version, kv.key, kv.value);
      StoreUpdates(t, version, kv.key, kv.value);
      StoreLiveCount(t, version, kv.key.hash, kv.key, kv.value);
    }
  }

  /** In a consistent table `Get` returns the value of the last (indeed
      the only) live slot holding the key. */
  lemma ConsistentLastLive<T, V>(s: seq<KeyValue<T, V>>, version: nat, key: Key<T>)
    requires Consistent(s, version) && HashesCached(s, version)
    ensures Lookup(s, version, key) == LastLive(s, version, key)
  {
    if q :| 0 <= q < |s| && Live(s[q], version) && s[q].key == key {
      forall q' | 0 <= q' < |s| && Live(s[q'], version) && s[q'].key == key
        ensures q' == q
      {
        ConsistentUnique(s, version, q, q');
      }
      LastLiveOnly(s, version, key, q);
      ConsistentFinds(s, version, q);
    } else {
      LastLiveNone(s, version, key);
      AbsentNotFound(s, version, key);
    }
  }

  // ---------------------------------------------------------------------
  // Delete

  /** `Delete` changes at most one slot, a live one holding the key, and
      only its stamp, which becomes 0. */
  lemma EraseOnlyStamps<T, V>(s: seq<KeyValue<T, V>>, version: nat, h: nat, key: Key<T>, q: nat)
    requires q < |s|
    ensures var r := Erase(s, version, h, key);
            r[q] != s[q] ==>
              && Live(s[q], version) && Matches(s[q], h, key) && r[q] == s[q].(version := 0)
              && forall q' :: 0 <= q' < |s| && q' != q ==> r[q'] == s[q']
  {
    var stop := Scan(s, version, h, key, 0);
    if stop.Hit? {
      var p := SlotOf(s, h, stop);
      assert Erase(s, version, h, key)[q] != s[q] ==> q == p;
    }
  }

  /** After Delete the walk for the key no longer hits. */
  lemma EraseScan<T, V>(s: seq<KeyValue<T, V>>, version: nat, h: nat, key: Key<T>)
    requires IsPow2(|s|) && version >= 1
    ensures !Scan(Erase(s, version, h, key), version, h, key, 0).Hit?
  {
    var stop := Scan(s, version, h, key, 0);
    if stop.Hit? {
      var t := Erase(s, version, h, key);
      ScanPasses(s, version, h, key, 0);
      forall j | 0 <= j < stop.n
        ensures Passed(t, version, h, key, j)
      {
        ProbeDistinct(h, |s|, j, stop.n);
        assert Passed(s, version, h, key, j);
      }
      ScanSkips(t, version, h, key, 0, stop.n);
    }
  }

  /** Delete then Get: the key is not found. */
  lemma EraseThenLookup<T, V>(s: seq<KeyValue<T, V>>, version: nat, key: Key<T>)
    requires IsPow2(|s|) && version >= 1
    ensures Lookup(Erase(s, version, key.hash, key), version, key) == None
  {
    EraseScan(s, version, key.hash, key);
  }

  /** Deleting twice is deleting once. */
  lemma EraseIdempotent<T, V>(s: seq<KeyValue<T, V>>, version: nat, h: nat, key: Key<T>)
    requires IsPow2(|s|) && version >= 1
    ensures Erase(Erase(s, version, h, key), version, h, key) == Erase(s, version, h, key)
  {
    EraseScan(s, version, h, key);
  }

  lemma EraseLiveCount<T, V>(s: seq<KeyValue<T, V>>, version: nat, h: nat, key: Key<T>)
    requires version >= 1
    ensures LiveCount(Erase(s, version, h, key), version)
         == LiveCount(s, version) - (if Scan(s, version, h, key, 0).Hit? then 1 else 0)
  {
    var stop := Scan(s, version, h, key, 0);
    if stop.Hit? {
      var p := SlotOf(s, h, stop);
      LiveCountUpdate(s, version, p, s[p].(version := 0));
    }
  }

  /** Delete only clears a stamp, so the stamps and cached hashes stay good. */
  lemma EraseKeepsStamps<T, V>(s: seq<KeyValue<T, V>>, version: nat, h: nat, key: Key<T>)
    requires Stamped(s, version) && HashesCached(s, version)
    ensures var t := Erase(s, version, h, key);
            Stamped(t, version) && HashesCached(t, version)
  {
  }

  /** `Delete` keeps the invariant without touching the count. */
  lemma EraseWellFormed<T, V>(s: seq<KeyValue<T, V>>, version: nat, count: nat, key: Key<T>)
    requires WellFormed(s, version, count)
    ensures WellFormed(Erase(s, version, key.hash, key), version, count)
  {
    EraseLiveCount(s, version, key.hash, key);
    EraseKeepsStamps(s, version, key.hash, key);
  }

  /** Delete leaves a hole in a probe chain. Two keys a and b share the
      hash h; a sits on the first slot of the walk for h and b, pushed along
      the chain, on the second. Get finds b; but after a is deleted the walk
      for b stops at a's emptied slot, so Get no longer finds b although b's
      slot is untouched and still live, and the table is no longer
      consistent. */
  lemma EraseHidesLaterKey<T, V>(s: seq<KeyValue<T, V>>, version: nat, h: u32, a: Key<T>, b: Key<T>)
    requires IsPow2(|s|) && |s| >= 2 && version >= 1 && a != b && a.hash == b.hash == h
    requires var first := s[Probe(h, |s|, 0)];
             Live(first, version) && first.hash == h && first.key == a
    requires var second := s[Probe(h, |s|, 1)];
             Live(second, version) && second.hash == h && second.key == b
    ensures Lookup(s, version, b) == Some(s[Probe(h, |s|, 1)].value)
    ensures var t := Erase(s, version, h, a);
            && t[Probe(h, |s|, 1)] == s[Probe(h, |s|, 1)]
            && Lookup(t, version, b) == None && !Consistent(t, version)
  {
    var p0, p1 := Probe(h, |s|, 0), Probe(h, |s|, 1);
    ProbeDistinct(h, |s|, 0, 1);
    assert Scan(s, version, h, a, 0) == Hit(0);
    assert Scan(s, version, h, b, 1) == Hit(1);
    ScanNext(s, version, h, b, 0);
    var t := Erase(s, version, h, a);
    assert t == s[p0 := s[p0].(version := 0)];
    assert Scan(t, version, h, b, 0) == Vacant(0);
    assert !FoundAt(t, version, p1);
  }

  /** The other half of the hole: in the same situation, a later `_put` of
      b walks to a's emptied slot, claims it, and b is then held by two live
      slots, so the table is no longer consistent. */
  lemma EraseThenStoreDuplicates<T, V>(s: seq<KeyValue<T, V>>, version: u32, h: u32, a: Key<T>, b: Key<T>, v: V)
    requires IsPow2(|s|) && |s| >= 2 && version >= 1 && a != b && a.hash == b.hash == h
    requires var first := s[Probe(h, |s|, 0)];
             Live(first, version) && first.hash == h && first.key == a
    requires var second := s[Probe(h, |s|, 1)];
             Live(second, version) && second.hash == h && second.key == b
    ensures var t := Store(Erase(s, version, h, a), version, h, b, v);
            var p0, p1 := Probe(h, |s|, 0), Probe(h, |s|, 1);
            && p0 != p1
            && t[p0] == KeyValue(h, b, v, version)
            && t[p1] == s[p1] && Live(t[p1], version) && t[p1].key == b
            && !Consistent(t, version)
  {
    var p0, p1 := Probe(h, |s|, 0), Probe(h, |s|, 1);
    EraseHidesLaterKey(s, version, h, a, b);
    ProbeDistinct(h, |s|, 0, 1);
    var e := Erase(s, version, h, a);
    assert Scan(e, version, h, b, 0) == Vacant(0);
    var t := Store(e, version, h, b, v);
    assert t == e[p0 := KeyValue(h, b, v, version)];
    assert Scan(t, version, h, b, 0) == Hit(0);
    assert !FoundAt(t, version, p1);
  }

  // ---------------------------------------------------------------------
  // Keys

  /** The keys listed are exactly the keys of live slots. */
  lemma {:induction false} LiveKeysHeld<T, V>(s: seq<KeyValue<T, V>>, version: nat, key: Key<T>)
    ensures key in LiveKeys(s, version) <==> exists q :: 0 <= q < |s| && Live(s[q], version) && s[q].key == key
  {
    if |s| > 0 {
      var init := s[..|s| - 1];
      LiveKeysHeld(init, version, key);
      if exists q :: 0 <= q < |init| && Live(init[q], version) && init[q].key == key {
        var q :| 0 <= q < |init| && Live(init[q], version) && init[q].key == key;
        assert s[q] == init[q];
      }
    }
  }

  /** The values listed are exactly the values of live slots. */
  lemma {:induction false} LiveValuesHeld<T, V>(s: seq<KeyValue<T, V>>, version: nat, value: V)
    ensures value in LiveValues(s, version) <==> exists q :: 0 <= q < |s| && Live(s[q], version) && s[q].value == value
  {
    if |s| > 0 {
      var init := s[..|s| - 1];
      LiveValuesHeld(init, version, value);
      if exists q :: 0 <= q < |init| && Live(init[q], version) && init[q].value == value {
        var q :| 0 <= q < |init| && Live(init[q], version) && init[q].value == value;
        assert s[q] == init[q];
      }
    }
  }

  /** `Values` as written collects keys: in a table whose one live slot maps
      key Key(1, 1) to the value Key(2, 2), it lists Key(1, 1) and never the
      stored value. */
  lemma ValuesListsKeys()
    ensures var s := [KeyValue(1, Key(1, 1), Key(2, 2), 1)];
            && LiveKeys(s, 1) == [Key(1, 1)]
            && Key(2, 2) !in LiveKeys(s, 1)
            && LiveValues(s, 1) == [Key(2, 2)]
  {
    var s := [KeyValue(1, Key(1, 1), Key(2, 2), 1)];
    assert s[..0] == [];
  }
}
