/** Open addressing with linear probing and tombstones, the scheme shared by the map and the intern
    table of src/object.c, on tables as values.

    The capacities of both tables are powers of two, so the mask `hash & (capacity - 1)` is the
    remainder. */
module Probing {

  /** NULL, the tombstone sentinel, or an entry. */
  datatype Slot<K, V> = Empty | Deleted | Live(key: K, value: V)

  /** The slot reached from slot `home` after `d` steps, wrapping around once. */
  function At(home: nat, d: nat, n: nat): (i: nat)
    requires home < n && d <= n
    ensures i < n
  {
    if home + d < n then home + d else home + d - n
  }

  /** How many steps from `home` reach slot `i`. */
  function Dist(home: nat, i: nat, n: nat): (d: nat)
    requires home < n && i < n
    ensures d < n && At(home, d, n) == i
  {
    if home <= i then i - home else i + n - home
  }

  function Home<K>(hash: K -> nat, key: K, n: nat): (i: nat)
    requires n > 0
    ensures i < n
  {
    hash(key) % n
  }

  /** Nothing on the probe path of `key` is empty before step `d`. */
  ghost predicate Unbroken<K, V>(slots: seq<Slot<K, V>>, hash: K -> nat, key: K, d: nat)
    requires |slots| > 0 && d <= |slots|
  {
    forall j :: 0 <= j < d ==> !slots[At(Home(hash, key, |slots|), j, |slots|)].Empty?
  }

  /** Every entry is reached by probing from its home before any empty slot. */
  ghost predicate WellPlaced<K, V>(slots: seq<Slot<K, V>>, hash: K -> nat) {
    forall i :: 0 <= i < |slots| && slots[i].Live? ==>
      Unbroken(slots, hash, slots[i].key, Dist(Home(hash, slots[i].key, |slots|), i, |slots|))
  }

  ghost predicate UniqueKeys<K, V>(slots: seq<Slot<K, V>>) {
    forall i, j :: 0 <= i < j < |slots| && slots[i].Live? && slots[j].Live? ==> slots[i].key != slots[j].key
  }

  /** The entries of the table are exactly the finite map `m`. */
  ghost predicate Represents<K, V>(slots: seq<Slot<K, V>>, m: map<K, V>) {
    && (forall i :: 0 <= i < |slots| && slots[i].Live? ==> slots[i].key in m && m[slots[i].key] == slots[i].value)
    && (forall k :: k in m ==> Holds(slots, k))
  }

  ghost predicate Holds<K, V>(slots: seq<Slot<K, V>>, key: K) {
    exists i :: 0 <= i < |slots| && slots[i].Live? && slots[i].key == key
  }

  ghost predicate TableOk<K(!new), V>(slots: seq<Slot<K, V>>, hash: K -> nat, m: map<K, V>) {
    WellPlaced(slots, hash) && UniqueKeys(slots) && Represents(slots, m)
  }

  ghost predicate HasEmpty<K, V>(slots: seq<Slot<K, V>>) {
    exists i :: 0 <= i < |slots| && slots[i].Empty?
  }

  ghost predicate NoTombstones<K, V>(slots: seq<Slot<K, V>>) {
    forall i :: 0 <= i < |slots| ==> !slots[i].Deleted?
  }

  // ---- Counting ----

  ghost function CountLive<K, V>(slots: seq<Slot<K, V>>): (c: nat)
    ensures c <= |slots|
  {
    if slots == [] then 0
    else CountLive(slots[..|slots| - 1]) + if slots[|slots| - 1].Live? then 1 else 0
  }

  lemma {:induction false} CountUpdate<K, V>(slots: seq<Slot<K, V>>, i: nat, s: Slot<K, V>)
    requires i < |slots|
    ensures CountLive(slots[i := s]) ==
            CountLive(slots) - (if slots[i].Live? then 1 else 0) + (if s.Live? then 1 else 0)
    decreases |slots|
  {
    var n := |slots| - 1;
    if i == n {
      assert slots[i := s][..n] == slots[..n];
    } else {
      assert slots[i := s][..n] == slots[..n][i := s];
      CountUpdate(slots[..n], i, s);
    }
  }

  lemma {:induction false} LiveIsCounted<K, V>(slots: seq<Slot<K, V>>, i: nat)
    requires i < |slots| && slots[i].Live?
    ensures CountLive(slots) > 0
    decreases |slots|
  {
    if i < |slots| - 1 { LiveIsCounted(slots[..|slots| - 1], i); }
  }

  /** A table that is all entries has no room; one without tombstones and with room has an empty slot. */
  lemma {:induction false} RoomIsEmptySlot<K, V>(slots: seq<Slot<K, V>>)
    requires NoTombstones(slots) && CountLive(slots) < |slots|
    ensures HasEmpty(slots)
    decreases |slots|
  {
    var n := |slots| - 1;
    if slots[n].Live? {
      RoomIsEmptySlot(slots[..n]);
      var i :| 0 <= i < n && slots[..n][i].Empty?;
      assert slots[i].Empty?;
    }
  }

  lemma {:induction false} NoneLive<K, V>(slots: seq<Slot<K, V>>)
    requires forall i :: 0 <= i < |slots| ==> !slots[i].Live?
    ensures CountLive(slots) == 0
    decreases |slots|
  {
    if slots != [] { NoneLive(slots[..|slots| - 1]); }
  }

  // ---- When a probe stops ----

  /** The slots where the probe for `key` stops. */
  predicate Stops<K(==), V>(s: Slot<K, V>, key: K) {
    s.Empty? || (s.Live? && s.key == key)
  }

  /** The slot looked at after `n` steps of the probe loop, round and round the table. */
  function Step<K, V>(slots: seq<Slot<K, V>>, home: nat, n: nat): (i: nat)
    requires home < |slots|
    ensures i < |slots|
    decreases n
  {
    if n == 0 then home
    else
      var i := Step(slots, home, n - 1);
      if i + 1 == |slots| then 0 else i + 1
  }

  ghost predicate Terminates<K(!new), V>(slots: seq<Slot<K, V>>, hash: K -> nat, key: K)
    requires |slots| > 0
  {
    exists n: nat :: Stops(slots[Step(slots, Home(hash, key, |slots|), n)], key)
  }

  lemma {:induction false} StepIsAt<K, V>(slots: seq<Slot<K, V>>, home: nat, d: nat)
    requires home < |slots| && d < |slots|
    ensures Step(slots, home, d) == At(home, d, |slots|)
    decreases d
  {
    if d > 0 { StepIsAt(slots, home, d - 1); }
  }

  /** The probe loop of get, delete, find and set comes to an end exactly when some slot is NULL or the
      key is in the table. The source guarantees neither: it grows by the number of live entries. */
  lemma TerminatesIff<K(!new), V>(slots: seq<Slot<K, V>>, hash: K -> nat, key: K)
    requires |slots| > 0
    ensures Terminates(slots, hash, key) <==> HasEmpty(slots) || Holds(slots, key)
  {
    var home := Home(hash, key, |slots|);
    if HasEmpty(slots) || Holds(slots, key) {
      var i :| 0 <= i < |slots| && Stops(slots[i], key);
      StepIsAt(slots, home, Dist(home, i, |slots|));
    }
  }

  // ---- What probing finds ----

  /** The first `d` slots of the probe neither hold the key nor are empty. */
  ghost predicate Passed<K(!new), V>(slots: seq<Slot<K, V>>, hash: K -> nat, key: K, d: nat)
    requires |slots| > 0 && d <= |slots|
  {
    forall j :: 0 <= j < d ==> !Stops(slots[At(Home(hash, key, |slots|), j, |slots|)], key)
  }

  /** An empty slot on the probe path proves that the key is absent. */
  lemma EmptyMeansAbsent<K(!new), V>(slots: seq<Slot<K, V>>, hash: K -> nat, m: map<K, V>, key: K, d: nat)
    requires d < |slots| && TableOk(slots, hash, m) && Passed(slots, hash, key, d)
    requires slots[At(Home(hash, key, |slots|), d, |slots|)].Empty?
    ensures key !in m
  {
    forall i | 0 <= i < |slots| && slots[i].Live? ensures slots[i].key != key {
      var k := slots[i].key;
      var e := Dist(Home(hash, k, |slots|), i, |slots|);
      assert At(Home(hash, k, |slots|), e, |slots|) == i && Unbroken(slots, hash, k, e) && Stops(slots[i], k);
    }
    assert key in m ==> Holds(slots, key);
  }

  /** A slot that the probe reaches while a stopping slot exists is fewer than |slots| steps away. */
  lemma StopsInTime<K(!new), V>(slots: seq<Slot<K, V>>, hash: K -> nat, key: K, d: nat)
    requires 0 < |slots| && d <= |slots| && Passed(slots, hash, key, d) && (HasEmpty(slots) || Holds(slots, key))
    ensures d < |slots|
  {
    var i :| 0 <= i < |slots| && Stops(slots[i], key);
    var e := Dist(Home(hash, key, |slots|), i, |slots|);
    assert Stops(slots[At(Home(hash, key, |slots|), e, |slots|)], key);
  }

  // ---- Changing one slot ----

  /** A new entry in a free slot that its probe reaches. */
  lemma PlaceNew<K(!new), V>(slots: seq<Slot<K, V>>, hash: K -> nat, m: map<K, V>, key: K, value: V, d: nat)
    requires d < |slots| && TableOk(slots, hash, m) && key !in m && Unbroken(slots, hash, key, d)
    requires !slots[At(Home(hash, key, |slots|), d, |slots|)].Live?
    ensures var i := At(Home(hash, key, |slots|), d, |slots|);
            && TableOk(slots[i := Live(key, value)], hash, m[key := value])
            && CountLive(slots[i := Live(key, value)]) == CountLive(slots) + 1
  {
    var n := |slots|;
    var i := At(Home(hash, key, n), d, n);
    var after := slots[i := Live(key, value)];
    CountUpdate(slots, i, Live(key, value));
    assert Dist(Home(hash, key, n), i, n) == d;
    forall j | 0 <= j < n && after[j].Live?
      ensures Unbroken(after, hash, after[j].key, Dist(Home(hash, after[j].key, n), j, n))
    {
      if j != i { assert Unbroken(slots, hash, slots[j].key, Dist(Home(hash, slots[j].key, n), j, n)); }
    }
    forall k | k in m[key := value] ensures Holds(after, k) {
      if k == key {
        assert after[i].key == key;
      } else {
        assert Holds(slots, k);
        var j :| 0 <= j < n && slots[j].Live? && slots[j].key == k;
        assert after[j].key == k;
      }
    }
  }

  /** A new value for the entry in slot `i`. */
  lemma Overwrite<K(!new), V>(slots: seq<Slot<K, V>>, hash: K -> nat, m: map<K, V>, i: nat, value: V)
    requires i < |slots| && slots[i].Live? && TableOk(slots, hash, m)
    ensures var key := slots[i].key;
            && key in m && TableOk(slots[i := Live(key, value)], hash, m[key := value])
            && CountLive(slots[i := Live(key, value)]) == CountLive(slots)
  {
    var n, key := |slots|, slots[i].key;
    var after := slots[i := Live(key, value)];
    CountUpdate(slots, i, Live(key, value));
    forall j | 0 <= j < n && after[j].Live?
      ensures Unbroken(after, hash, after[j].key, Dist(Home(hash, after[j].key, n), j, n))
    {
      assert Unbroken(slots, hash, slots[j].key, Dist(Home(hash, slots[j].key, n), j, n));
    }
    forall k | k in m[key := value] ensures Holds(after, k) {
      assert Holds(slots, k);
      var j :| 0 <= j < n && slots[j].Live? && slots[j].key == k;
      assert after[j].key == k;
    }
  }

  /** A tombstone in place of the entry in slot `i` breaks no probe path. */
  lemma Erase<K(!new), V>(slots: seq<Slot<K, V>>, hash: K -> nat, m: map<K, V>, i: nat)
    requires i < |slots| && slots[i].Live? && TableOk(slots, hash, m)
    ensures slots[i].key in m && TableOk(slots[i := Deleted], hash, m - {slots[i].key})
    ensures CountLive(slots[i := Deleted]) == CountLive(slots) - 1
  {
    var n, key := |slots|, slots[i].key;
    var after := slots[i := Deleted];
    CountUpdate(slots, i, Deleted);
    forall j | 0 <= j < n && after[j].Live?
      ensures Unbroken(after, hash, after[j].key, Dist(Home(hash, after[j].key, n), j, n))
      ensures after[j].key != key
    {
      assert Unbroken(slots, hash, slots[j].key, Dist(Home(hash, slots[j].key, n), j, n));
    }
    forall k | k in m - {key} ensures Holds(after, k) {
      assert Holds(slots, k);
      var j :| 0 <= j < n && slots[j].Live? && slots[j].key == k;
      assert after[j].key == k;
    }
  }

  lemma EmptyTable<K(!new), V>(slots: seq<Slot<K, V>>, hash: K -> nat)
    requires forall i :: 0 <= i < |slots| ==> slots[i].Empty?
    ensures TableOk(slots, hash, map[]) && NoTombstones(slots) && CountLive(slots) == 0
  {
    NoneLive(slots);
  }

  /** The map that a table represents is determined by the table. */
  lemma RepresentsOnce<K, V>(slots: seq<Slot<K, V>>, a: map<K, V>, b: map<K, V>)
    requires Represents(slots, a) && Represents(slots, b)
    ensures a == b
  {
    assert forall k :: k in a ==> Holds(slots, k) && k in b;
    assert forall k :: k in b ==> Holds(slots, k) && k in a;
  }
}
