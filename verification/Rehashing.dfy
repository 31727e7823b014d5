/** Moving the entries of an open-addressing table to a new, empty array (src/object.c): the loop that
    map_grow and intern_table_grow share. */
module Rehashing {
  import opened Probing

  lemma HomeOf<K>(hash: K -> nat, key: K, n: nat)
    requires n > 0
    ensures hash(key) % n == Home(hash, key, n) == At(Home(hash, key, n), 0, n)
  {
  }

  lemma UnbrokenStart<K, V>(slots: seq<Slot<K, V>>, hash: K -> nat, key: K)
    requires |slots| > 0
    ensures Unbroken(slots, hash, key, 0)
  {
  }

  lemma UnbrokenNext<K, V>(slots: seq<Slot<K, V>>, hash: K -> nat, key: K, d: nat)
    requires d < |slots| && Unbroken(slots, hash, key, d) && !slots[At(Home(hash, key, |slots|), d, |slots|)].Empty?
    ensures Unbroken(slots, hash, key, d + 1)
  {
  }

  lemma EmptyInTime<K, V>(slots: seq<Slot<K, V>>, hash: K -> nat, key: K, d: nat)
    requires 0 < |slots| && d <= |slots| && Unbroken(slots, hash, key, d) && HasEmpty(slots)
    ensures d < |slots|
  {
    var i :| 0 <= i < |slots| && slots[i].Empty?;
    var e := Dist(Home(hash, key, |slots|), i, |slots|);
    assert slots[At(Home(hash, key, |slots|), e, |slots|)].Empty?;
  }

  /** One entry into the new array, at the first NULL slot of its probe. */
  method Move<K(!new), V>(grown: array<Slot<K, V>>, hash: K -> nat, key: K, value: V, ghost moved: map<K, V>)
    requires TableOk(grown[..], hash, moved) && NoTombstones(grown[..]) && key !in moved
    requires CountLive(grown[..]) < grown.Length
    modifies grown
    ensures TableOk(grown[..], hash, moved[key := value]) && NoTombstones(grown[..])
    ensures CountLive(grown[..]) == old(CountLive(grown[..])) + 1
  {
    hide TableOk, CountLive, Unbroken, HasEmpty, Home, Dist;
    ghost var slots, d := grown[..], 0;
    UnbrokenStart(slots, hash, key);
    RoomIsEmptySlot(slots);
    var i: nat := hash(key) % grown.Length;
    HomeOf(hash, key, grown.Length);
    while !grown[i].Empty?
      invariant slots == grown[..] && d <= |slots| && i < grown.Length
      invariant d < |slots| ==> i == At(Home(hash, key, |slots|), d, |slots|)
      invariant Unbroken(slots, hash, key, d)
      decreases |slots| - d
    {
      EmptyInTime(slots, hash, key, d);
      UnbrokenNext(slots, hash, key, d);
      i := if i + 1 == grown.Length then 0 else i + 1;
      d := d + 1;
    }
    EmptyInTime(slots, hash, key, d);
    PlaceNew(slots, hash, moved, key, value, d);
    grown[i] := Live(key, value);
    assert grown[..] == slots[i := Live(key, value)];
  }

  /** The entries among the first `i` slots are exactly the map `m`. */
  ghost predicate RepresentsPrefix<K, V>(slots: seq<Slot<K, V>>, i: nat, m: map<K, V>)
    requires i <= |slots|
  {
    Represents(slots[..i], m)
  }

  lemma PrefixStart<K, V>(slots: seq<Slot<K, V>>)
    ensures RepresentsPrefix(slots, 0, map[]) && CountLive(slots[..0]) == 0
  {
  }

  /** Looking at one more slot of a table with unique keys. */
  lemma PrefixStep<K(!new), V>(slots: seq<Slot<K, V>>, hash: K -> nat, contents: map<K, V>, i: nat, m: map<K, V>)
    requires i < |slots| && TableOk(slots, hash, contents) && RepresentsPrefix(slots, i, m)
    ensures var s := slots[i];
            && CountLive(slots[..i + 1]) == CountLive(slots[..i]) + (if s.Live? then 1 else 0)
            && CountLive(slots[..i + 1]) <= CountLive(slots)
            && (s.Live? ==> s.key !in m && RepresentsPrefix(slots, i + 1, m[s.key := s.value]))
            && (!s.Live? ==> RepresentsPrefix(slots, i + 1, m))
  {
    hide *;
    var s := slots[i];
    assert slots[..i + 1] == slots[..i] + [s];
    CountPrefix(slots, i + 1);
    CountOneMore(slots, i);
    PrefixIs(slots, i, m);
    if s.Live? {
      NotHeldBefore(slots, hash, contents, i);
      AppendEntry(slots[..i], m, s.key, s.value);
      PrefixIs(slots, i + 1, m[s.key := s.value]);
    } else {
      AppendFree(slots[..i], m, s);
      PrefixIs(slots, i + 1, m);
    }
  }

  lemma PrefixIs<K, V>(slots: seq<Slot<K, V>>, i: nat, m: map<K, V>)
    requires i <= |slots|
    ensures RepresentsPrefix(slots, i, m) == Represents(slots[..i], m)
  {
  }

  lemma CountOneMore<K, V>(slots: seq<Slot<K, V>>, i: nat)
    requires i < |slots|
    ensures CountLive(slots[..i + 1]) == CountLive(slots[..i]) + if slots[i].Live? then 1 else 0
  {
    assert slots[..i + 1][..i] == slots[..i];
  }

  lemma NotHeldBefore<K(!new), V>(slots: seq<Slot<K, V>>, hash: K -> nat, contents: map<K, V>, i: nat)
    requires i < |slots| && TableOk(slots, hash, contents) && slots[i].Live?
    ensures !Holds(slots[..i], slots[i].key)
  {
    forall j | 0 <= j < i && slots[..i][j].Live? ensures slots[..i][j].key != slots[i].key {
      assert slots[..i][j] == slots[j];
    }
  }

  lemma AppendEntry<K, V>(slots: seq<Slot<K, V>>, m: map<K, V>, key: K, value: V)
    requires Represents(slots, m) && !Holds(slots, key)
    ensures key !in m && Represents(slots + [Live(key, value)], m[key := value])
  {
    var after := slots + [Live(key, value)];
    assert after[|slots|].key == key;
    forall k | k in m ensures Holds(after, k) {
      var j :| 0 <= j < |slots| && slots[j].Live? && slots[j].key == k;
      assert after[j].key == k;
    }
    forall j | 0 <= j < |slots| && slots[j].Live? ensures slots[j].key != key {
    }
  }

  lemma AppendFree<K, V>(slots: seq<Slot<K, V>>, m: map<K, V>, s: Slot<K, V>)
    requires Represents(slots, m) && !s.Live?
    ensures Represents(slots + [s], m)
  {
    forall k | k in m ensures Holds(slots + [s], k) {
      var j :| 0 <= j < |slots| && slots[j].Live? && slots[j].key == k;
      assert (slots + [s])[j].key == k;
    }
  }

  lemma {:induction false} CountPrefix<K, V>(slots: seq<Slot<K, V>>, i: nat)
    requires i <= |slots|
    ensures CountLive(slots[..i]) <= CountLive(slots)
    decreases |slots|
  {
    if i < |slots| {
      assert slots[..|slots| - 1][..i] == slots[..i];
      CountPrefix(slots[..|slots| - 1], i);
    } else {
      assert slots[..i] == slots;
    }
  }

  lemma PrefixEnd<K(!new), V>(slots: seq<Slot<K, V>>, hash: K -> nat, contents: map<K, V>, m: map<K, V>)
    requires TableOk(slots, hash, contents) && RepresentsPrefix(slots, |slots|, m)
    ensures m == contents && CountLive(slots[..|slots|]) == CountLive(slots)
  {
    assert slots[..|slots|] == slots;
    RepresentsOnce(slots, m, contents);
  }

  /** Every entry of `entries` is placed in `grown`; tombstones are left behind. */
  method Rehash<K(!new), V>(entries: array<Slot<K, V>>, grown: array<Slot<K, V>>, hash: K -> nat, ghost contents: map<K, V>)
    requires TableOk(entries[..], hash, contents) && entries != grown && CountLive(entries[..]) < grown.Length
    requires forall i :: 0 <= i < grown.Length ==> grown[i].Empty?
    modifies grown
    ensures TableOk(grown[..], hash, contents) && NoTombstones(grown[..])
    ensures CountLive(grown[..]) == CountLive(entries[..])
  {
    hide TableOk, CountLive, NoTombstones;
    EmptyTable(grown[..], hash);
    ghost var slots, moved := entries[..], map[];
    var i := 0;
    PrefixStart(slots);
    while i < entries.Length
      invariant 0 <= i <= entries.Length && slots == entries[..]
      invariant TableOk(grown[..], hash, moved) && NoTombstones(grown[..])
      invariant CountLive(grown[..]) == CountLive(slots[..i])
      invariant RepresentsPrefix(slots, i, moved)
    {
      var entry := entries[i];
      PrefixStep(slots, hash, contents, i, moved);
      if entry.Live? {
        Move(grown, hash, entry.key, entry.value, moved);
        moved := moved[entry.key := entry.value];
      }
      i := i + 1;
    }
    PrefixEnd(slots, hash, contents, moved);
  }
}
