/** The string intern table of src/object.c: an open-addressing table from the bytes of a string to the
    string object, weak in that a collection drops the entries of unmarked strings. */
module Interning {
  import opened Bytes
  import opened Options
  import opened Probing
  import opened Rehashing

  const INTERN_TABLE_INIT_CAP := 64

  /** One round of FNV-1a, wrapping around at 32 bits. */
  function FnvRound(hash: bv32, b: Byte): bv32 {
    (hash ^ (b as bv32)) * 16777619
  }

  function Fnv(bytes: seq<Byte>): bv32 {
    if bytes == [] then 2166136261 else FnvRound(Fnv(bytes[..|bytes| - 1]), bytes[|bytes| - 1])
  }

  function HashOf(bytes: seq<Byte>): nat {
    Fnv(bytes) as nat
  }

  /** hash_string, the loop over the bytes. */
  method HashString(key: seq<Byte>) returns (hash: nat)
    ensures hash == HashOf(key)
  {
    hide FnvRound;
    var h: bv32 := 2166136261;
    var i := 0;
    while i < |key|
      invariant 0 <= i <= |key| && h == Fnv(key[..i])
    {
      assert key[..i + 1][..i] == key[..i];
      h := FnvRound(h, key[i]);
      i := i + 1;
    }
    assert key[..i] == key;
    hash := h as nat;
  }

  class InternTable {
    var count: nat
    var entries: array<Slot<seq<Byte>, nat>>
    ghost var contents: map<seq<Byte>, nat>

    ghost predicate Valid()
      reads this, entries
    {
      && TableOk(entries[..], HashOf, contents) && count == CountLive(entries[..])
      && 4 * count <= 3 * entries.Length && entries.Length >= INTERN_TABLE_INIT_CAP
    }

    ghost predicate Stoppable(chars: seq<Byte>)
      reads this, entries
    {
      HasEmpty(entries[..]) || chars in contents
    }

    constructor ()
      ensures Valid() && contents == map[] && fresh(entries) && HasEmpty(entries[..])
      ensures count == 0 && entries.Length == 64 && forall j :: 0 <= j < entries.Length ==> entries[j].Empty?
    {
      count, contents := 0, map[];
      entries := new Slot<seq<Byte>, nat>[INTERN_TABLE_INIT_CAP](_ => Empty);
      new;
      EmptyTable(entries[..], HashOf);
      assert entries[..][0].Empty?;
    }

    /** intern_table_find: the string object with these bytes, if there is one. */
    method Find(chars: seq<Byte>) returns (r: Option<nat>)
      requires Valid() && Stoppable(chars)
      ensures r == if chars in contents then Some(contents[chars]) else None
    {
      hide WellPlaced, UniqueKeys, CountLive, HashOf;
      ghost var slots, d := entries[..], 0;
      var hash := HashString(chars);
      var i: nat := hash % entries.Length;
      while true
        invariant d <= |slots| && i < |slots| && (d < |slots| ==> i == At(Home(HashOf, chars, |slots|), d, |slots|))
        invariant Passed(slots, HashOf, chars, d) && slots == entries[..]
        decreases |slots| - d
      {
        StopsInTime(slots, HashOf, chars, d);
        if entries[i].Empty? {
          EmptyMeansAbsent(slots, HashOf, contents, chars, d);
          return None;
        }
        if entries[i].Live? && entries[i].key == chars {
          return Some(entries[i].value);
        }
        i := if i + 1 == entries.Length then 0 else i + 1;
        d := d + 1;
      }
    }

    /** intern_table_insert: the string is not in the table yet; the first free slot takes it. */
    method Insert(chars: seq<Byte>, address: nat)
      requires Valid() && chars !in contents
      modifies this, entries
      ensures Valid() && contents == old(contents)[chars := address] && count == old(count) + 1
      ensures entries == old(entries) || fresh(entries)
      ensures entries.Length == old(if count + 1 > entries.Length * 3 / 4 then 2 * entries.Length else entries.Length)
      ensures old(NoTombstones(entries[..])) ==> NoTombstones(entries[..])
      ensures old(count + 1 <= entries.Length * 3 / 4) ==>
                entries == old(entries) && PlacedAtHome(old(entries[..]), entries[..], chars, address)
    {
      hide WellPlaced, UniqueKeys, CountLive, Represents, HashOf;
      if count + 1 > entries.Length * 3 / 4 {
        Grow();
      }
      var i, d := FirstFree(chars);
      ghost var slots := entries[..];
      PlaceNew(slots, HashOf, contents, chars, address, d);
      entries[i] := Live(chars, address);
      assert entries[..] == slots[i := Live(chars, address)];
      count := count + 1;
      contents := contents[chars := address];
    }

    /** The first slot on the probe path that holds no entry. */
    method FirstFree(chars: seq<Byte>) returns (i: nat, ghost d: nat)
      requires Valid()
      ensures d < entries.Length && i == At(Home(HashOf, chars, entries.Length), d, entries.Length)
      ensures !entries[i].Live? && Unbroken(entries[..], HashOf, chars, d)
      ensures !entries[HashOf(chars) % entries.Length].Live? ==> i == HashOf(chars) % entries.Length
    {
      hide TableOk, CountLive, HashOf;
      ghost var slots := entries[..];
      d := 0;
      SomeFree(slots);
      var hash := HashString(chars);
      i := hash % entries.Length;
      while entries[i].Live?
        invariant slots == entries[..] && d <= |slots| && i < entries.Length
        invariant d < |slots| ==> i == At(Home(HashOf, chars, |slots|), d, |slots|)
        invariant AllLive(slots, HashOf, chars, d)
        invariant i == hash % |slots| || entries[hash % |slots|].Live?
        decreases |slots| - d
      {
        FreeInTime(slots, HashOf, chars, d);
        i := if i + 1 == entries.Length then 0 else i + 1;
        d := d + 1;
      }
      FreeInTime(slots, HashOf, chars, d);
    }

    /** intern_table_grow. */
    method Grow()
      requires Valid() && count + 1 > entries.Length * 3 / 4
      modifies this`entries
      ensures Valid() && fresh(entries) && NoTombstones(entries[..]) && HasEmpty(entries[..])
      ensures entries.Length == 2 * old(entries.Length) && 4 * (count + 1) <= 3 * entries.Length
    {
      hide WellPlaced, UniqueKeys, CountLive, Represents, HashOf;
      var grown := new Slot<seq<Byte>, nat>[entries.Length * 2](_ => Empty);
      Rehash(entries, grown, HashOf, contents);
      RoomIsEmptySlot(grown[..]);
      entries := grown;
    }

    /** intern_table_remove_unmarked: exactly the entries of marked strings stay. */
    method RemoveUnmarked(marks: seq<bool>)
      requires Valid() && forall chars :: chars in contents ==> contents[chars] < |marks|
      modifies this`count, this`contents, entries
      ensures Valid() && contents == Marked(old(contents), marks)
      ensures old(HasEmpty(entries[..])) ==> HasEmpty(entries[..])
      ensures forall j :: 0 <= j < entries.Length ==> entries[j] == Swept(old(entries[..])[j], marks)
    {
      hide WellPlaced, UniqueKeys, CountLive, HashOf;
      ghost var before, all := entries[..], contents;
      var i := 0;
      while i < entries.Length
        invariant 0 <= i <= entries.Length && Valid() && entries.Length == |before|
        invariant forall j :: i <= j < |before| ==> entries[j] == before[j]
        invariant forall j :: 0 <= j < i ==> entries[j] == Swept(before[j], marks)
        invariant forall chars :: chars in contents ==> chars in all && contents[chars] == all[chars]
        invariant forall chars :: chars in all && chars !in contents ==> !marks[all[chars]]
      {
        var entry := entries[i];
        if entry.Live? {
          assert entries[..][i] == entry;
          if !marks[entry.value] {
            RemoveAt(i);
          }
        }
        i := i + 1;
      }
      forall chars | chars in contents ensures marks[contents[chars]] {
        assert Holds(entries[..], chars);
        var j :| 0 <= j < entries.Length && entries[..][j].Live? && entries[..][j].key == chars;
        assert entries[j] == entries[..][j] == Swept(before[j], marks);
      }
      if HasEmpty(before) {
        var j :| 0 <= j < |before| && before[j].Empty?;
        assert entries[..][j].Empty?;
      }
    }

    method RemoveAt(i: nat)
      requires Valid() && i < entries.Length && entries[i].Live?
      modifies this`count, this`contents, entries
      ensures Valid() && contents == old(contents) - {old(entries[i]).key}
      ensures old(entries[i]).key in old(contents) && old(contents)[old(entries[i]).key] == old(entries[i]).value
      ensures entries[..] == old(entries[..])[i := Deleted]
    {
      hide WellPlaced, UniqueKeys, CountLive, HashOf;
      ghost var slots := entries[..];
      assert slots[i] == entries[i];
      Erase(slots, HashOf, contents, i);
      LiveIsCounted(slots, i);
      contents := contents - {entries[i].key};
      entries[i] := Deleted;
      assert entries[..] == slots[i := Deleted];
      count := count - 1;
    }
  }

  /** When the home of a string is free, that is where it goes. */
  ghost predicate PlacedAtHome(before: seq<Slot<seq<Byte>, nat>>, after: seq<Slot<seq<Byte>, nat>>, chars: seq<Byte>, address: nat) {
    |before| > 0 &&
    var home := HashOf(chars) % |before|;
    before[home].Live? || after == before[home := Live(chars, address)]
  }

  /** A slot after a collection: a tombstone in place of a string that is not marked. */
  function Swept(slot: Slot<seq<Byte>, nat>, marks: seq<bool>): Slot<seq<Byte>, nat> {
    if slot.Live? && slot.value < |marks| && !marks[slot.value] then Deleted else slot
  }

  /** The entries whose strings are marked. */
  ghost function Marked(contents: map<seq<Byte>, nat>, marks: seq<bool>): map<seq<Byte>, nat> {
    map chars | chars in contents && contents[chars] < |marks| && marks[contents[chars]] :: contents[chars]
  }

  ghost predicate AllLive<K, V>(slots: seq<Slot<K, V>>, hash: K -> nat, key: K, d: nat)
    requires |slots| > 0 && d <= |slots|
  {
    forall j :: 0 <= j < d ==> slots[At(Home(hash, key, |slots|), j, |slots|)].Live?
  }

  ghost predicate HasFree<K, V>(slots: seq<Slot<K, V>>) {
    exists i :: 0 <= i < |slots| && !slots[i].Live?
  }

  /** The growth test keeps a quarter of the slots free of entries, so insertion always ends. */
  lemma {:induction false} SomeFree<K, V>(slots: seq<Slot<K, V>>)
    requires CountLive(slots) < |slots|
    ensures HasFree(slots)
    decreases |slots|
  {
    var n := |slots| - 1;
    if slots[n].Live? {
      SomeFree(slots[..n]);
      var i :| 0 <= i < n && !slots[..n][i].Live?;
      assert !slots[i].Live?;
    }
  }

  lemma FreeInTime<K, V>(slots: seq<Slot<K, V>>, hash: K -> nat, key: K, d: nat)
    requires 0 < |slots| && d <= |slots| && AllLive(slots, hash, key, d) && HasFree(slots)
    ensures d < |slots| && Unbroken(slots, hash, key, d)
  {
    var i :| 0 <= i < |slots| && !slots[i].Live?;
    var e := Dist(Home(hash, key, |slots|), i, |slots|);
    assert !slots[At(Home(hash, key, |slots|), e, |slots|)].Live?;
  }

  lemma NextHash(bytes: seq<Byte>, b: Byte)
    ensures Fnv(bytes + [b]) == FnvRound(Fnv(bytes), b)
  {
    hide FnvRound;
    assert (bytes + [b])[..|bytes|] == bytes;
  }

  lemma FoobarRounds()
    ensures FnvRound(0x811c9dc5, 102) == 0xe30c2799
    ensures FnvRound(0xe30c2799, 111) == 0x6222e842
    ensures FnvRound(0x6222e842, 111) == 0xa9f37ed7
    ensures FnvRound(0xa9f37ed7, 98) == 0x3f5076ef
    ensures FnvRound(0x3f5076ef, 97) == 0x39aaa18a
    ensures FnvRound(0x39aaa18a, 114) == 0xbf9cf968
  {
  }

  /** The published test value of FNV-1a for the text foobar. */
  lemma HashOfFoobar()
    ensures HashOf([102, 111, 111, 98, 97, 114]) == 0xBF9C_F968
  {
    hide FnvRound, Fnv;
    FoobarRounds();
    HashOfNothing();
    NextHash([], 102);
    assert [] + [102] == [102];
    NextHash([102], 111);
    assert [102] + [111] == [102, 111];
    NextHash([102, 111], 111);
    assert [102, 111] + [111] == [102, 111, 111];
    NextHash([102, 111, 111], 98);
    assert [102, 111, 111] + [98] == [102, 111, 111, 98];
    NextHash([102, 111, 111, 98], 97);
    assert [102, 111, 111, 98] + [97] == [102, 111, 111, 98, 97];
    NextHash([102, 111, 111, 98, 97], 114);
    assert [102, 111, 111, 98, 97] + [114] == [102, 111, 111, 98, 97, 114];
  }

  lemma HashOfNothing()
    ensures Fnv([]) == 0x811C_9DC5
  {
  }
}
