/** The hash map of src/object.c as an object: linear probing over an array that is updated in place,
    with tombstones and rehashing, proved to be a finite map. */
module ObjMaps {
  import opened Probing
  import opened Rehashing
  import Interning
  import Bytes

  /** A string object: interned, so its address stands for its bytes; the hash is cached in it. */
  datatype Key = Key(address: nat, hash: nat)

  function HashOf(k: Key): nat {
    k.hash
  }

  ghost predicate PowerOfTwo(n: nat) {
    n == 1 || (n > 1 && n % 2 == 0 && PowerOfTwo(n / 2))
  }

  datatype Lookup<V> = Missing | Found(value: V)

  class ObjMap<V> {
    var length: nat
    var entries: array<Slot<Key, V>>   // its length is the capacity
    ghost var contents: map<Key, V>

    ghost predicate Valid()
      reads this, entries
    {
      && TableOk(entries[..], HashOf, contents)
      && length == CountLive(entries[..])
      && 4 * length <= 3 * entries.Length
      && (entries.Length == 0 || (entries.Length >= 8 && PowerOfTwo(entries.Length)))
    }

    /** The probe loop for this key comes to an end. */
    ghost predicate Stoppable(key: Key)
      reads this, entries
    {
      HasEmpty(entries[..]) || key in contents
    }

    /** obj_map_set will rehash first. */
    predicate Grows()
      reads this, entries
    {
      length + 1 > entries.Length * 3 / 4
    }

    constructor ()
      ensures Valid() && contents == map[] && length == 0 && entries.Length == 0 && fresh(entries)
    {
      length, entries, contents := 0, new Slot<Key, V>[0], map[];
      new;
      EmptyTable(entries[..], HashOf);
    }

    /** obj_map_get. */
    method Get(key: Key) returns (r: Lookup<V>)
      requires Valid() && (entries.Length == 0 || Stoppable(key))
      ensures r == if key in contents then Found(contents[key]) else Missing
    {
      if entries.Length == 0 {
        NothingStored();
        return Missing;
      }
      var i, found := Probe(key);
      if found { return Found(entries[i].value); }
      r := Missing;
    }

    lemma NothingStored()
      requires Valid() && entries.Length == 0
      ensures contents == map[]
    {
      assert forall k :: k in contents ==> Holds(entries[..], k);
    }

    /** The probe loop of get and delete. */
    method Probe(key: Key) returns (i: nat, found: bool)
      requires Valid() && entries.Length > 0 && Stoppable(key)
      ensures found == (key in contents)
      ensures found ==> i < entries.Length && entries[i] == Live(key, contents[key])
      ensures AtHome(entries[..], key) ==> i == key.hash % entries.Length
    {
      hide WellPlaced, UniqueKeys, CountLive, PowerOfTwo;
      ghost var slots, d := entries[..], 0;
      i := key.hash % entries.Length;
      while true
        invariant d <= |slots| && i < |slots| && (d < |slots| ==> i == At(Home(HashOf, key, |slots|), d, |slots|))
        invariant Passed(slots, HashOf, key, d) && slots == entries[..]
        invariant AtHome(slots, key) ==> d == 0
        decreases |slots| - d
      {
        StopsInTime(slots, HashOf, key, d);
        if entries[i].Empty? {
          EmptyMeansAbsent(slots, HashOf, contents, key, d);
          return i, false;
        }
        if entries[i].Live? && entries[i].key == key {
          return i, true;
        }
        i := if i + 1 == entries.Length then 0 else i + 1;
        d := d + 1;
      }
    }

    /** obj_map_delete: the entry becomes a tombstone. */
    method Delete(key: Key) returns (deleted: bool)
      requires Valid() && (entries.Length == 0 || Stoppable(key))
      modifies this`length, this`contents, entries
      ensures Valid() && contents == old(contents) - {key} && deleted == (key in old(contents))
      ensures length == if deleted then old(length) - 1 else old(length)
      ensures old(HasEmpty(entries[..])) ==> HasEmpty(entries[..])
      ensures deleted && old(AtHome(entries[..], key)) ==>
                entries[..] == old(entries[..])[key.hash % entries.Length := Deleted]
    {
      hide WellPlaced, UniqueKeys, CountLive, PowerOfTwo;
      if entries.Length == 0 {
        NothingStored();
        return false;
      }
      var i, found := Probe(key);
      if !found { return false; }
      Erase(entries[..], HashOf, contents, i);
      LiveIsCounted(entries[..], i);
      ghost var before := entries[..];
      entries[i] := Deleted;
      assert entries[..] == before[i := Deleted];
      length := length - 1;
      contents := contents - {key};
      if HasEmpty(before) {
        var j :| 0 <= j < |before| && before[j].Empty?;
        assert entries[..][j].Empty?;
      }
      deleted := true;
    }

    /** obj_map_set. Without growing it needs a slot where the probe stops; growing makes one. */
    method Set(key: Key, value: V) returns (isNew: bool)
      requires Valid() && (Grows() || Stoppable(key))
      modifies this, entries
      ensures Valid() && contents == old(contents)[key := value] && isNew == (key !in old(contents))
      ensures length == if isNew then old(length) + 1 else old(length)
      ensures old(Grows()) || old(NoTombstones(entries[..])) ==> NoTombstones(entries[..])
      ensures entries == old(entries) || fresh(entries)
      ensures old(Grows()) <==> entries != old(entries)
      ensures old(Grows()) ==> entries.Length == if old(entries.Length) < 8 then 8 else 2 * old(entries.Length)
      ensures old(Grows() && length == 0) ==> forall j :: 0 <= j < entries.Length ==>
                entries[j] == if j == key.hash % entries.Length then Live(key, value) else Empty
      ensures !old(Grows()) && old(entries[key.hash % entries.Length]).Empty? ==>
                entries[..] == old(entries[..])[key.hash % entries.Length := Live(key, value)]
    {
      if length + 1 > entries.Length * 3 / 4 {
        Grow();
        if length == 0 { NothingCounted(entries[..]); }
      }
      isNew := Put(key, value);
    }

    /** The probe loop of obj_map_set: the key's own entry, else the first tombstone passed, else NULL. */
    method Put(key: Key, value: V) returns (isNew: bool)
      requires Valid() && 4 * (length + 1) <= 3 * entries.Length && Stoppable(key)
      modifies this`length, this`contents, entries
      ensures Valid() && contents == old(contents)[key := value] && isNew == (key !in old(contents))
      ensures length == if isNew then old(length) + 1 else old(length)
      ensures old(NoTombstones(entries[..])) ==> NoTombstones(entries[..])
      ensures var home := key.hash % entries.Length;
              old(entries[home]).Empty? ==> entries[..] == old(entries[..])[home := Live(key, value)]
    {
      hide WellPlaced, UniqueKeys, CountLive, PowerOfTwo, Represents;
      ghost var slots, d, t := entries[..], 0, 0;
      StoppableHere(key);
      var i, hasTombstone, tombstone := key.hash % entries.Length, false, 0;
      while true
        invariant d <= |slots| && i < |slots| && (d < |slots| ==> i == At(Home(HashOf, key, |slots|), d, |slots|))
        invariant Passed(slots, HashOf, key, d) && slots == entries[..]
        invariant hasTombstone ==>
                    && t < d && tombstone == At(Home(HashOf, key, |slots|), t, |slots|) && slots[tombstone].Deleted?
        invariant contents == old(contents) && length == old(length)
        invariant entries[key.hash % entries.Length].Empty? ==> d == 0
        decreases |slots| - d
      {
        StopsInTime(slots, HashOf, key, d);
        if entries[i].Empty? {
          EmptyMeansAbsent(slots, HashOf, contents, key, d);
          PathUnbroken(slots, HashOf, key, d);
          if hasTombstone { i, d := tombstone, t; }
          PlaceNew(slots, HashOf, contents, key, value, d);
          entries[i] := Live(key, value);
          assert entries[..] == slots[i := Live(key, value)];
          length := length + 1;
          contents := contents[key := value];
          return true;
        }
        if entries[i].Deleted? {
          if !hasTombstone { hasTombstone, tombstone, t := true, i, d; }
        } else if entries[i].key == key {
          Overwrite(slots, HashOf, contents, i, value);
          entries[i] := Live(key, value);
          assert entries[..] == slots[i := Live(key, value)];
          contents := contents[key := value];
          return false;
        }
        i := if i + 1 == entries.Length then 0 else i + 1;
        d := d + 1;
      }
    }

    lemma StoppableHere(key: Key)
      requires Valid() && Stoppable(key)
      ensures HasEmpty(entries[..]) || Holds(entries[..], key)
    {
    }

    /** map_grow: the entries move to an array of twice the size, and the tombstones are dropped. */
    method Grow()
      requires Valid() && Grows()
      modifies this`entries
      ensures Valid() && fresh(entries) && NoTombstones(entries[..]) && HasEmpty(entries[..])
      ensures entries.Length == if old(entries.Length) < 8 then 8 else 2 * old(entries.Length)
      ensures 4 * (length + 1) <= 3 * entries.Length
    {
      hide WellPlaced, UniqueKeys, CountLive, PowerOfTwo, Represents;
      var capacity := if entries.Length < 8 then 8 else entries.Length * 2;
      var grown := new Slot<Key, V>[capacity](_ => Empty);
      Rehash(entries, grown, HashOf, contents);
      DoublingKeepsPower(entries.Length);
      RoomIsEmptySlot(grown[..]);
      entries := grown;
    }
  }

  lemma PathUnbroken<K(!new), V>(slots: seq<Slot<K, V>>, hash: K -> nat, key: K, d: nat)
    requires 0 < |slots| && d <= |slots| && Passed(slots, hash, key, d)
    ensures forall t: nat :: t <= d ==> Unbroken(slots, hash, key, t)
  {
  }

  lemma DoublingKeepsPower(n: nat)
    requires n == 0 || PowerOfTwo(n)
    ensures PowerOfTwo(if n < 8 then 8 else n * 2)
  {
    assert PowerOfTwo(1) && PowerOfTwo(2) && PowerOfTwo(4) && PowerOfTwo(8);
    assert n * 2 / 2 == n;
  }

  /** The key is stored in its home slot. */
  ghost predicate AtHome<V>(slots: seq<Slot<Key, V>>, key: Key) {
    |slots| > 0 && slots[key.hash % |slots|].Live? && slots[key.hash % |slots|].key == key
  }

  lemma {:induction false} NothingCounted<K, V>(slots: seq<Slot<K, V>>)
    requires CountLive(slots) == 0
    ensures forall i :: 0 <= i < |slots| ==> !slots[i].Live?
    decreases |slots|
  {
    if slots != [] { NothingCounted(slots[..|slots| - 1]); }
  }

  /** Histories without delete never meet the problem below: a table without tombstones has a NULL slot. */
  lemma InsertOnlyStops<V>(m: ObjMap<V>)
    requires m.Valid() && NoTombstones(m.entries[..])
    ensures m.entries.Length == 0 || HasEmpty(m.entries[..])
  {
    if m.entries.Length > 0 { RoomIsEmptySlot(m.entries[..]); }
  }

  /** The letters e, f, c, d, a, b, g and h. */
  const LETTERS: seq<Bytes.Byte> := [101, 102, 99, 100, 97, 98, 103, 104]

  /** As strings of one byte they have hashes of all residues modulo 8, in this order. */
  lemma LettersCoverTable(i: nat)
    requires i < |LETTERS|
    ensures Interning.HashOf([LETTERS[i]]) % 8 == i
  {
    hide Interning.FnvRound;
    var b := LETTERS[i];
    assert [b][..0] == [] && Interning.Fnv([]) == 2166136261;
    assert Interning.Fnv([b]) == Interning.FnvRound(2166136261, b);
    if i < 4 { FirstLetters(); } else { LastLetters(); }
  }

  lemma FirstLetters()
    ensures Interning.FnvRound(2166136261, 101) == 0xE00C22E0
    ensures Interning.FnvRound(2166136261, 102) == 0xE30C2799
    ensures Interning.FnvRound(2166136261, 99) == 0xE60C2C52
    ensures Interning.FnvRound(2166136261, 100) == 0xE10C2473
  {
  }

  lemma LastLetters()
    ensures Interning.FnvRound(2166136261, 97) == 0xE40C292C
    ensures Interning.FnvRound(2166136261, 98) == 0xE70C2DE5
    ensures Interning.FnvRound(2166136261, 103) == 0xE20C2606
    ensures Interning.FnvRound(2166136261, 104) == 0xED0C3757
  {
  }

  /** Eight insertions and deletions of one-letter strings that use up every NULL slot of a new map: the table is never seen as
      full, because only live entries count, and then no lookup of a missing key comes to an end. */
  method FillWithTombstones() returns (m: ObjMap<int>)
    ensures fresh(m) && fresh(m.entries) && m.Valid() && m.contents == map[] && m.entries.Length == 8 && !m.Grows()
    ensures forall key :: !Terminates(m.entries[..], HashOf, key)
  {
    m := new ObjMap();
    var i := 0;
    while i < 8
      invariant 0 <= i <= 8 && fresh(m.entries) && m.Valid() && m.contents == map[] && m.length == 0
      invariant m.entries.Length == if i == 0 then 0 else 8
      invariant forall j :: 0 <= j < m.entries.Length ==> m.entries[j] == if j < i then Deleted else Empty
    {
      var key := Key(i, Interning.HashOf([LETTERS[i]]));
      LettersCoverTable(i);
      if i > 0 { assert m.entries[..][i].Empty?; }
      var isNew := m.Set(key, 0);
      assert m.entries[..][i] == Live(key, 0);
      var deleted := m.Delete(key);
      assert m.contents == map[];
      i := i + 1;
    }
    forall key: Key ensures !Terminates(m.entries[..], HashOf, key) {
      TerminatesIff(m.entries[..], HashOf, key);
    }
  }
}
