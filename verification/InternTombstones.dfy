/** The intern table of src/object.c fills with tombstones: strings that a collection drops leave one each, only live
    strings count for growth, and once no slot is NULL a lookup of a string that is not there does not end. */
module InternTombstones {
  import opened Bytes
  import opened Probing
  import opened Interning

  /** Bytes whose hashes, as strings of one byte, have all residues modulo 64 in this order. */
  function Code(i: nat): Byte
    requires i < INTERN_TABLE_INIT_CAP
  {
    if i < 8 then [5, 30, 51, 20, 41, 2, 39, 56][i]
    else if i < 16 then [29, 54, 11, 44, 1, 26, 63, 16][i - 8]
    else if i < 24 then [53, 14, 35, 4, 25, 50, 23, 40][i - 16]
    else if i < 32 then [13, 38, 59, 28, 49, 10, 47, 0][i - 24]
    else if i < 40 then [37, 62, 19, 52, 9, 34, 7, 24][i - 32]
    else if i < 48 then [61, 22, 43, 12, 33, 58, 31, 48][i - 40]
    else if i < 56 then [21, 46, 3, 36, 57, 18, 55, 8][i - 48]
    else [45, 6, 27, 60, 17, 42, 15, 32][i - 56]
  }

  lemma OneByte(b: Byte, h: bv32)
    requires FnvRound(2166136261, b) == h
    ensures HashOf([b]) == h as nat
  {
    hide FnvRound;
    assert [b][..0] == [] && Fnv([]) == 2166136261;
    assert Fnv([b]) == FnvRound(2166136261, b);
  }

  lemma CodesCoverTable(i: nat)
    requires i < INTERN_TABLE_INIT_CAP
    ensures HashOf([Code(i)]) % INTERN_TABLE_INIT_CAP == i
  {
    hide HashOf, Code;
    if i < 32 {
      if i < 8 { Codes0(i); } else if i < 16 { Codes8(i); } else if i < 24 { Codes16(i); } else { Codes24(i); }
    } else {
      if i < 40 { Codes32(i); } else if i < 48 { Codes40(i); } else if i < 56 { Codes48(i); } else { Codes56(i); }
    }
  }

  lemma Hashes0()
    ensures FnvRound(2166136261, 5) == 0x000C5540 && FnvRound(2166136261, 30) == 0x1B0C7FC1
    ensures FnvRound(2166136261, 51) == 0x360CAA42 && FnvRound(2166136261, 20) == 0x110C7003
    ensures FnvRound(2166136261, 41) == 0x2C0C9A84 && FnvRound(2166136261, 2) == 0x070C6045
    ensures FnvRound(2166136261, 39) == 0x220C8AC6 && FnvRound(2166136261, 56) == 0x3D0CB547
  {
  }

  lemma Codes0(i: nat)
    requires 0 <= i < 8
    ensures HashOf([Code(i)]) % 64 == i
  {
    hide HashOf, FnvRound;
    Hashes0();
    match i - 0 {
      case 0 => OneByte(5, 0x000C5540);
      case 1 => OneByte(30, 0x1B0C7FC1);
      case 2 => OneByte(51, 0x360CAA42);
      case 3 => OneByte(20, 0x110C7003);
      case 4 => OneByte(41, 0x2C0C9A84);
      case 5 => OneByte(2, 0x070C6045);
      case 6 => OneByte(39, 0x220C8AC6);
      case _ => OneByte(56, 0x3D0CB547);
    }
  }

  lemma Hashes8()
    ensures FnvRound(2166136261, 29) == 0x180C7B08 && FnvRound(2166136261, 54) == 0x330CA589
    ensures FnvRound(2166136261, 11) == 0x0E0C6B4A && FnvRound(2166136261, 44) == 0x290C95CB
    ensures FnvRound(2166136261, 1) == 0x040C5B8C && FnvRound(2166136261, 26) == 0x1F0C860D
    ensures FnvRound(2166136261, 63) == 0x3A0CB08E && FnvRound(2166136261, 16) == 0x150C764F
  {
  }

  lemma Codes8(i: nat)
    requires 8 <= i < 16
    ensures HashOf([Code(i)]) % 64 == i
  {
    hide HashOf, FnvRound;
    Hashes8();
    match i - 8 {
      case 0 => OneByte(29, 0x180C7B08);
      case 1 => OneByte(54, 0x330CA589);
      case 2 => OneByte(11, 0x0E0C6B4A);
      case 3 => OneByte(44, 0x290C95CB);
      case 4 => OneByte(1, 0x040C5B8C);
      case 5 => OneByte(26, 0x1F0C860D);
      case 6 => OneByte(63, 0x3A0CB08E);
      case _ => OneByte(16, 0x150C764F);
    }
  }

  lemma Hashes16()
    ensures FnvRound(2166136261, 53) == 0x300CA0D0 && FnvRound(2166136261, 14) == 0x0B0C6691
    ensures FnvRound(2166136261, 35) == 0x260C9112 && FnvRound(2166136261, 4) == 0x010C56D3
    ensures FnvRound(2166136261, 25) == 0x1C0C8154 && FnvRound(2166136261, 50) == 0x370CABD5
    ensures FnvRound(2166136261, 23) == 0x120C7196 && FnvRound(2166136261, 40) == 0x2D0C9C17
  {
  }

  lemma Codes16(i: nat)
    requires 16 <= i < 24
    ensures HashOf([Code(i)]) % 64 == i
  {
    hide HashOf, FnvRound;
    Hashes16();
    match i - 16 {
      case 0 => OneByte(53, 0x300CA0D0);
      case 1 => OneByte(14, 0x0B0C6691);
      case 2 => OneByte(35, 0x260C9112);
      case 3 => OneByte(4, 0x010C56D3);
      case 4 => OneByte(25, 0x1C0C8154);
      case 5 => OneByte(50, 0x370CABD5);
      case 6 => OneByte(23, 0x120C7196);
      case _ => OneByte(40, 0x2D0C9C17);
    }
  }

  lemma Hashes24()
    ensures FnvRound(2166136261, 13) == 0x080C61D8 && FnvRound(2166136261, 38) == 0x230C8C59
    ensures FnvRound(2166136261, 59) == 0x3E0CB6DA && FnvRound(2166136261, 28) == 0x190C7C9B
    ensures FnvRound(2166136261, 49) == 0x340CA71C && FnvRound(2166136261, 10) == 0x0F0C6CDD
    ensures FnvRound(2166136261, 47) == 0x2A0C975E && FnvRound(2166136261, 0) == 0x050C5D1F
  {
  }

  lemma Codes24(i: nat)
    requires 24 <= i < 32
    ensures HashOf([Code(i)]) % 64 == i
  {
    hide HashOf, FnvRound;
    Hashes24();
    match i - 24 {
      case 0 => OneByte(13, 0x080C61D8);
      case 1 => OneByte(38, 0x230C8C59);
      case 2 => OneByte(59, 0x3E0CB6DA);
      case 3 => OneByte(28, 0x190C7C9B);
      case 4 => OneByte(49, 0x340CA71C);
      case 5 => OneByte(10, 0x0F0C6CDD);
      case 6 => OneByte(47, 0x2A0C975E);
      case _ => OneByte(0, 0x050C5D1F);
    }
  }

  lemma Hashes32()
    ensures FnvRound(2166136261, 37) == 0x200C87A0 && FnvRound(2166136261, 62) == 0x3B0CB221
    ensures FnvRound(2166136261, 19) == 0x160C77E2 && FnvRound(2166136261, 52) == 0x310CA263
    ensures FnvRound(2166136261, 9) == 0x0C0C6824 && FnvRound(2166136261, 34) == 0x270C92A5
    ensures FnvRound(2166136261, 7) == 0x020C5866 && FnvRound(2166136261, 24) == 0x1D0C82E7
  {
  }

  lemma Codes32(i: nat)
    requires 32 <= i < 40
    ensures HashOf([Code(i)]) % 64 == i
  {
    hide HashOf, FnvRound;
    Hashes32();
    match i - 32 {
      case 0 => OneByte(37, 0x200C87A0);
      case 1 => OneByte(62, 0x3B0CB221);
      case 2 => OneByte(19, 0x160C77E2);
      case 3 => OneByte(52, 0x310CA263);
      case 4 => OneByte(9, 0x0C0C6824);
      case 5 => OneByte(34, 0x270C92A5);
      case 6 => OneByte(7, 0x020C5866);
      case _ => OneByte(24, 0x1D0C82E7);
    }
  }

  lemma Hashes40()
    ensures FnvRound(2166136261, 61) == 0x380CAD68 && FnvRound(2166136261, 22) == 0x130C7329
    ensures FnvRound(2166136261, 43) == 0x2E0C9DAA && FnvRound(2166136261, 12) == 0x090C636B
    ensures FnvRound(2166136261, 33) == 0x240C8DEC && FnvRound(2166136261, 58) == 0x3F0CB86D
    ensures FnvRound(2166136261, 31) == 0x1A0C7E2E && FnvRound(2166136261, 48) == 0x350CA8AF
  {
  }

  lemma Codes40(i: nat)
    requires 40 <= i < 48
    ensures HashOf([Code(i)]) % 64 == i
  {
    hide HashOf, FnvRound;
    Hashes40();
    match i - 40 {
      case 0 => OneByte(61, 0x380CAD68);
      case 1 => OneByte(22, 0x130C7329);
      case 2 => OneByte(43, 0x2E0C9DAA);
      case 3 => OneByte(12, 0x090C636B);
      case 4 => OneByte(33, 0x240C8DEC);
      case 5 => OneByte(58, 0x3F0CB86D);
      case 6 => OneByte(31, 0x1A0C7E2E);
      case _ => OneByte(48, 0x350CA8AF);
    }
  }

  lemma Hashes48()
    ensures FnvRound(2166136261, 21) == 0x100C6E70 && FnvRound(2166136261, 46) == 0x2B0C98F1
    ensures FnvRound(2166136261, 3) == 0x060C5EB2 && FnvRound(2166136261, 36) == 0x210C8933
    ensures FnvRound(2166136261, 57) == 0x3C0CB3B4 && FnvRound(2166136261, 18) == 0x170C7975
    ensures FnvRound(2166136261, 55) == 0x320CA3F6 && FnvRound(2166136261, 8) == 0x0D0C69B7
  {
  }

  lemma Codes48(i: nat)
    requires 48 <= i < 56
    ensures HashOf([Code(i)]) % 64 == i
  {
    hide HashOf, FnvRound;
    Hashes48();
    match i - 48 {
      case 0 => OneByte(21, 0x100C6E70);
      case 1 => OneByte(46, 0x2B0C98F1);
      case 2 => OneByte(3, 0x060C5EB2);
      case 3 => OneByte(36, 0x210C8933);
      case 4 => OneByte(57, 0x3C0CB3B4);
      case 5 => OneByte(18, 0x170C7975);
      case 6 => OneByte(55, 0x320CA3F6);
      case _ => OneByte(8, 0x0D0C69B7);
    }
  }

  lemma Hashes56()
    ensures FnvRound(2166136261, 45) == 0x280C9438 && FnvRound(2166136261, 6) == 0x030C59F9
    ensures FnvRound(2166136261, 27) == 0x1E0C847A && FnvRound(2166136261, 60) == 0x390CAEFB
    ensures FnvRound(2166136261, 17) == 0x140C74BC && FnvRound(2166136261, 42) == 0x2F0C9F3D
    ensures FnvRound(2166136261, 15) == 0x0A0C64FE && FnvRound(2166136261, 32) == 0x250C8F7F
  {
  }

  lemma Codes56(i: nat)
    requires 56 <= i < 64
    ensures HashOf([Code(i)]) % 64 == i
  {
    hide HashOf, FnvRound;
    Hashes56();
    match i - 56 {
      case 0 => OneByte(45, 0x280C9438);
      case 1 => OneByte(6, 0x030C59F9);
      case 2 => OneByte(27, 0x1E0C847A);
      case 3 => OneByte(60, 0x390CAEFB);
      case 4 => OneByte(17, 0x140C74BC);
      case 5 => OneByte(42, 0x2F0C9F3D);
      case 6 => OneByte(15, 0x0A0C64FE);
      case _ => OneByte(32, 0x250C8F7F);
    }
  }

  lemma {:induction false} NoneLive<K, V>(slots: seq<Slot<K, V>>)
    requires forall i :: 0 <= i < |slots| ==> !slots[i].Live?
    ensures CountLive(slots) == 0
    decreases |slots|
  {
    if slots != [] { NoneLive(slots[..|slots| - 1]); }
  }

  /** 64 strings, each dropped by a collection before the next one comes, use up every NULL slot of a new table: it is
      never seen as full, and then no lookup of a missing string comes to an end. */
  method FillWithTombstones() returns (t: InternTable)
    ensures fresh(t) && fresh(t.entries) && t.Valid() && t.contents == map[] && t.count == 0
    ensures t.entries.Length == INTERN_TABLE_INIT_CAP
    ensures forall chars :: !Terminates(t.entries[..], HashOf, chars)
  {
    hide HashOf, Code, WellPlaced, UniqueKeys, CountLive, Represents;
    t := new InternTable();
    var i := 0;
    while i < INTERN_TABLE_INIT_CAP
      invariant 0 <= i <= INTERN_TABLE_INIT_CAP && fresh(t.entries) && t.Valid() && t.contents == map[] && t.count == 0
      invariant t.entries.Length == INTERN_TABLE_INIT_CAP
      invariant forall j :: 0 <= j < t.entries.Length ==> t.entries[j] == if j < i then Deleted else Empty
    {
      CodesCoverTable(i);
      t.Insert([Code(i)], 0);
      t.RemoveUnmarked([false]);
      NoneLive(t.entries[..]);
      i := i + 1;
    }
    forall chars ensures !Terminates(t.entries[..], HashOf, chars) {
      TerminatesIff(t.entries[..], HashOf, chars);
    }
  }
}
