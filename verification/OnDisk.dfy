// The on-disk format byte by byte: where every field lies, and in which order its bytes and bits stand.

module OnDisk {
  import opened Bits
  import opened Bytes
  import opened Format

  // Four bytes as a number, the lowest first.
  function Field(d: seq<Byte>, a: nat): nat
    requires a + 4 <= |d|
  {
    var b0: nat, b1: nat, b2: nat, b3: nat := d[a], d[a + 1], d[a + 2], d[a + 3];
    b0 + 0x100 * b1 + 0x1_0000 * b2 + 0x100_0000 * b3
  }

  // The same as a signed number.
  function IntField(d: seq<Byte>, a: nat): int
    requires a + 4 <= |d|
  {
    if Field(d, a) < 0x8000_0000 then Field(d, a) else Field(d, a) - 0x1_0000_0000
  }

  lemma FieldIs(d: seq<Byte>, a: nat)
    requires a + 4 <= |d|
    ensures Field(d, a) == FromLe32(d[a..a + 4]) && IntField(d, a) == Signed(FromLe32(d[a..a + 4]))
  {
    var bs := d[a..a + 4];
    assert bs[0] == d[a] && bs[1] == d[a + 1] && bs[2] == d[a + 2] && bs[3] == d[a + 3];
  }

  lemma FieldWithin(d: seq<Byte>, a: nat, n: nat, k: nat)
    requires a + n <= |d| && k + 4 <= n
    ensures d[a..a + n][k..k + 4] == d[a + k..a + k + 4]
  {
    var s, t := d[a..a + n][k..k + 4], d[a + k..a + k + 4];
    forall j | 0 <= j < 4
      ensures s[j] == t[j]
    {
    }
  }

  // ---------- superblock and inodes ----------

  lemma SuperField(d: seq<Byte>, k: nat)
    requires |d| >= 40 && k < 10
    ensures FieldAt(d[..40], k) == IntField(d, 4 * k)
  {
    hide FromLe32, Signed, IntField;
    assert d[..40][4 * k..4 * k + 4] == d[4 * k..4 * k + 4];
    FieldIs(d, 4 * k);
  }

  // The superblock is ten numbers in the first 40 bytes.
  lemma SuperOnDisk(d: seq<Byte>)
    requires |d| >= 40
    ensures DecodeSuper(d[..40]) ==
            Super(IntField(d, 0), IntField(d, 4), IntField(d, 8), IntField(d, 12), IntField(d, 16), IntField(d, 20),
                  IntField(d, 24), IntField(d, 28), IntField(d, 32), IntField(d, 36))
  {
    hide FieldAt, IntField;
    SuperField(d, 0);
    SuperField(d, 1);
    SuperField(d, 2);
    SuperField(d, 3);
    SuperField(d, 4);
    SuperField(d, 5);
    SuperField(d, 6);
    SuperField(d, 7);
    SuperField(d, 8);
    SuperField(d, 9);
  }

  // Inode i is 128 bytes in the inode region: its type, its size, and 30 pointers.
  lemma InodeOnDisk(s: Super, d: seq<Byte>, i: nat)
    requires Layout(s, |d|) && i < s.numInodes
    ensures var a, ino := s.inodeRegionAddr * 4096 + 128 * i, Load(s, d).inodes[i];
      && 0 <= a && a + 128 <= |d|
      && ino.kind == IntField(d, a) && ino.size == IntField(d, a + 4)
      && forall k {:trigger ino.direct[k]} :: 0 <= k < 30 ==> ino.direct[k] == Field(d, a + 8 + 4 * k)
  {
    hide FromLe32, Signed, Field, IntField;
    var a, ino := s.inodeRegionAddr * 4096 + 128 * i, Load(s, d).inodes[i];
    var bs := d[a..a + 128];
    assert ino == DecodeInode(bs);
    assert bs[..4] == bs[0..0 + 4];
    FieldWithin(d, a, 128, 0);
    FieldWithin(d, a, 128, 4);
    FieldIs(d, a);
    FieldIs(d, a + 4);
    forall k | 0 <= k < 30
      ensures ino.direct[k] == Field(d, a + 8 + 4 * k)
    {
      FieldWithin(d, a, 128, 8 + 4 * k);
      FieldIs(d, a + 8 + 4 * k);
    }
  }

  // ---------- bitmaps ----------

  lemma {:induction false} HalvedTwice(v: nat, j: nat, k: nat)
    ensures Halved(v, j + k) == Halved(Halved(v, j), k)
  {
    if k > 0 {
      HalvedTwice(v, j, k - 1);
    }
  }

  function Doubled(v: nat, k: nat): nat {
    if k == 0 then v else 2 * Doubled(v, k - 1)
  }

  lemma {:induction false} HalvedSum(b: nat, rest: nat, k: nat, n: nat)
    requires k <= n
    ensures Halved(b + Doubled(rest, n), k) == Halved(b, k) + Doubled(rest, n - k)
    decreases k
  {
    if k > 0 {
      HalvedSum(b, rest, k - 1, n);
      assert Doubled(rest, n - k + 1) == 2 * Doubled(rest, n - k);
    }
  }

  lemma {:induction false} HalvedAway(b: nat, k: nat)
    requires b < Doubled(1, k)
    ensures Halved(b, k) == 0
  {
    if k > 0 {
      HalvedAway(b / 2, k - 1);
      HalvedFirst(b, k - 1);
    }
  }

  lemma Doubled8(v: nat)
    ensures Doubled(v, 8) == 256 * v
  {
    assert Doubled(v, 1) == 2 * v;
    assert Doubled(v, 2) == 4 * v;
    assert Doubled(v, 3) == 8 * v;
    assert Doubled(v, 4) == 16 * v;
    assert Doubled(v, 6) == 64 * v;
  }

  lemma NotDoubled(v: nat)
    ensures Doubled(v, 0) == v
  {
  }

  lemma DoubledEven(v: nat, k: nat)
    ensures Doubled(v, k + 1) == 2 * Doubled(v, k)
  {
  }

  // Halving a byte with others behind it.
  lemma ByteHalved(b: nat, rest: nat, k: nat)
    requires b < 256 && k <= 8
    ensures k < 8 ==> Halved(b + 256 * rest, k) % 2 == Halved(b, k) % 2
    ensures k == 8 ==> Halved(b + 256 * rest, k) == rest
  {
    hide Halved, Doubled;
    Doubled8(rest);
    Doubled8(1);
    HalvedSum(b, rest, k, 8);
    if k == 8 {
      HalvedAway(b, 8);
      NotDoubled(rest);
    } else {
      DoubledEven(rest, 7 - k);
    }
  }

  // Digit j of a word stands in byte 3 - j / 8, as its digit j % 8 from the highest on.
  lemma WordDigit(bs: seq<Byte>, j: nat)
    requires |bs| == 4 && j < 32
    ensures WordOfBytes(bs)[j] <==> Halved(bs[3 - j / 8], 7 - j % 8) % 2 == 1
  {
    hide Digits, Halved;
    var b0: nat, b1: nat, b2: nat, b3: nat := bs[0], bs[1], bs[2], bs[3];
    var v2 := b2 + 256 * b3;
    var v1 := b1 + 256 * v2;
    var v0 := b0 + 256 * v1;
    DigitIs(v0, 32, j);
    ByteHalved(b0, v1, 8);
    ByteHalved(b1, v2, 8);
    ByteHalved(b2, b3, 8);
    if j >= 24 {
      ByteHalved(b0, v1, 31 - j);
    } else if j >= 16 {
      HalvedTwice(v0, 8, 23 - j);
      ByteHalved(b1, v2, 23 - j);
    } else if j >= 8 {
      HalvedTwice(v0, 8, 23 - j);
      HalvedTwice(v1, 8, 15 - j);
      ByteHalved(b2, b3, 15 - j);
    } else {
      HalvedTwice(v0, 8, 23 - j);
      HalvedTwice(v1, 8, 15 - j);
      HalvedTwice(v2, 8, 7 - j);
    }
  }

  // Bit i of a bitmap at address a: in the byte that holds it bits 7, 6, ... 0 stand for ascending i, and the four
  // bytes of a word hold its first eight in the last.
  predicate BitAt(d: seq<Byte>, a: nat, i: nat)
    requires a + 4 * (i / 32) + 4 <= |d|
  {
    Halved(d[a + 4 * (i / 32) + 3 - i % 32 / 8], 7 - i % 8) % 2 == 1
  }

  lemma PlaceInByte(i: nat)
    ensures i % 32 % 8 == i % 8 && 0 <= 3 - i % 32 / 8 < 4
  {
  }

  lemma ByteOfSlice(d: seq<Byte>, a: nat, k: nat)
    requires a + 4 <= |d| && k < 4
    ensures Slice(d, a, 4)[k] == d[a + k]
  {
  }

  lemma BitOnDisk(d: seq<Byte>, a: nat, n: nat, i: nat)
    requires a + 4 * n <= |d| && i < 32 * n
    ensures Get(WordsAt(d, a, n), i) <==> BitAt(d, a, i)
  {
    hide WordOfBytes, Halved;
    var bs := Slice(d, a + 4 * (i / 32), 4);
    WordDigit(bs, i % 32);
    PlaceInByte(i);
    ByteOfSlice(d, a + 4 * (i / 32), 3 - i % 32 / 8);
  }

  // Both bitmaps that a mount loads.
  lemma BitmapsOnDisk(s: Super, d: seq<Byte>, i: nat)
    requires Layout(s, |d|)
    ensures i < s.numInodes ==>
      0 <= s.inodeBitmapAddr && s.inodeBitmapAddr * 4096 + 4 * (i / 32) + 4 <= |d|
      && (Get(Load(s, d).ibm, i) <==> BitAt(d, s.inodeBitmapAddr * 4096, i))
    ensures i < s.numData ==>
      0 <= s.dataBitmapAddr && s.dataBitmapAddr * 4096 + 4 * (i / 32) + 4 <= |d|
      && (Get(Load(s, d).dbm, i) <==> BitAt(d, s.dataBitmapAddr * 4096, i))
  {
    hide WordsAt, Get, InodesAt, BitAt;
    if i < s.numInodes {
      BitOnDisk(d, s.inodeBitmapAddr * 4096, BitmapWords(s.numInodes), i);
    }
    if i < s.numData {
      BitOnDisk(d, s.dataBitmapAddr * 4096, BitmapWords(s.numData), i);
    }
  }

  // ---------- directory entries ----------

  lemma {:induction false} NameBytes(bs: seq<Byte>)
    ensures var s := CString(bs);
      |s| <= |bs| && bs[..|s|] == s && (|s| < |bs| ==> bs[|s|] == 0)
    decreases |bs|
  {
    if bs != [] && bs[0] != 0 {
      NameBytes(bs[1..]);
    }
  }

  // An entry is the bytes of its name up to the first 0, and its inode number in bytes 28 to 31.
  lemma EntryOnDisk(bs: seq<Byte>)
    requires |bs| == 32
    ensures var e := DecodeEntry(bs);
      && e.inum == IntField(bs, 28)
      && |e.name| <= 32 && e.name == bs[..|e.name|] && (|e.name| < 32 ==> bs[|e.name|] == 0)
  {
    hide CString, FromLe32, IntField, Signed;
    NameBytes(bs);
    FieldIs(bs, 28);
    assert bs[28..] == bs[28..32];
  }

  // What is written for an entry, over the bytes junk.
  lemma EntryBytes(e: DirEnt, junk: seq<Byte>)
    requires |e.name| <= 27 && |junk| == 32
    ensures var bs := EncodeEntry(e, junk);
      && bs[..|e.name|] == e.name && bs[|e.name|] == 0
      && bs[|e.name| + 1..28] == junk[|e.name| + 1..28]
      && IntField(bs, 28) == e.inum
  {
    var bs := EncodeEntry(e, junk);
    assert bs[28..32] == Le32(Unsigned(e.inum));
    Le32RoundTrip(Unsigned(e.inum));
    FieldIs(bs, 28);
  }

  // What is written to mark an entry unused.
  lemma UnusedBytes(junk: seq<Byte>)
    requires |junk| == 32
    ensures var bs := EncodeUnused(junk);
      bs[..28] == junk[..28] && bs[28] == bs[29] == bs[30] == bs[31] == 255
  {
  }
}
