// Bytes, little-endian fields, and the disk as a sequence of bytes changed by a log of writes.

module Bytes {
  import opened Bits

  type Byte = x: int | 0 <= x < 256
  type U32 = x: int | 0 <= x < 0x1_0000_0000
  type I32 = x: int | -0x8000_0000 <= x < 0x8000_0000

  const BLOCK: nat := 4096

  // ---------- little-endian 32-bit fields ----------

  function Le32(x: U32): (bs: seq<Byte>)
    ensures |bs| == 4
  {
    [x % 256, x / 256 % 256, x / 256 / 256 % 256, x / 256 / 256 / 256]
  }

  function FromLe32(bs: seq<Byte>): U32
    requires |bs| == 4
  {
    var b0: int, b1: int, b2: int, b3: int := bs[0], bs[1], bs[2], bs[3];
    b0 + 256 * (b1 + 256 * (b2 + 256 * b3))
  }

  lemma Le32RoundTrip(x: U32)
    ensures FromLe32(Le32(x)) == x
  {
  }

  // Two's complement: how an int field is stored, and how 32 bits are read as an int.
  function Unsigned(x: I32): U32 {
    if x < 0 then x + 0x1_0000_0000 else x
  }

  function Signed(x: U32): I32 {
    if x < 0x8000_0000 then x else x - 0x1_0000_0000
  }

  // int arithmetic wraps at 32 bits.
  function Wrap(x: int): I32 {
    Signed(x % 0x1_0000_0000)
  }

  // ---------- bitmap words as bytes ----------

  // The number whose binary digits are b, most significant first.
  function Value(b: seq<bool>): nat {
    if b == [] then 0 else 2 * Value(b[..|b| - 1]) + (if b[|b| - 1] then 1 else 0)
  }

  function Digits(v: nat, n: nat): (b: seq<bool>)
    ensures |b| == n
  {
    if n == 0 then [] else Digits(v / 2, n - 1) + [v % 2 == 1]
  }

  function Pow2(n: nat): (r: nat)
    ensures r > 0
  {
    if n == 0 then 1 else 2 * Pow2(n - 1)
  }

  lemma {:induction false} ValueBound(b: seq<bool>)
    ensures Value(b) < Pow2(|b|)
  {
    if b != [] {
      ValueBound(b[..|b| - 1]);
    }
  }

  lemma WordValue(w: Word)
    ensures Value(w) < 0x1_0000_0000
  {
    ValueBound(w);
    assert Pow2(4) == 0x10;
    assert Pow2(8) == 0x100;
    assert Pow2(12) == 0x1000;
    assert Pow2(16) == 0x1_0000;
    assert Pow2(20) == 0x10_0000;
    assert Pow2(24) == 0x100_0000;
    assert Pow2(28) == 0x1000_0000;
    assert Pow2(32) == 0x1_0000_0000;
  }

  lemma {:induction false} DigitsOfValue(b: seq<bool>)
    ensures Digits(Value(b), |b|) == b
  {
    if b != [] {
      DigitsOfValue(b[..|b| - 1]);
    }
  }

  // v halved k times.
  function Halved(v: nat, k: nat): nat {
    if k == 0 then v else Halved(v, k - 1) / 2
  }

  lemma {:induction false} HalvedFirst(v: nat, k: nat)
    ensures Halved(v / 2, k) == Halved(v, k + 1)
  {
    if k == 0 {
      assert Halved(v, 1) == Halved(v, 0) / 2;
    } else {
      HalvedFirst(v, k - 1);
    }
  }

  lemma {:induction false} DigitIs(v: nat, n: nat, j: nat)
    requires j < n
    ensures Digits(v, n)[j] <==> Halved(v, n - 1 - j) % 2 == 1
    decreases n
  {
    if j < n - 1 {
      DigitIs(v / 2, n - 1, j);
      HalvedFirst(v, n - 2 - j);
    }
  }

  // Bit i of a bitmap as C selects it: 1 << (31 - i) in word i / 32.
  lemma GetInWord(ws: seq<Word>, i: nat)
    requires i < 32 * |ws|
    ensures Get(ws, i) <==> Halved(Value(ws[i / 32]), 31 - i % 32) % 2 == 1
  {
    DigitsOfValue(ws[i / 32]);
    DigitIs(Value(ws[i / 32]), 32, i % 32);
  }

  function WordBytes(w: Word): (bs: seq<Byte>)
    ensures |bs| == 4
  {
    WordValue(w);
    Le32(Value(w))
  }

  function WordOfBytes(bs: seq<Byte>): Word
    requires |bs| == 4
  {
    Digits(FromLe32(bs), WORD_BITS)
  }

  lemma WordRoundTrip(w: Word)
    ensures WordOfBytes(WordBytes(w)) == w
  {
    WordValue(w);
    Le32RoundTrip(Value(w));
    DigitsOfValue(w);
  }

  // ---------- slices and splices ----------

  function Slice(d: seq<Byte>, a: nat, n: nat): (r: seq<Byte>)
    requires a + n <= |d|
    ensures |r| == n
  {
    d[a..a + n]
  }

  function Splice(d: seq<Byte>, a: nat, bs: seq<Byte>): (r: seq<Byte>)
    requires a + |bs| <= |d|
    ensures |r| == |d|
    ensures forall k :: 0 <= k < |d| ==> r[k] == if a <= k < a + |bs| then bs[k - a] else d[k]
  {
    d[..a] + bs + d[a + |bs|..]
  }

  lemma SliceOfSplice(d: seq<Byte>, a: nat, bs: seq<Byte>)
    requires a + |bs| <= |d|
    ensures Slice(Splice(d, a, bs), a, |bs|) == bs
  {
  }

  lemma SliceBesideSplice(d: seq<Byte>, a: nat, bs: seq<Byte>, b: nat, n: nat)
    requires a + |bs| <= |d| && b + n <= |d|
    requires b + n <= a || a + |bs| <= b
    ensures Slice(Splice(d, a, bs), b, n) == Slice(d, b, n)
  {
  }

  // ---------- blocks ----------

  predicate HasBlock(d: seq<Byte>, b: nat) {
    (b + 1) * BLOCK <= |d|
  }

  function Block(d: seq<Byte>, b: nat): (r: seq<Byte>)
    requires HasBlock(d, b)
    ensures |r| == BLOCK
  {
    d[b * BLOCK..(b + 1) * BLOCK]
  }

  // What a block reads after a write inside it.
  lemma BlockOfSplice(d: seq<Byte>, b: nat, off: nat, bs: seq<Byte>)
    requires HasBlock(d, b) && off + |bs| <= BLOCK
    ensures Block(Splice(d, b * BLOCK + off, bs), b) == Splice(Block(d, b), off, bs)
  {
  }

  // ---------- the write log ----------

  datatype DiskWrite = DiskWrite(addr: nat, bytes: seq<Byte>)

  predicate Inside(log: seq<DiskWrite>, lo: nat, hi: nat) {
    forall w :: w in log ==> lo <= w.addr && w.addr + |w.bytes| <= hi
  }

  // The disk after the writes of the log, in order.
  function Apply(d: seq<Byte>, log: seq<DiskWrite>): (r: seq<Byte>)
    requires Inside(log, 0, |d|)
    ensures |r| == |d|
  {
    if log == [] then d
    else
      var w := log[|log| - 1];
      assert forall v :: v in log[..|log| - 1] ==> v in log;
      Splice(Apply(d, log[..|log| - 1]), w.addr, w.bytes)
  }

  lemma ApplyOne(d: seq<Byte>, log: seq<DiskWrite>, w: DiskWrite)
    requires Inside(log, 0, |d|) && w.addr + |w.bytes| <= |d|
    ensures Inside(log + [w], 0, |d|)
    ensures Apply(d, log + [w]) == Splice(Apply(d, log), w.addr, w.bytes)
  {
    assert (log + [w])[..|log|] == log;
  }

  lemma ApplyNone(d: seq<Byte>)
    ensures Inside([], 0, |d|) && Apply(d, []) == d
  {
  }

  lemma InsideBoth(a: seq<DiskWrite>, b: seq<DiskWrite>, size: nat)
    requires Inside(a, 0, size) && Inside(b, 0, size)
    ensures Inside(a + b, 0, size)
  {
  }

  lemma InsideSplit(b: seq<DiskWrite>, size: nat)
    requires b != [] && Inside(b, 0, size)
    ensures Inside(b[..|b| - 1], 0, size) && b[|b| - 1].addr + |b[|b| - 1].bytes| <= size
  {
    assert b[|b| - 1] in b;
    assert forall v :: v in b[..|b| - 1] ==> v in b;
  }

  lemma {:induction false} ApplyAppend(d: seq<Byte>, a: seq<DiskWrite>, b: seq<DiskWrite>)
    requires Inside(a, 0, |d|) && Inside(b, 0, |d|)
    ensures Inside(a + b, 0, |d|)
    ensures Apply(d, a + b) == Apply(Apply(d, a), b)
    decreases |b|
  {
    hide Splice, Apply, Inside;
    InsideBoth(a, b, |d|);
    if b == [] {
      assert a + b == a;
      ApplyNone(Apply(d, a));
    } else {
      var c, w := b[..|b| - 1], b[|b| - 1];
      InsideSplit(b, |d|);
      ApplyAppend(d, a, c);
      ApplyOne(d, a + c, w);
      ApplyOne(Apply(d, a), c, w);
      assert b == c + [w] && a + b == (a + c) + [w];
    }
  }

  // Writes that stay inside lo..hi leave every byte outside it alone.
  lemma {:induction false} ApplyOutside(d: seq<Byte>, log: seq<DiskWrite>, lo: nat, hi: nat)
    requires Inside(log, lo, hi) && hi <= |d|
    ensures forall k :: 0 <= k < |d| && !(lo <= k < hi) ==> Apply(d, log)[k] == d[k]
    decreases |log|
  {
    if log != [] {
      var c, w := log[..|log| - 1], log[|log| - 1];
      assert w in log;
      assert forall v :: v in c ==> v in log;
      ApplyOutside(d, c, lo, hi);
    }
  }
}
