// Bitmaps of 32-bit words, as the inode, data and frame allocators use them.

module Bits {
  const WORD_BITS: nat := 32

  // A machine word, written out as its bits with the most significant one first.  The C expression
  // "1 << (31 - i)" selects element i % 32 of this sequence (the machine takes a shift count modulo 32).
  type Word = w: seq<bool> | |w| == WORD_BITS witness seq(WORD_BITS, _ => false)

  function Zero(): Word {
    seq(WORD_BITS, _ => false)
  }

  function Ones(): Word {
    seq(WORD_BITS, _ => true)
  }

  predicate Get(ws: seq<Word>, i: nat)
    requires i < WORD_BITS * |ws|
  {
    ws[i / WORD_BITS][i % WORD_BITS]
  }

  function Put(ws: seq<Word>, i: nat, on: bool): (r: seq<Word>)
    requires i < WORD_BITS * |ws|
    ensures |r| == |ws|
    ensures forall j :: 0 <= j < WORD_BITS * |ws| ==> Get(r, j) == if j == i then on else Get(ws, j)
  {
    ws[i / WORD_BITS := ws[i / WORD_BITS][i % WORD_BITS := on]]
  }

  function Set(ws: seq<Word>, i: nat): (r: seq<Word>)
    requires i < WORD_BITS * |ws|
    ensures |r| == |ws|
    ensures forall j :: 0 <= j < WORD_BITS * |ws| ==> Get(r, j) == (j == i || Get(ws, j))
  {
    Put(ws, i, true)
  }

  function Reset(ws: seq<Word>, i: nat): (r: seq<Word>)
    requires i < WORD_BITS * |ws|
    ensures |r| == |ws|
    ensures forall j :: 0 <= j < WORD_BITS * |ws| ==> Get(r, j) == (j != i && Get(ws, j))
  {
    Put(ws, i, false)
  }

  // Two bitmaps of the same size with the same bits are the same words.
  lemma SameBits(ws: seq<Word>, vs: seq<Word>)
    requires |ws| == |vs|
    requires forall i :: 0 <= i < WORD_BITS * |ws| ==> Get(ws, i) == Get(vs, i)
    ensures ws == vs
  {
    forall k | 0 <= k < |ws|
      ensures ws[k] == vs[k]
    {
      forall b | 0 <= b < WORD_BITS
        ensures ws[k][b] == vs[k][b]
      {
        assert Get(ws, WORD_BITS * k + b) == Get(vs, WORD_BITS * k + b);
      }
    }
  }

  // The least clear index in from..n, or -1 when every bit there is set.
  function FirstClear(ws: seq<Word>, from: nat, n: nat): (r: int)
    requires from <= n <= WORD_BITS * |ws|
    ensures r == -1 || from <= r < n
    ensures r == -1 ==> forall j :: from <= j < n ==> Get(ws, j)
    ensures r != -1 ==> !Get(ws, r) && forall j :: from <= j < r ==> Get(ws, j)
    decreases n - from
  {
    if from == n then -1
    else if !Get(ws, from) then from
    else FirstClear(ws, from + 1, n)
  }

  // The second clear bit, which creat looks for along with the first.
  function SecondClear(ws: seq<Word>, n: nat): (r: int)
    requires n <= WORD_BITS * |ws|
    ensures -1 <= r < n
    ensures r != -1 ==> !Get(ws, r) && r != FirstClear(ws, 0, n)
  {
    var b := FirstClear(ws, 0, n);
    if b == -1 then -1 else FirstClear(ws, b + 1, n)
  }

  method SetBitmap(b: array<Word>, i: nat)
    requires i < WORD_BITS * b.Length
    modifies b
    ensures b[..] == Set(old(b[..]), i)
  {
    b[i / WORD_BITS] := b[i / WORD_BITS][i % WORD_BITS := true];
  }

  method ResetBitmap(b: array<Word>, i: nat)
    requires i < WORD_BITS * b.Length
    modifies b
    ensures b[..] == Reset(old(b[..]), i)
  {
    b[i / WORD_BITS] := b[i / WORD_BITS][i % WORD_BITS := false];
  }

  predicate GetBitmap(b: array<Word>, i: nat)
    requires i < WORD_BITS * b.Length
    reads b
    ensures GetBitmap(b, i) == Get(b[..], i)
  {
    b[i / WORD_BITS][i % WORD_BITS]
  }
}
