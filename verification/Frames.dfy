// The frame bitmap of the page frame allocator, which counts bits from the least significant one.

module Frames {
  import opened Bits
  import opened Bytes

  // Where the bit of frame f is: bit f % 32 of its word, counted from the other end.
  function FrameBit(f: nat): (i: nat)
    ensures i / WORD_BITS == f / WORD_BITS && i % WORD_BITS == 31 - f % WORD_BITS
  {
    f / WORD_BITS * WORD_BITS + (31 - f % WORD_BITS)
  }

  // Distinct frames have distinct bits.
  lemma FrameBitTwice(f: nat)
    ensures FrameBit(FrameBit(f)) == f
  {
  }

  predicate Used(ws: seq<Word>, f: nat)
    requires f < WORD_BITS * |ws|
  {
    Get(ws, FrameBit(f))
  }

  // As C selects it: 1 << f % 32 in word f / 32.
  lemma UsedInWord(ws: seq<Word>, f: nat)
    requires f < 32 * |ws|
    ensures Used(ws, f) <==> Halved(Value(ws[f / 32]), f % 32) % 2 == 1
  {
    GetInWord(ws, FrameBit(f));
  }

  // Setting and clearing bits inserts into and removes from the set of used frames.
  function Use(ws: seq<Word>, f: nat): (r: seq<Word>)
    requires f < WORD_BITS * |ws|
    ensures |r| == |ws|
    ensures forall g :: 0 <= g < WORD_BITS * |ws| ==> Used(r, g) == (g == f || Used(ws, g))
  {
    assert forall g: nat :: FrameBit(g) == FrameBit(f) ==> g == f by {
      forall g: nat | FrameBit(g) == FrameBit(f)
        ensures g == f
      {
        FrameBitTwice(g);
        FrameBitTwice(f);
      }
    }
    Set(ws, FrameBit(f))
  }

  function Unuse(ws: seq<Word>, f: nat): (r: seq<Word>)
    requires f < WORD_BITS * |ws|
    ensures |r| == |ws|
    ensures forall g :: 0 <= g < WORD_BITS * |ws| ==> Used(r, g) == (g != f && Used(ws, g))
  {
    assert forall g: nat :: FrameBit(g) == FrameBit(f) ==> g == f by {
      forall g: nat | FrameBit(g) == FrameBit(f)
        ensures g == f
      {
        FrameBitTwice(g);
        FrameBitTwice(f);
      }
    }
    Reset(ws, FrameBit(f))
  }

  // Binary digit j of a number.
  predicate BitOf(a: nat, j: nat) {
    a / Pow2(j) % 2 == 1
  }

  // The bitmap with the first n binary digits of a from frame f on, as far as it reaches.
  function Overlaid(ws: seq<Word>, f: nat, a: nat, n: nat): (r: seq<Word>)
    ensures |r| == |ws|
    ensures forall g :: 0 <= g < WORD_BITS * |ws| ==>
      Used(r, g) == if f <= g < f + n then BitOf(a, g - f) else Used(ws, g)
  {
    if n == 0 then ws
    else
      var r := Overlaid(ws, f, a, n - 1);
      var g := f + n - 1;
      if g >= WORD_BITS * |ws| then r else if BitOf(a, n - 1) then Use(r, g) else Unuse(r, g)
  }

  // How many of the first n frames are unused.
  function CountUnused(ws: seq<Word>, n: nat): (r: nat)
    requires n <= WORD_BITS * |ws|
    ensures r == 0 <==> forall f :: 0 <= f < n ==> Used(ws, f)
  {
    if n == 0 then 0 else CountUnused(ws, n - 1) + if Used(ws, n - 1) then 0 else 1
  }

  lemma {:induction false} CountSame(ws: seq<Word>, vs: seq<Word>, n: nat)
    requires |ws| == |vs| && n <= WORD_BITS * |ws|
    requires forall f :: 0 <= f < n ==> Used(ws, f) == Used(vs, f)
    ensures CountUnused(ws, n) == CountUnused(vs, n)
  {
    hide Used;
    if n > 0 {
      CountSame(ws, vs, n - 1);
    }
  }

  lemma {:induction false} CountAfterUse(ws: seq<Word>, f: nat, n: nat)
    requires f < n <= WORD_BITS * |ws| && !Used(ws, f)
    ensures CountUnused(Use(ws, f), n) + 1 == CountUnused(ws, n)
  {
    hide Used, BitOf;
    if f == n - 1 {
      CountSame(ws, Use(ws, f), n - 1);
    } else {
      CountAfterUse(ws, f, n - 1);
    }
  }

  // The least unused frame from f on, or -1.
  function FirstUnused(ws: seq<Word>, f: nat): (r: int)
    requires f <= WORD_BITS * |ws|
    ensures r == -1 || f <= r < WORD_BITS * |ws|
    ensures r == -1 ==> forall g :: f <= g < WORD_BITS * |ws| ==> Used(ws, g)
    ensures r != -1 ==> !Used(ws, r) && forall g :: f <= g < r ==> Used(ws, g)
    decreases WORD_BITS * |ws| - f
  {
    if f == WORD_BITS * |ws| then -1
    else if !Used(ws, f) then f
    else FirstUnused(ws, f + 1)
  }

  lemma UnusedOrNot(ws: seq<Word>, f: nat)
    requires f < WORD_BITS * |ws|
    ensures FirstUnused(ws, f) == if Used(ws, f) then FirstUnused(ws, f + 1) else f
  {
    hide Used;
  }

  lemma UnusedStep(ws: seq<Word>, i: nat, j: nat)
    requires i < |ws| && j < WORD_BITS
    ensures FirstUnused(ws, i * WORD_BITS + j) ==
            if ws[i][31 - j] then FirstUnused(ws, i * WORD_BITS + j + 1) else i * WORD_BITS + j
  {
    hide FirstUnused;
    var f := i * WORD_BITS + j;
    assert f / WORD_BITS == i && f % WORD_BITS == j;
    UnusedOrNot(ws, f);
  }

  lemma NoneUnused(ws: seq<Word>)
    ensures FirstUnused(ws, |ws| * WORD_BITS) == -1
  {
  }

  // A word with every bit set holds no unused frame.
  lemma {:induction false} FullWord(ws: seq<Word>, i: nat, j: nat)
    requires i < |ws| && j <= WORD_BITS && ws[i] == Ones()
    ensures FirstUnused(ws, i * WORD_BITS + j) == FirstUnused(ws, (i + 1) * WORD_BITS)
    decreases WORD_BITS - j
  {
    if j < WORD_BITS {
      UnusedStep(ws, i, j);
      FullWord(ws, i, j + 1);
    }
  }

  // first_frame: whole words that are full are passed over, then the first clear bit is taken.
  method FirstFrame(frames: array<Word>) returns (r: int)
    ensures r == FirstUnused(frames[..], 0)
  {
    hide FirstUnused;
    var i := 0;
    while i < frames.Length
      invariant i <= frames.Length && FirstUnused(frames[..], i * WORD_BITS) == FirstUnused(frames[..], 0)
    {
      if frames[i] != Ones() {
        var j := 0;
        while j < WORD_BITS
          invariant j <= WORD_BITS && FirstUnused(frames[..], i * WORD_BITS + j) == FirstUnused(frames[..], 0)
        {
          UnusedStep(frames[..], i, j);
          if !frames[i][31 - j] {
            return i * WORD_BITS + j;
          }
          j := j + 1;
        }
      } else {
        FullWord(frames[..], i, 0);
      }
      i := i + 1;
    }
    NoneUnused(frames[..]);
    r := -1;
  }
}
