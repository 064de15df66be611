// The text of __int_str, character by character.

module IntStrChars {
  import opened IntStr

  // The digit of v at place k, counted from the right.
  function DigitAt(v: nat, radix: nat, k: nat): (d: nat)
    requires radix > 0
    ensures d < radix
    decreases k
  {
    if k == 0 then v % radix else DigitAt(v / radix, radix, k - 1)
  }

  // What is left of v without its last n digits.
  function Leading(v: nat, radix: nat, n: nat): nat
    requires radix > 0
    decreases n
  {
    if n == 0 then v else Leading(v / radix, radix, n - 1)
  }

  lemma TableIs(base: int, d: nat)
    requires BaseOK(base) && d < Radix(base)
    ensures Radix(base) == if base == 8 then 8 else if base == 10 then 10 else 16
    ensures Table(base)[d] == (if base == 17 then "0123456789abcdef" else "0123456789ABCDEF")[d]
  {
  }

  // A numeral is the numeral of all digits but the last, with that digit behind.
  lemma LastChar(v: nat, base: int) returns (front: string)
    requires BaseOK(base)
    ensures Numeral(v, base) == front + [Table(base)[v % Radix(base)]]
    ensures front == if v < Radix(base) then "" else Numeral(v / Radix(base), base)
  {
    hide Table;
    front := if v < Radix(base) then "" else Numeral(v / Radix(base), base);
  }

  lemma {:induction false} CharAt(v: nat, base: int, k: nat)
    requires BaseOK(base) && k < |Numeral(v, base)|
    ensures Numeral(v, base)[|Numeral(v, base)| - 1 - k] == Table(base)[DigitAt(v, Radix(base), k)]
    decreases k
  {
    hide Table, Numeral, Radix;
    var front := LastChar(v, base);
    if k > 0 {
      CharAt(v / Radix(base), base, k - 1);
    }
  }

  // Nothing is left out, and there is no zero in front.
  lemma {:induction false} AllDigits(v: nat, base: int)
    requires BaseOK(base)
    ensures Leading(v, Radix(base), |Numeral(v, base)|) == 0
    ensures |Numeral(v, base)| == 1 || DigitAt(v, Radix(base), |Numeral(v, base)| - 1) != 0
    decreases v
  {
    hide Table, Numeral;
    var front := LastChar(v, base);
    if v >= Radix(base) {
      AllDigits(v / Radix(base), base);
    }
  }

  // The digits of v in base 8, 10 or 16, in upper or lower case, all of them and no zero before them.
  lemma NumeralChars(v: nat, base: int)
    requires BaseOK(base)
    ensures var s, radix := Numeral(v, base), if base == 8 then 8 else if base == 10 then 10 else 16;
      && (forall k :: 0 <= k < |s| ==>
            s[|s| - 1 - k] == (if base == 17 then "0123456789abcdef" else "0123456789ABCDEF")[DigitAt(v, radix, k)])
      && Leading(v, radix, |s|) == 0
      && (|s| == 1 || DigitAt(v, radix, |s| - 1) != 0)
  {
    hide Table, Numeral, Leading, DigitAt;
    AllDigits(v, base);
    TableIs(base, 0);
    forall k: nat | k < |Numeral(v, base)|
      ensures Numeral(v, base)[|Numeral(v, base)| - 1 - k]
              == (if base == 17 then "0123456789abcdef" else "0123456789ABCDEF")[DigitAt(v, Radix(base), k)]
    {
      CharAt(v, base, k);
      TableIs(base, DigitAt(v, Radix(base), k));
    }
  }

  lemma {:induction false} StartsWithDigit(v: nat, base: int)
    requires BaseOK(base)
    ensures Numeral(v, base)[0] !in {' ', '+', '-'} && DigitOf(Numeral(v, base)[0]) < Radix(base)
    decreases v
  {
    hide Table, DigitOf;
    TableDigit(base, v % Radix(base));
    if v >= Radix(base) {
      StartsWithDigit(v / Radix(base), base);
    }
  }

  // How many characters come before the digits, and how many are filled in.
  function SignWidth(i: int, plusSign: bool, spaceSign: bool): nat {
    if i < 0 || plusSign || spaceSign then 1 else 0
  }

  function Filled(width: int, n: nat): nat {
    if width > n then width - n else 0
  }

  lemma BodyChars(i: int, base: int, plusSign: bool, spaceSign: bool)
    requires BaseOK(base)
    ensures var num, n := Numeral(if i < 0 then -i else i, base), SignWidth(i, plusSign, spaceSign);
      var body := Body(i, base, plusSign, spaceSign);
      && |body| == n + |num| && body[n..] == num
      && (n == 1 ==> body[0] == if i < 0 then '-' else if plusSign then '+' else ' ')
  {
    hide Numeral;
  }

  // Every character of the text: the padding on the side asked for, then '-' for a negative number, '+' or ' ' for
  // another when asked for, '+' when both are, then the digits.
  lemma TextChars(i: int, base: int, plusSign: bool, spaceSign: bool, width: int, justify: bool, zeroPad: bool)
    requires BaseOK(base)
    ensures
      var num, n := Numeral(if i < 0 then -i else i, base), SignWidth(i, plusSign, spaceSign);
      var t, pad := Text(i, base, plusSign, spaceSign, width, justify, zeroPad), Filled(width, n + |num|);
      var at := if justify then 0 else pad;
      && |t| == n + |num| + pad
      && (forall k :: 0 <= k < at || at + n + |num| <= k < |t| ==> t[k] == if zeroPad then '0' else ' ')
      && (n == 1 ==> t[at] == if i < 0 then '-' else if plusSign then '+' else ' ')
      && t[at + n..at + n + |num|] == num
  {
    hide Numeral, Body, SignWidth;
    BodyChars(i, base, plusSign, spaceSign);
    var t, body := Text(i, base, plusSign, spaceSign, width, justify, zeroPad), Body(i, base, plusSign, spaceSign);
    var at := if justify then 0 else Filled(width, |body|);
    assert t[at..at + |body|] == body;
    assert t[at + SignWidth(i, plusSign, spaceSign)..at + |body|] == body[SignWidth(i, plusSign, spaceSign)..];
  }

  // The first character of a text that is not padded.
  lemma TextStarts(i: int, base: int, plusSign: bool, spaceSign: bool, width: int, justify: bool, zeroPad: bool)
    requires BaseOK(base) && width <= 0
    ensures var t := Text(i, base, plusSign, spaceSign, width, justify, zeroPad);
      && |t| > 0
      && (t[0] == '-' <==> i < 0)
      && (t[0] == '+' <==> i >= 0 && plusSign)
      && (t[0] == ' ' <==> i >= 0 && !plusSign && spaceSign)
      && (i >= 0 && !plusSign && !spaceSign ==> DigitOf(t[0]) < Radix(base))
  {
    hide Numeral, DigitOf;
    var v := if i < 0 then -i else i;
    TextChars(i, base, plusSign, spaceSign, width, justify, zeroPad);
    StartsWithDigit(v, base);
  }
}
