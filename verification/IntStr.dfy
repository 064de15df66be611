// __int_str of printf: an integer as text, and what reading that text back gives.

module IntStr {
  // ---------- numerals ----------

  // The bases printf asks for; 17 stands for base 16 in lower case.
  predicate BaseOK(base: int) {
    base == 8 || base == 10 || base == 16 || base == 17
  }

  function Radix(base: int): (r: nat)
    requires BaseOK(base)
    ensures 8 <= r <= 16
  {
    if base == 17 then 16 else base
  }

  // The characters of the digits.
  function Table(base: int): (digit: string)
    requires BaseOK(base)
    ensures |digit| >= Radix(base)
  {
    "0123456789" + if base == 16 then "ABCDEF" else if base == 17 then "abcdef" else ""
  }

  // Most significant digit first, and at least one.
  function Numeral(v: nat, base: int): (s: string)
    requires BaseOK(base)
    ensures |s| > 0
    decreases v
  {
    (if v < Radix(base) then [] else Numeral(v / Radix(base), base)) + [Table(base)[v % Radix(base)]]
  }

  // ---------- the text ----------

  function Sign(i: int, plusSign: bool, spaceSign: bool): string {
    if i < 0 then "-" else if plusSign then "+" else if spaceSign then " " else ""
  }

  function Abs(i: int): nat {
    if i < 0 then -i else i
  }

  function Body(i: int, base: int, plusSign: bool, spaceSign: bool): string
    requires BaseOK(base)
  {
    Sign(i, plusSign, spaceSign) + Numeral(Abs(i), base)
  }

  function Fill(n: int, zeroPad: bool): (s: string)
    ensures |s| == if n < 0 then 0 else n
  {
    seq(if n < 0 then 0 else n, _ => if zeroPad then '0' else ' ')
  }

  // What ends up in the buffer.
  function Text(i: int, base: int, plusSign: bool, spaceSign: bool, width: int, justify: bool,
          zeroPad: bool): (s: string)
    requires BaseOK(base)
  {
    var body := Body(i, base, plusSign, spaceSign);
    var fill := Fill(width - |body|, zeroPad);
    if justify then body + fill else fill + body
  }

  // The text is as long as the field, or as its sign and digits if they are longer.
  lemma TextLength(i: int, base: int, plusSign: bool, spaceSign: bool, width: int, justify: bool, zeroPad: bool)
    requires BaseOK(base)
    ensures var n := |Body(i, base, plusSign, spaceSign)|;
      |Text(i, base, plusSign, spaceSign, width, justify, zeroPad)| == if width > n then width else n
  {
  }

  // ---------- reading a numeral back ----------

  // The digit a character stands for, or 99.
  function DigitOf(c: char): nat {
    if '0' <= c <= '9' then c as int - '0' as int
    else if 'A' <= c <= 'F' then c as int - 'A' as int + 10
    else if 'a' <= c <= 'f' then c as int - 'a' as int + 10
    else 99
  }

  // The number the digits at the start of s add to acc, up to the first character that is none.
  function ReadDigits(s: string, base: int, acc: nat): nat
    requires BaseOK(base)
    decreases |s|
  {
    if s == [] || DigitOf(s[0]) >= Radix(base) then acc
    else ReadDigits(s[1..], base, acc * Radix(base) + DigitOf(s[0]))
  }

  // Leading spaces, at most one sign, and digits, as section 7.22.1.4 of C11 describes the subject of strtol.
  function ReadInt(s: string, base: int): int
    requires BaseOK(base)
    decreases |s|
  {
    if s == [] then 0
    else if s[0] == ' ' then ReadInt(s[1..], base)
    else if s[0] == '-' then -(ReadDigits(s[1..], base, 0) as int)
    else if s[0] == '+' then ReadDigits(s[1..], base, 0)
    else ReadDigits(s, base, 0)
  }

  lemma TableDigit(base: int, d: nat)
    requires BaseOK(base) && d < Radix(base)
    ensures DigitOf(Table(base)[d]) == d
    ensures Table(base)[d] != ' ' && Table(base)[d] != '-' && Table(base)[d] != '+' && Table(base)[d] != '\0'
  {
  }

  lemma ReadOne(base: int, d: nat, rest: string, acc: nat)
    requires BaseOK(base) && d < Radix(base)
    ensures ReadDigits([Table(base)[d]] + rest, base, acc) == ReadDigits(rest, base, acc * Radix(base) + d)
  {
    hide Table, DigitOf;
    TableDigit(base, d);
    assert ([Table(base)[d]] + rest)[1..] == rest;
  }

  lemma NumeralStep(v: nat, base: int, rest: string)
    requires BaseOK(base)
    ensures v < Radix(base) ==> Numeral(v, base) + rest == [Table(base)[v % Radix(base)]] + rest
    ensures v >= Radix(base) ==>
      Numeral(v, base) + rest == Numeral(v / Radix(base), base) + ([Table(base)[v % Radix(base)]] + rest)
  {
    hide Table;
  }

  lemma DivMod(v: nat, r: nat)
    requires r > 0
    ensures v / r * r + v % r == v
  {
  }

  lemma {:induction false} ReadNumeral(v: nat, base: int, rest: string)
    requires BaseOK(base)
    ensures ReadDigits(Numeral(v, base) + rest, base, 0) == ReadDigits(rest, base, v)
    decreases v
  {
    hide Table, DigitOf, ReadDigits, Numeral;
    var r := Radix(base);
    NumeralStep(v, base, rest);
    if v < r {
      ReadOne(base, v, rest, 0);
    } else {
      ReadNumeral(v / r, base, [Table(base)[v % r]] + rest);
      ReadOne(base, v % r, rest, v / r);
      DivMod(v, r);
    }
  }

  lemma {:induction false} NumeralStarts(v: nat, base: int)
    requires BaseOK(base)
    ensures Numeral(v, base)[0] != ' ' && Numeral(v, base)[0] != '-' && Numeral(v, base)[0] != '+'
    decreases v
  {
    hide Table;
    TableDigit(base, v % Radix(base));
    if v >= Radix(base) {
      NumeralStarts(v / Radix(base), base);
    }
  }

  // Sign and digits, then anything.
  lemma ReadBody(i: int, base: int, plusSign: bool, spaceSign: bool, rest: string)
    requires BaseOK(base)
    ensures ReadInt(Body(i, base, plusSign, spaceSign) + rest, base) ==
            if i < 0 then -(ReadDigits(rest, base, Abs(i)) as int) else ReadDigits(rest, base, Abs(i))
  {
    hide Numeral, ReadDigits;
    var sign, num := Sign(i, plusSign, spaceSign), Numeral(Abs(i), base);
    NumeralStarts(Abs(i), base);
    ReadNumeral(Abs(i), base, rest);
    if sign == "" {
      assert sign + num + rest == num + rest;
    } else {
      assert (sign + num + rest)[1..] == num + rest;
    }
  }

  lemma {:induction false} ReadSpaces(n: nat, s: string, base: int)
    requires BaseOK(base)
    ensures ReadInt(Fill(n, false) + s, base) == ReadInt(s, base)
    decreases n
  {
    if n == 0 {
      assert Fill(0, false) + s == s;
    } else {
      assert (Fill(n, false) + s)[1..] == Fill(n - 1, false) + s;
      ReadSpaces(n - 1, s, base);
    }
  }

  lemma {:induction false} ReadZerosFirst(n: nat, s: string, base: int)
    requires BaseOK(base)
    ensures ReadDigits(Fill(n, true) + s, base, 0) == ReadDigits(s, base, 0)
    decreases n
  {
    if n == 0 {
      assert Fill(0, true) + s == s;
    } else {
      assert (Fill(n, true) + s)[1..] == Fill(n - 1, true) + s;
      ReadZerosFirst(n - 1, s, base);
    }
  }

  lemma {:induction false} ReadZerosLast(n: nat, base: int, acc: nat)
    requires BaseOK(base)
    ensures ReadDigits(Fill(n, true), base, acc) >= acc
    ensures ReadDigits(Fill(n, true), base, acc) == acc <==> n == 0 || acc == 0
    decreases n
  {
    if n > 0 {
      assert Fill(n, true)[1..] == Fill(n - 1, true);
      ReadZerosLast(n - 1, base, acc * Radix(base));
      assert acc * Radix(base) >= acc * 8;
    }
  }

  // Behind the digits: spaces end them, zeros make the number larger unless it is 0.
  lemma ReadRight(i: int, base: int, plusSign: bool, spaceSign: bool, n: nat, zeroPad: bool)
    requires BaseOK(base)
    ensures ReadInt(Body(i, base, plusSign, spaceSign) + Fill(n, zeroPad), base) == i <==> !zeroPad || n == 0 || i == 0
  {
    hide Body, ReadInt;
    ReadBody(i, base, plusSign, spaceSign, Fill(n, zeroPad));
    if zeroPad && n > 0 {
      ReadZerosLast(n, base, Abs(i));
    }
  }

  // Before the sign and the digits: spaces are skipped, and zeros hide a sign.
  lemma ReadLeft(i: int, base: int, plusSign: bool, spaceSign: bool, n: nat, zeroPad: bool)
    requires BaseOK(base)
    ensures ReadInt(Fill(n, zeroPad) + Body(i, base, plusSign, spaceSign), base) == i
            <==> !zeroPad || n == 0 || i == 0 || Sign(i, plusSign, spaceSign) == ""
  {
    hide Numeral;
    var body := Body(i, base, plusSign, spaceSign);
    ReadBody(i, base, plusSign, spaceSign, []);
    assert body + [] == body;
    if n == 0 {
      assert Fill(n, zeroPad) + body == body;
    } else if !zeroPad {
      ReadSpaces(n, body, base);
    } else {
      assert (Fill(n, true) + body)[0] == '0';
      ReadZerosFirst(n, body, base);
      ReadNumeral(Abs(i), base, []);
      assert Numeral(Abs(i), base) + [] == Numeral(Abs(i), base);
    }
  }

  // Reading the text gives the integer back exactly when it is padded with spaces, or not at all, or is 0, or is
  // padded with zeros on the left and has no sign.
  lemma ReadsBackIff(i: int, base: int, plusSign: bool, spaceSign: bool, width: int, justify: bool, zeroPad: bool)
    requires BaseOK(base)
    ensures ReadInt(Text(i, base, plusSign, spaceSign, width, justify, zeroPad), base) == i
            <==> !zeroPad || width <= |Body(i, base, plusSign, spaceSign)| || i == 0
                 || (!justify && Sign(i, plusSign, spaceSign) == "")
  {
    hide Body, ReadInt, Sign;
    var n := width - |Body(i, base, plusSign, spaceSign)|;
    var k: nat := if n < 0 then 0 else n;
    assert Fill(n, zeroPad) == Fill(k, zeroPad);
    ReadRight(i, base, plusSign, spaceSign, k, zeroPad);
    ReadLeft(i, base, plusSign, spaceSign, k, zeroPad);
  }

  // ---------- __int_str as it runs ----------

  const BUFFER: nat := 256

  // The buffer holds the string s, and NULs behind it.
  ghost predicate HoldsStr(b: array<char>, s: string)
    reads b
  {
    && |s| < b.Length && b[..|s|] == s && '\0' !in s
    && forall k :: |s| <= k < b.Length ==> b[k] == '\0'
  }

  // The NUL behind a string is its first.
  lemma CharsOf(b: array<char>, s: string)
    requires HoldsStr(b, s)
    ensures forall k :: 0 <= k < |s| ==> b[k] == s[k] && s[k] != '\0'
    ensures b[|s|] == '\0'
  {
    forall k | 0 <= k < |s|
      ensures b[k] == s[k] && s[k] != '\0'
    {
      assert b[..|s|][k] == b[k] && s[k] in s;
    }
  }

  method Strlen(b: array<char>, ghost s: string) returns (len: nat)
    requires HoldsStr(b, s)
    ensures len == |s|
  {
    len := 0;
    CharsOf(b, s);
    while b[len] != '\0'
      invariant len <= |s|
      decreases |s| - len
    {
      len := len + 1;
    }
  }

  // One more character behind the string.
  method PutBehind(b: array<char>, c: char, ghost s: string)
    requires HoldsStr(b, s) && |s| + 1 < b.Length && c != '\0'
    modifies b
    ensures HoldsStr(b, s + [c])
  {
    var len := Strlen(b, s);
    b[len] := c;
    assert b[..|s + [c]|] == s + [c];
  }

  // padding characters behind the string.
  method Pad(b: array<char>, padding: nat, zeroPad: bool, ghost s: string)
    requires HoldsStr(b, s) && |s| + padding < b.Length
    modifies b
    ensures HoldsStr(b, s + Fill(padding, zeroPad))
  {
    assert s + Fill(0, zeroPad) == s;
    for k := 0 to padding
      invariant HoldsStr(b, s + Fill(k, zeroPad))
    {
      var c := if zeroPad then '0' else ' ';
      PutBehind(b, c, s + Fill(k, zeroPad));
      assert s + Fill(k, zeroPad) + [c] == s + Fill(k + 1, zeroPad);
    }
  }

  // strcat of the string in b.
  method Strcat(a: array<char>, b: array<char>, ghost s: string, ghost t: string)
    requires a != b && HoldsStr(a, s) && HoldsStr(b, t) && |s| + |t| < a.Length
    modifies a
    ensures HoldsStr(a, s + t)
  {
    assert t[..0] == [] && s + [] == s;
    CharsOf(b, t);
    var k: nat := 0;
    while b[k] != '\0'
      invariant k <= |t| && HoldsStr(a, s + t[..k]) && HoldsStr(b, t)
      decreases |t| - k
    {
      PutBehind(a, b[k], s + t[..k]);
      assert s + t[..k] + [t[k]] == s + t[..k + 1];
      k := k + 1;
    }
    assert t[..|t|] == t;
  }

  // strcpy, as section 7.24.2.3 of C11 has it: the string with its NUL.
  method Strcpy(b: array<char>, a: array<char>, ghost t: string, ghost s: string)
    requires a != b && HoldsStr(b, t) && HoldsStr(a, s) && |t| <= |s| < b.Length
    modifies b
    ensures HoldsStr(b, s)
  {
    CharsOf(a, s);
    var k: nat := 0;
    while a[k] != '\0'
      invariant k <= |s| && HoldsStr(a, s)
      invariant b[..k] == s[..k] && forall j :: |s| <= j < b.Length ==> b[j] == '\0'
      decreases |s| - k
    {
      b[k] := a[k];
      assert b[..k + 1] == s[..k + 1];
      k := k + 1;
    }
    b[k] := '\0';
    assert b[..|s|] == s[..|s|] == s;
  }

  // ---------- how long a numeral gets ----------

  function Pow8(n: nat): nat {
    if n == 0 then 1 else 8 * Pow8(n - 1)
  }

  lemma {:induction false} NumeralShort(v: nat, base: int, n: nat)
    requires BaseOK(base) && n > 0 && v < Pow8(n)
    ensures |Numeral(v, base)| <= n
    decreases n
  {
    hide Table;
    if v >= Radix(base) {
      assert v / Radix(base) <= v / 8 && n > 1;
      NumeralShort(v / Radix(base), base, n - 1);
    }
  }

  lemma BodyShort(i: int, base: int, plusSign: bool, spaceSign: bool)
    requires BaseOK(base) && -0x7FFF_FFFF <= i <= 0x7FFF_FFFF
    ensures |Body(i, base, plusSign, spaceSign)| <= 12
  {
    assert Pow8(4) == 4096 && Pow8(8) == 4096 * 4096 && Pow8(11) == 512 * 4096 * 4096;
    NumeralShort(Abs(i), base, 11);
  }

  lemma {:induction false} NumeralNoNul(v: nat, base: int)
    requires BaseOK(base)
    ensures '\0' !in Numeral(v, base)
    decreases v
  {
    hide Table;
    TableDigit(base, v % Radix(base));
    if v >= Radix(base) {
      NumeralNoNul(v / Radix(base), base);
    }
  }

  // v without its last digit, and that digit.
  function Shorter(v: nat, base: int): (q: nat)
    requires BaseOK(base)
    ensures v > 0 ==> q < v
  {
    v / Radix(base)
  }

  function LastDigit(v: nat, base: int): (d: nat)
    requires BaseOK(base)
    ensures d < Radix(base)
  {
    v % Radix(base)
  }

  // What is left of the numeral once its last digits are written.
  function Rest(v: nat, base: int): (s: string)
    requires BaseOK(base)
    ensures s == [] <==> v == 0
  {
    if v == 0 then [] else Numeral(v, base)
  }

  lemma DivZero(v: nat, r: nat)
    requires r > 0
    ensures v / r == 0 <==> v < r
  {
  }

  lemma RestStep(v: nat, base: int)
    requires BaseOK(base)
    ensures Numeral(v, base) == Rest(Shorter(v, base), base) + [Table(base)[LastDigit(v, base)]]
    ensures v > 0 ==> Rest(v, base) == Numeral(v, base)
  {
    hide Table;
    DivZero(v, Radix(base));
  }

  // The digit-counting loop: the position behind the last digit.
  method CountDigits(p0: nat, i: nat, base: int) returns (p: nat)
    requires BaseOK(base)
    ensures p == p0 + |Numeral(i, base)|
  {
    hide Numeral, Table, Radix, Shorter, LastDigit;
    RestStep(i, base);
    p := p0 + 1;
    var shifter: nat := Shorter(i, base);
    while shifter != 0
      invariant p + |Rest(shifter, base)| == p0 + |Numeral(i, base)|
      decreases shifter
    {
      RestStep(shifter, base);
      p := p + 1;
      shifter := Shorter(shifter, base);
    }
  }

  // *--p = digit[v % base]; v = v / base
  method PutDigit(b: array<char>, p: nat, v: nat, base: int, ghost end: nat) returns (p': nat, v': nat)
    requires BaseOK(base) && 0 < p <= end <= b.Length
    modifies b
    ensures p' == p - 1 && v' == Shorter(v, base)
    ensures b[p'..end] == [Table(base)[LastDigit(v, base)]] + old(b[p..end])
    ensures forall k :: 0 <= k < b.Length && k != p' ==> b[k] == old(b[k])
  {
    hide Table, Radix, Shorter, LastDigit;
    p', v' := p - 1, Shorter(v, base);
    b[p'] := Table(base)[LastDigit(v, base)];
    assert b[p'..end] == [b[p']] + b[p..end];
  }

  // The backward-filling loop, from the NUL at position end down to position p0.
  method FillDigits(b: array<char>, p0: nat, end: nat, i: nat, base: int)
    requires BaseOK(base) && end == p0 + |Numeral(i, base)| && end < b.Length
    modifies b
    ensures b[p0..end] == Numeral(i, base)
    ensures forall k :: 0 <= k < b.Length && !(p0 <= k < end) ==> b[k] == old(b[k])
  {
    hide Numeral, Table, Radix, Shorter, LastDigit, Rest;
    RestStep(i, base);
    var p: nat, v: nat := end, i;
    ghost var done: string := [];
    p, v := PutDigit(b, p, v, base, end);
    done := [Table(base)[LastDigit(i, base)]] + done;
    assert Rest(v, base) + done == Numeral(i, base);
    while v != 0
      invariant p0 <= p < end && p == p0 + |Rest(v, base)| && b[p..end] == done
               && Rest(v, base) + done == Numeral(i, base)
      invariant forall k :: 0 <= k < b.Length && !(p <= k < end) ==> b[k] == old(b[k])
      decreases v
    {
      RestStep(v, base);
      ghost var c := Table(base)[LastDigit(v, base)];
      p, v := PutDigit(b, p, v, base, end);
      assert Rest(v, base) + [c] + done == Rest(v, base) + ([c] + done);
      done := [c] + done;
    }
  }

  // Sign and digits, in a buffer of zeros.
  method PutBody(b: array<char>, i: int, base: int, plusSign: bool, spaceSign: bool)
    requires BaseOK(base) && -0x7FFF_FFFF <= i <= 0x7FFF_FFFF && b.Length == BUFFER && HoldsStr(b, [])
    modifies b
    ensures HoldsStr(b, Body(i, base, plusSign, spaceSign))
  {
    hide Numeral;
    BodyShort(i, base, plusSign, spaceSign);
    NumeralNoNul(Abs(i), base);
    var p: nat := 0;
    if i < 0 {
      b[p] := '-';
      p := 1;
    } else if plusSign {
      b[p] := '+';
      p := 1;
    } else if spaceSign {
      b[p] := ' ';
      p := 1;
    }
    var v := if i < 0 then -i else i;
    var end := CountDigits(p, v, base);
    b[end] := '\0';
    FillDigits(b, p, end, v, base);
    assert b[..end] == b[..p] + b[p..end];
  }

  lemma EmptyHolds(a: array<char>)
    requires a.Length > 0 && forall k :: 0 <= k < a.Length ==> a[k] == '\0'
    ensures HoldsStr(a, [])
  {
  }

  method PutText(i: int, b: array<char>, base: int, plusSign: bool, spaceSign: bool, paddingNo: int, justify: bool,
          zeroPad: bool)
    requires BaseOK(base) && -0x7FFF_FFFF <= i <= 0x7FFF_FFFF && paddingNo < BUFFER
    requires b.Length == BUFFER && HoldsStr(b, [])
    modifies b
    ensures HoldsStr(b, Text(i, base, plusSign, spaceSign, paddingNo, justify, zeroPad))
  {
    hide Body, HoldsStr;
    PutBody(b, i, base, plusSign, spaceSign);
    BodyShort(i, base, plusSign, spaceSign);
    ghost var body := Body(i, base, plusSign, spaceSign);
    var len := Strlen(b, body);
    var padding := paddingNo - len;
    if padding < 0 {
      padding := 0;
    }
    assert Fill(paddingNo - len, zeroPad) == Fill(padding, zeroPad);
    if justify {
      Pad(b, padding, zeroPad, body);
    } else {
      var a := new char[BUFFER](_ => '\0');
      EmptyHolds(a);
      Pad(a, padding, zeroPad, []);
      assert [] + Fill(padding, zeroPad) == Fill(padding, zeroPad);
      Strcat(a, b, Fill(padding, zeroPad), body);
      Strcpy(b, a, body, Fill(padding, zeroPad) + body);
    }
  }

  // For every int and every field width.  Returns false where the code is outside what C defines: INT_MIN has no
  // positive counterpart, and a field of 256 or more runs off the buffer.
  method IntStr(i: int, b: array<char>, base: int, plusSign: bool, spaceSign: bool, paddingNo: int, justify: bool,
          zeroPad: bool) returns (ok: bool)
    requires BaseOK(base) && -0x8000_0000 <= i <= 0x7FFF_FFFF
    requires b.Length == 256 && HoldsStr(b, [])
    modifies b
    ensures ok == (i != -0x8000_0000 && paddingNo < 256)
    ensures ok ==> HoldsStr(b, Text(i, base, plusSign, spaceSign, paddingNo, justify, zeroPad))
  {
    ok := i != -0x8000_0000 && paddingNo < BUFFER;
    if !ok {
      return;
    }
    PutText(i, b, base, plusSign, spaceSign, paddingNo, justify, zeroPad);
  }

  // ---------- with the repository's own strcpy ----------

  const COPIED: nat := 5   // sizeof(src) + 1 for a 32-bit pointer, whatever the string

  // strcpy as coded, on buffers: five bytes.
  function CopyFive(dst: string, src: string): string
    requires COPIED <= |dst| && COPIED <= |src|
  {
    src[..COPIED] + dst[COPIED..]
  }

  // The characters before the first NUL.
  function CStr(s: string): string {
    if s == [] || s[0] == '\0' then [] else [s[0]] + CStr(s[1..])
  }

  lemma {:induction false} CStrOf(s: string, z: string)
    requires '\0' !in s && (z == [] || z[0] == '\0')
    ensures CStr(s + z) == s
    decreases |s|
  {
    if s == [] {
      assert s + z == z;
    } else {
      assert s[0] in s;
      assert (s + z)[1..] == s[1..] + z;
      CStrOf(s[1..], z);
    }
  }

  // strcat on a buffer.
  function Catted(dst: string, src: string): string {
    var n := |CStr(dst)| + |src| + 1;
    CStr(dst) + src + "\0" + if n <= |dst| then dst[n..] else []
  }

  function Letters(base: int): string {
    if base == 16 then "ABCDEF" else if base == 17 then "abcdef" else ""
  }

  // The digit table: five characters arrive over zeros, and the letters follow those.
  function CopiedTable(base: int): string {
    Catted(CopyFive(seq(32, _ => '\0'), "0123456789"), Letters(base))
  }

  lemma CopiedTableIs(base: int)
    requires BaseOK(base)
    ensures CopiedTable(base) == "01234" + Letters(base) + seq(27 - |Letters(base)|, _ => '\0')
  {
    var z := seq(27, _ => '\0');
    assert CopyFive(seq(32, _ => '\0'), "0123456789") == "01234" + z;
    CStrOf("01234", z);
    var n := 6 + |Letters(base)|;
    assert ("01234" + z)[n..] == seq(32 - n, _ => '\0');
    assert "\0" + seq(32 - n, _ => '\0') == seq(33 - n, _ => '\0');
  }

  // The buffer's digits with that table.
  function CopiedNumeral(v: nat, base: int): (s: string)
    requires BaseOK(base)
    decreases v
  {
    CopiedTableIs(base);
    (if v < Radix(base) then [] else CopiedNumeral(v / Radix(base), base)) + [CopiedTable(base)[v % Radix(base)]]
  }

  // n times b[strlen(b)] = c.  Whatever stood behind the NUL that is overwritten comes into view.
  function Padded(b: string, n: nat, c: char): (r: string)
    ensures |r| == |b|
    decreases n
  {
    if n == 0 || |CStr(b)| >= |b| then b else Padded(b[|CStr(b)| := c], n - 1, c)
  }

  // What the buffer holds before it is padded, and how much padding it then gets: that counts the string as it is.
  function CopiedBody(i: int, base: int, plusSign: bool, spaceSign: bool): string
    requires BaseOK(base)
  {
    Sign(i, plusSign, spaceSign) + CopiedNumeral(Abs(i), base) + seq(BUFFER, _ => '\0')
  }

  function Padding(b: string, width: int): nat {
    if width < |CStr(b)| then 0 else width - |CStr(b)|
  }

  // The buffer in the end: when the padding goes on the left the second strcpy brings back five bytes of the copy.
  function CopiedBuffer(b: string, width: int, justify: bool, zeroPad: bool): string
    requires |b| >= BUFFER
  {
    if justify then Padded(b, Padding(b, width), if zeroPad then '0' else ' ')
    else CopyFive(b, Fill(Padding(b, width), zeroPad) + CStr(b) + seq(BUFFER, _ => '\0'))
  }

  // What it shows.
  function CopiedText(i: int, base: int, plusSign: bool, spaceSign: bool, width: int, justify: bool,
          zeroPad: bool): string
    requires BaseOK(base)
  {
    CStr(CopiedBuffer(CopiedBody(i, base, plusSign, spaceSign), width, justify, zeroPad))
  }

  // The digits before the first that is 5 or more.
  function SmallDigits(s: string): string {
    if s == [] || s[0] >= '5' then [] else [s[0]] + SmallDigits(s[1..])
  }

  predicate AllSmall(s: string) {
    forall k :: 0 <= k < |s| ==> s[k] < '5'
  }

  // A digit below 5 comes out right; any other is a NUL, or the letter five places on.
  lemma CopiedDigit(base: int, d: nat)
    requires BaseOK(base) && d < Radix(base)
    ensures |CopiedTable(base)| == 32
    ensures CopiedTable(base)[d] == if d < 5 then Table(base)[d]
            else if Radix(base) == 16 && d <= 10 then Table(base)[d + 5] else '\0'
    ensures Table(base)[d] < '5' <==> d < 5
    ensures CopiedTable(base)[d] == Table(base)[d] <==> d < 5
  {
    CopiedTableIs(base);
  }

  // Digit by digit: the same character exactly for one below 5.
  lemma {:induction false} CopiedDigits(v: nat, base: int)
    requires BaseOK(base)
    ensures |CopiedNumeral(v, base)| == |Numeral(v, base)|
    ensures forall k :: 0 <= k < |Numeral(v, base)| ==>
      (CopiedNumeral(v, base)[k] == Numeral(v, base)[k] <==> Numeral(v, base)[k] < '5')
    ensures Radix(base) <= 10 ==> forall k :: 0 <= k < |Numeral(v, base)| ==>
      CopiedNumeral(v, base)[k] == if Numeral(v, base)[k] < '5' then Numeral(v, base)[k] else '\0'
    decreases v
  {
    hide Table, CopiedTable;
    CopiedDigit(base, v % Radix(base));
    if v >= Radix(base) {
      CopiedDigits(v / Radix(base), base);
    }
  }

  lemma {:induction false} ShownIsSmall(s: string, t: string, z: string)
    requires |s| == |t| && '\0' !in s && (z == [] || z[0] == '\0')
    requires forall k :: 0 <= k < |s| ==> t[k] == if s[k] < '5' then s[k] else '\0'
    ensures CStr(t + z) == SmallDigits(s)
    decreases |s|
  {
    if s == [] {
      assert t + z == z;
    } else {
      assert s[0] in s;
      assert (t + z)[1..] == t[1..] + z;
      if s[0] < '5' {
        ShownIsSmall(s[1..], t[1..], z);
      }
    }
  }

  lemma CopyPrefix(b: string, n: nat)
    requires 0 < n <= |b| && b[0] != '\0'
    ensures (CStr(b) + seq(|b|, _ => '\0'))[..n] == [b[0]] + (CStr(b[1..]) + seq(|b[1..]|, _ => '\0'))[..n - 1]
  {
  }

  // Copying five bytes of a buffer's own string back changes no character that is shown.
  lemma {:induction false} CopyBack(b: string, n: nat)
    requires n <= |b|
    ensures var c := CStr(b) + seq(|b|, _ => '\0'); CStr(c[..n] + b[n..]) == CStr(b)
    decreases n
  {
    var c := CStr(b) + seq(|b|, _ => '\0');
    if n == 0 {
      assert c[..0] + b[0..] == b;
    } else if b[0] == '\0' {
      assert (c[..n] + b[n..])[0] == '\0';
    } else {
      var b1 := b[1..];
      CopyBack(b1, n - 1);
      var c1 := CStr(b1) + seq(|b1|, _ => '\0');
      CopyPrefix(b, n);
      assert (c[..n] + b[n..])[1..] == c1[..n - 1] + b1[n - 1..];
    }
  }

  lemma CopiedIs(b: string)
    requires |b| >= BUFFER
    ensures CopyFive(b, CStr(b) + seq(BUFFER, _ => '\0')) == (CStr(b) + seq(|b|, _ => '\0'))[..COPIED] + b[COPIED..]
  {
    hide CStr;
    var y, z := CStr(b) + seq(BUFFER, _ => '\0'), CStr(b) + seq(|b|, _ => '\0');
    assert forall k :: 0 <= k < COPIED ==> y[k] == z[k];
    assert y[..COPIED] == z[..COPIED];
  }

  // With that strcpy a number in base 8 or 10, without sign or padding, stops at its first digit that is 5 or more.
  lemma CopiedTextStops(v: nat, base: int)
    requires BaseOK(base) && Radix(base) <= 10
    ensures CopiedText(v, base, false, false, 0, false, false) == SmallDigits(Numeral(v, base))
  {
    hide CopiedNumeral, Numeral;
    CopiedDigits(v, base);
    NumeralNoNul(v, base);
    var z := seq(BUFFER, _ => '\0');
    var b := CopiedNumeral(v, base) + z;
    assert CopiedBody(v, base, false, false) == b;
    ShownIsSmall(Numeral(v, base), CopiedNumeral(v, base), z);
    CopyBack(b, COPIED);
    assert Fill(0, false) + CStr(b) + z == CStr(b) + z;
    CopiedIs(b);
  }

  lemma {:induction false} PaddedOf(s: string, m: nat, n: nat, c: char)
    requires '\0' !in s && c != '\0' && n <= m
    ensures CStr(Padded(s + seq(m, _ => '\0'), n, c)) == s + seq(n, _ => c)
    decreases n
  {
    var b := s + seq(m, _ => '\0');
    CStrOf(s, seq(m, _ => '\0'));
    if n == 0 {
      assert s + seq(0, _ => c) == s;
    } else {
      assert b[|s| := c] == s + [c] + seq(m - 1, _ => '\0');
      PaddedOf(s + [c], m - 1, n - 1, c);
      assert s + [c] + seq(n - 1, _ => c) == s + seq(n, _ => c);
    }
  }

  // A text of w characters, the last of them body, of which five bytes are copied over body.
  lemma CopiedLeft(fill: string, body: string)
    requires '\0' !in fill && '\0' !in body
    ensures var z := seq(BUFFER, _ => '\0');
      CStr(CopyFive(body + z, fill + body + z)) == fill + body <==> fill == "" || |fill + body| <= COPIED
  {
    var z, t := seq(BUFFER, _ => '\0'), fill + body;
    var shown := CopyFive(body + z, t + z);
    if fill == "" {
      assert t == body;
      assert shown == body + z;
      CStrOf(body, z);
    } else if |t| <= COPIED {
      assert shown[..|t|] == t && shown[|t|] == '\0';
      assert shown == t + shown[|t|..];
      CStrOf(t, shown[|t|..]);
    } else if |body| <= COPIED {
      assert shown == t[..COPIED] + shown[COPIED..];
      CStrOf(t[..COPIED], shown[COPIED..]);
    } else {
      assert shown == t[..COPIED] + body[COPIED..] + z;
      CStrOf(t[..COPIED] + body[COPIED..], z);
    }
  }

  lemma CopiedSmall(v: nat, base: int)
    requires BaseOK(base) && AllSmall(Numeral(v, base))
    ensures CopiedNumeral(v, base) == Numeral(v, base)
  {
    CopiedDigits(v, base);
  }

  // Without a digit of 5 or more, the string in the buffer is the right one before padding.
  lemma CopiedTextRight(i: int, base: int, plusSign: bool, spaceSign: bool, width: int, justify: bool, zeroPad: bool)
    requires BaseOK(base) && width < BUFFER && AllSmall(Numeral(Abs(i), base))
    ensures CopiedText(i, base, plusSign, spaceSign, width, justify, zeroPad)
            == Text(i, base, plusSign, spaceSign, width, justify, zeroPad)
            <==> justify || width <= |Body(i, base, plusSign, spaceSign)| || width <= COPIED
  {
    hide CopiedNumeral, Numeral, CStr, Padded, CopyFive;
    var sign, num := Sign(i, plusSign, spaceSign), Numeral(Abs(i), base);
    var body, z := Body(i, base, plusSign, spaceSign), seq(BUFFER, _ => '\0');
    CopiedSmall(Abs(i), base);
    NumeralNoNul(Abs(i), base);
    assert sign + CopiedNumeral(Abs(i), base) + z == body + z && '\0' !in body;
    CStrOf(body, z);
    var n: nat := if width < |body| then 0 else width - |body|;
    assert Fill(width - |body|, zeroPad) == Fill(n, zeroPad);
    if justify {
      var c := if zeroPad then '0' else ' ';
      PaddedOf(body, BUFFER, n, c);
      assert Fill(n, zeroPad) == seq(n, _ => c);
    } else {
      CopiedLeft(Fill(n, zeroPad), body);
    }
  }

  // ---------- a digit of 5 or more ----------

  lemma {:induction false} CStrIs(s: string)
    ensures |CStr(s)| <= |s| && CStr(s) == s[..|CStr(s)|]
    ensures forall k {:trigger s[k]} :: 0 <= k < |CStr(s)| ==> s[k] != '\0'
    ensures |CStr(s)| < |s| ==> s[|CStr(s)|] == '\0'
    decreases |s|
  {
    if s != [] && s[0] != '\0' {
      CStrIs(s[1..]);
    }
  }

  lemma ShownElse(t: string, y: string, q: nat)
    requires q < |t| && q < |y| && y[q] != t[q]
    ensures CStr(y) != t
  {
    CStrIs(y);
  }

  lemma ShownShorter(t: string, y: string, q: nat)
    requires q < |t| && q < |y| && y[q] == '\0'
    ensures CStr(y) != t
  {
    CStrIs(y);
  }

  // Padding behind a string leaves the string, and what ended it is the first to go.
  lemma {:induction false} PaddedKeeps(b: string, n: nat, c: char, q: nat)
    requires c != '\0' && q < |b|
    ensures q < |CStr(b)| ==> Padded(b, n, c)[q] == b[q]
    ensures q == |CStr(b)| && n > 0 ==> Padded(b, n, c)[q] == c
    decreases n
  {
    CStrIs(b);
    if n > 0 && |CStr(b)| < |b| {
      var b' := b[|CStr(b)| := c];
      CStrIs(b');
      assert |CStr(b')| > |CStr(b)|;
      PaddedKeeps(b', n - 1, c, q);
    }
  }

  // The buffer b should begin with body, whose digits begin at place n, and first differs from it at the digit q.
  predicate FirstWrong(b: string, body: string, n: nat, q: nat) {
    && n <= 1 && n <= q < |body| && |b| == |body| + BUFFER && b[q] != body[q]
    && (forall j :: 0 <= j < q ==> b[j] == body[j])
    && (forall j :: 0 <= j < |body| ==> body[j] != '\0')
    && (forall j :: |body| <= j < |b| ==> b[j] == '\0')
    && body[q] !in {'0', ' '} && body[n] !in {'0', ' '} && (n == 1 ==> body[0] != body[1])
  }

  lemma WrongLength(b: string, body: string, n: nat, q: nat)
    requires FirstWrong(b, body, n, q)
    ensures q <= |CStr(b)| <= |body|
    ensures CStr(b) == b[..|CStr(b)|] && b[|CStr(b)|] == '\0'
  {
    CStrIs(b);
    assert b[|body|] == '\0';
  }

  lemma RightPadded(b: string, body: string, n: nat, q: nat, width: int, zeroPad: bool)
    requires FirstWrong(b, body, n, q)
    ensures CStr(CopiedBuffer(b, width, true, zeroPad)) != body + Fill(width - |body|, zeroPad)
  {
    WrongLength(b, body, n, q);
    PaddedKeeps(b, Padding(b, width), if zeroPad then '0' else ' ', q);
    ShownElse(body + Fill(width - |body|, zeroPad), CopiedBuffer(b, width, true, zeroPad), q);
  }

  // One character of the copied-back buffer.
  lemma CopiedBackAt(b: string, width: int, zeroPad: bool, x: nat)
    requires |b| >= BUFFER && x < |b|
    ensures var y, p, m := CopiedBuffer(b, width, false, zeroPad), Padding(b, width), |CStr(b)|;
      |y| == |b| &&
      y[x] == if x >= COPIED then b[x]
              else if x < p then (if zeroPad then '0' else ' ')
              else if x < p + m then CStr(b)[x - p] else '\0'
  {
    hide CStr;
  }

  lemma LeftPadded(b: string, body: string, n: nat, q: nat, width: int, zeroPad: bool)
    requires FirstWrong(b, body, n, q)
    ensures CStr(CopiedBuffer(b, width, false, zeroPad)) != Fill(width - |body|, zeroPad) + body
  {
    hide CStr, CopiedBuffer;
    WrongLength(b, body, n, q);
    var t, y := Fill(width - |body|, zeroPad) + body, CopiedBuffer(b, width, false, zeroPad);
    var p, f, m: nat := Padding(b, width), |t| - |body|, |CStr(b)|;
    if p > 0 && width > COPIED && width > |body| {
      var x := if |body| > COPIED then |body| else COPIED;
      CopiedBackAt(b, width, zeroPad, x);
      ShownShorter(t, y, x);
    } else {
      var x := if p == 0 then q else if m < |body| then f + n else f + q;
      CopiedBackAt(b, width, zeroPad, x);
      ShownElse(t, y, x);
    }
  }

  lemma {:induction false} FirstLarge(s: string) returns (k: nat)
    requires !AllSmall(s)
    ensures k < |s| && s[k] >= '5' && forall j :: 0 <= j < k ==> s[j] < '5'
    decreases |s|
  {
    if s[0] >= '5' {
      k := 0;
    } else {
      assert forall j :: 0 < j < |s| ==> s[j] == s[1..][j - 1];
      k := FirstLarge(s[1..]);
      k := k + 1;
    }
  }

  // A positive number begins with no zero, and no numeral with a sign.
  lemma {:induction false} FirstDigit(v: nat, base: int)
    requires BaseOK(base)
    ensures Numeral(v, base)[0] !in {' ', '+', '-'} && (v > 0 ==> Numeral(v, base)[0] != '0')
    decreases v
  {
    TableDigit(base, v % Radix(base));
    if v >= Radix(base) {
      FirstDigit(v / Radix(base), base);
    }
  }

  lemma ZeroIsSmall(base: int)
    requires BaseOK(base)
    ensures AllSmall(Numeral(0, base))
  {
    CopiedDigit(base, 0);
  }

  // A numeral, and the characters that stand for it, behind a sign and before NULs.
  lemma WrongDigit(sign: string, num: string, cop: string, k: nat)
    requires |sign| <= 1 && |cop| == |num| && k < |num| && '\0' !in num && '\0' !in sign
    requires forall j :: 0 <= j < k ==> cop[j] == num[j]
    requires cop[k] != num[k] && num[k] !in {'0', ' '} && num[0] !in {'0', ' '} && (|sign| == 1 ==> sign[0] != num[0])
    ensures FirstWrong(sign + cop + seq(BUFFER, _ => '\0'), sign + num, |sign|, |sign| + k)
  {
    var b, body := sign + cop + seq(BUFFER, _ => '\0'), sign + num;
    forall j | 0 <= j < |body|
      ensures body[j] != '\0' && b[j] == if j < |sign| then sign[j] else cop[j - |sign|]
    {
      assert body[j] in sign + num;
    }
  }

  lemma LargeDigit(i: int, base: int, plusSign: bool, spaceSign: bool) returns (q: nat)
    requires BaseOK(base) && !AllSmall(Numeral(Abs(i), base))
    ensures FirstWrong(CopiedBody(i, base, plusSign, spaceSign), Body(i, base, plusSign, spaceSign),
                       |Sign(i, plusSign, spaceSign)|, q)
  {
    hide Numeral, CopiedNumeral, AllSmall, FirstWrong;
    var sign, num := Sign(i, plusSign, spaceSign), Numeral(Abs(i), base);
    var k := FirstLarge(num);
    q := |sign| + k;
    CopiedDigits(Abs(i), base);
    NumeralNoNul(Abs(i), base);
    FirstDigit(Abs(i), base);
    ZeroIsSmall(base);
    WrongDigit(sign, num, CopiedNumeral(Abs(i), base), k);
  }

  // In any base the text is right exactly when no digit is 5 or more, and the padding is on the right, or there is
  // none, or all of the text fits the five bytes.
  lemma CopiedTextIff(i: int, base: int, plusSign: bool, spaceSign: bool, width: int, justify: bool, zeroPad: bool)
    requires BaseOK(base) && width < BUFFER
    ensures CopiedText(i, base, plusSign, spaceSign, width, justify, zeroPad)
            == Text(i, base, plusSign, spaceSign, width, justify, zeroPad)
            <==> AllSmall(Numeral(Abs(i), base))
                 && (justify || width <= |Body(i, base, plusSign, spaceSign)| || width <= COPIED)
  {
    hide Numeral, CopiedNumeral, AllSmall, CStr, CopiedBuffer, Body, CopiedBody, FirstWrong;
    if AllSmall(Numeral(Abs(i), base)) {
      CopiedTextRight(i, base, plusSign, spaceSign, width, justify, zeroPad);
    } else {
      var b, body := CopiedBody(i, base, plusSign, spaceSign), Body(i, base, plusSign, spaceSign);
      var q := LargeDigit(i, base, plusSign, spaceSign);
      if justify {
        RightPadded(b, body, |Sign(i, plusSign, spaceSign)|, q, width, zeroPad);
      } else {
        LeftPadded(b, body, |Sign(i, plusSign, spaceSign)|, q, width, zeroPad);
      }
    }
  }

  lemma DecimalTable()
    ensures Table(10) == "0123456789"
  {
  }

  lemma Numeral4096()
    ensures Numeral(4096, 10) == "4096"
  {
    hide Table;
    DecimalTable();
    assert Numeral(40, 10) == Numeral(4, 10) + "0";
    assert Numeral(409, 10) == Numeral(40, 10) + "9";
    assert Numeral(4096, 10) == Numeral(409, 10) + "6";
  }

  // The repository's own example: 4096 comes out as 40.
  lemma Prints40()
    ensures CopiedText(4096, 10, false, false, 0, false, false) == "40" && Numeral(4096, 10) == "4096"
  {
    hide CopiedText, Numeral;
    CopiedTextStops(4096, 10);
    Numeral4096();
    var s := "4096";
    assert s[1..] == "096" && s[1..][1..] == "96";
    assert SmallDigits(s[1..][1..]) == "";
    assert SmallDigits(s[1..]) == "0";
  }
}
