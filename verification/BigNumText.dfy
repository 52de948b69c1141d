/** Printing big numbers in hexadecimal and reading them back (src/util/bigNum/bignum.cpp). */
module BigNumText {
  import opened CStrings
  import opened NumTheory
  import opened Powers
  import opened BigNum
  import opened ModularLaws

  const HEX_DIGITS: string := "0123456789ABCDEF"

  function DigitChar(d: nat): char
    requires d < 16
  {
    HEX_DIGITS[d]
  }

  /** strcspn over the list of digits: the place of the character, 16 when it is not there. */
  function DigitOf(c: char): (d: nat)
    ensures d <= 16
  {
    if '0' <= c <= '9' then (c - '0') as nat
    else if 'A' <= c <= 'F' then (c - 'A') as nat + 10
    else 16
  }

  /** It is what strcspn finds in the list of digits. */
  lemma DigitOfIsPlace(c: char)
    ensures DigitOf(c) < 16 ==> HEX_DIGITS[DigitOf(c)] == c
    ensures forall i :: 0 <= i < DigitOf(c) ==> HEX_DIGITS[i] != c
  {
  }

  lemma DigitRoundTrip(d: nat)
    requires d < 16
    ensures DigitOf(DigitChar(d)) == d
  {
  }

  /** The len lowest hexadecimal digits of n, the highest first. */
  function HexDigits(n: nat, len: nat): (s: string)
    ensures |s| == len
  {
    if len == 0 then "" else HexDigits(n / 16, len - 1) + [DigitChar(n % 16)]
  }

  /** The text that num2hex appends: a blank or a minus, 0x, and eight digits a word. */
  function Printed(b: Bn): string {
    [if b.neg then '-' else ' '] + "0x" + HexDigits(Magnitude(b.words), 8 * |b.words|)
  }

  /** One more digit d behind the k digits of h. */
  lemma DigitsOfNext(n: nat, len: nat, h: nat, k: nat, d: nat)
    requires d < 16 && n == h * 16 + d && len == k + 1
    ensures HexDigits(n, len) == HexDigits(h, k) + [DigitChar(d)]
    ensures h < Pow(16, k) ==> n < Pow(16, len)
  {
    DivModUnique(n, 16, h, d);
    assert Pow(16, len) == 16 * Pow(16, k);
  }

  lemma QuotientBelow(n: nat, len: nat)
    requires n < Pow(16, len) && len > 0
    ensures n / 16 < Pow(16, len - 1)
  {
    assert Pow(16, len) == 16 * Pow(16, len - 1);
  }

  /** The last digit of a number in two parts is that of its lower part. */
  lemma LastOfTwoParts(hi: nat, lo: nat, k: nat)
    requires k > 0
    ensures lo + Pow(16, k) * hi == (lo / 16 + Pow(16, k - 1) * hi) * 16 + lo % 16
  {
    Factor(16, Pow(16, k - 1), hi);
  }

  lemma Factor(a: nat, p: nat, h: nat)
    ensures a * p * h == a * (p * h)
  {
  }

  lemma JoinSnoc(a: string, b: string, c: char)
    ensures (a + b) + [c] == a + (b + [c])
  {
  }

  /** The digits of a number in two parts: l digits of the upper one, k of the lower one. */
  lemma {:induction false} HexDigitsJoin(hi: nat, lo: nat, l: nat, k: nat, n: nat, len: nat)
    requires lo < Pow(16, k) && n == lo + Pow(16, k) * hi && len == l + k
    ensures HexDigits(n, len) == HexDigits(hi, l) + HexDigits(lo, k)
  {
    if k == 0 {
      assert Pow(16, 0) * hi == hi;
      assert HexDigits(lo, k) == "";
    } else {
      var m := lo / 16 + Pow(16, k - 1) * hi;
      QuotientBelow(lo, k);
      LastOfTwoParts(hi, lo, k);
      HexDigitsJoin(hi, lo / 16, l, k - 1, m, len - 1);
      DigitsOfNext(n, len, m, len - 1, lo % 16);
      DigitsOfNext(lo, k, lo / 16, k - 1, lo % 16);
      JoinSnoc(HexDigits(hi, l), HexDigits(lo / 16, k - 1), DigitChar(lo % 16));
    }
  }

  /** x >> 4 * k. */
  function Shifted(x: nat, k: nat): nat {
    if k == 0 then x else Shifted(x, k - 1) / 16
  }

  lemma {:induction false} ShiftedMeans(x: nat, k: nat)
    ensures Shifted(x, k) == x / Pow(16, k)
  {
    if k == 0 {
      assert x / Pow(16, 0) == x;
    } else {
      ShiftedMeans(x, k - 1);
      DivDiv(x, Pow(16, k - 1), 16);
    }
  }

  /** One digit more, when x is shifted by one digit less. */
  lemma NextDigit(x: nat, k: nat, len: nat)
    ensures HexDigits(Shifted(x, k), len + 1) == HexDigits(Shifted(x, k + 1), len) + [DigitChar(Shifted(x, k) % 16)]
  {
  }

  /** The inner loop of num2hex: the digits of one word, from the highest. */
  method WordDigits(x: word) returns (s: string)
    ensures s == HexDigits(x, 8)
  {
    s := "";
    var nd := 8;
    while nd > 0
      invariant 0 <= nd <= 8 && s == HexDigits(Shifted(x, nd), 8 - nd)
      decreases nd
    {
      var c := HEX_DIGITS[Shifted(x, nd - 1) % 16];
      NextDigit(x, nd - 1, 8 - nd);
      s := s + [c];
      nd := nd - 1;
    }
  }

  /** num2hex: the words from the top. */
  method Num2Hex(b: Bn) returns (s: string)
    ensures s == Printed(b)
    ensures |s| == 3 + 8 * |b.words| && s[..3] == (if b.neg then "-0x" else " 0x")
    ensures Horner(16, s[3..]) == Magnitude(b.words)
  {
    s := [if b.neg then '-' else ' '] + "0x";
    var digits := WordsDigits(b.words);
    s := s + digits;
    DigitsAreEnough(b);
    HornerOfDigits(Magnitude(b.words), 8 * |b.words|);
    assert s[3..] == digits;
  }

  /** The outer loop of num2hex. */
  method WordsDigits(ws: seq<word>) returns (s: string)
    ensures s == HexDigits(Magnitude(ws), 8 * |ws|)
  {
    s := "";
    var n := |ws|;
    while n > 0
      invariant 0 <= n <= |ws| && s == HexDigits(Magnitude(ws[n..]), 8 * (|ws| - n))
      decreases n
    {
      var t := WordDigits(ws[n - 1]);
      NextWordDigits(ws, n - 1);
      s := s + t;
      n := n - 1;
    }
    assert ws[0..] == ws;
  }

  lemma TailMagnitude(ws: seq<word>, n: nat)
    requires n < |ws|
    ensures Magnitude(ws[n..]) == ws[n] + BASE * Magnitude(ws[n + 1..])
  {
    assert ws[n..][1..] == ws[n + 1..];
  }

  lemma NextWordDigits(ws: seq<word>, n: nat)
    requires n < |ws|
    ensures HexDigits(Magnitude(ws[n..]), 8 * (|ws| - n))
            == HexDigits(Magnitude(ws[n + 1..]), 8 * (|ws| - n - 1)) + HexDigits(ws[n], 8)
  {
    TailMagnitude(ws, n);
    WordBeforeDigits(ws[n], Magnitude(ws[n + 1..]), 8 * (|ws| - n - 1), Magnitude(ws[n..]), 8 * (|ws| - n));
  }

  lemma WordBeforeDigits(x: word, hi: nat, l: nat, n: nat, len: nat)
    requires n == x + BASE * hi && len == l + 8
    ensures HexDigits(n, len) == HexDigits(hi, l) + HexDigits(x, 8)
  {
    EightDigits();
    HexDigitsJoin(hi, x, l, 8, n, len);
  }

  lemma EightDigits()
    ensures Pow(16, 8) == BASE
  {
    Pow16(8);
    Pow2Word();
  }

  /* ---- Reading ---- */

  /** The loop of the string constructor, Horner's rule on the digits from the left. */
  function Horner(base: nat, s: string): nat {
    if s == "" then 0 else Horner(base, s[..|s| - 1]) * base + DigitOf(s[|s| - 1])
  }

  predicate IsHex(s: string) { CharAt(s, 0) == '0' && (CharAt(s, 1) == 'x' || CharAt(s, 1) == 'X') }

  /** The value of an unsigned literal. */
  function ReadUnsigned(s: string): nat {
    if IsHex(s) then Horner(16, s[2..]) else Horner(10, s)
  }

  /** What the string constructor makes of a C string. */
  function Read(s: string): int {
    if CharAt(s, 0) == '-' then
      var n: int := ReadUnsigned(s[1..]);
      -n
    else ReadUnsigned(s)
  }

  lemma HornerSnoc(base: nat, s: string, c: char)
    ensures Horner(base, s + [c]) == Horner(base, s) * base + DigitOf(c)
  {
    assert (s + [c])[..|s|] == s;
  }

  lemma {:induction false} HornerOfDigits(n: nat, len: nat)
    requires n < Pow(16, len)
    ensures Horner(16, HexDigits(n, len)) == n
  {
    if len == 0 {
    } else {
      QuotientBelow(n, len);
      HornerOfDigits(n / 16, len - 1);
      HornerSnoc(16, HexDigits(n / 16, len - 1), DigitChar(n % 16));
      DigitRoundTrip(n % 16);
    }
  }

  lemma DigitsAreEnough(b: Bn)
    ensures Magnitude(b.words) < Pow(16, 8 * |b.words|)
  {
    Pow16(8 * |b.words|);
    MagnitudeBelow(b.words);
    assert 4 * (8 * |b.words|) == 32 * |b.words|;
  }

  /** The printed text without the blank that stands for plus. */
  function Stripped(b: Bn): string { if b.neg then Printed(b) else Printed(b)[1..] }

  lemma ReadHexText(digits: string)
    ensures Read("0x" + digits) == Horner(16, digits)
    ensures Read("-0x" + digits) == -(Horner(16, digits) as int)
  {
    var t := "0x" + digits;
    assert t[2..] == digits;
    assert ReadUnsigned(t) == Horner(16, digits);
    assert ("-0x" + digits)[1..] == t;
  }

  lemma StrippedText(b: Bn)
    ensures Stripped(b) == (if b.neg then "-0x" else "0x") + HexDigits(Magnitude(b.words), 8 * |b.words|)
  {
  }

  /** Reading the printed form, leading blank dropped, gives the number back. */
  lemma PrintReadRoundTrip(b: Bn)
    ensures Read(Stripped(b)) == Value(b)
  {
    DigitsAreEnough(b);
    HornerOfDigits(Magnitude(b.words), 8 * |b.words|);
    ReadHexText(HexDigits(Magnitude(b.words), 8 * |b.words|));
    StrippedText(b);
  }

  /** Printing what was read from a printed number reproduces the text. */
  lemma ReadPrintRoundTrip(b: Bn)
    requires Canonical(b)
    ensures Printed(FromInt(Read(Stripped(b)))) == Printed(b)
  {
    PrintReadRoundTrip(b);
    CanonicalUnique(b);
  }

  predicate IsUpperHex(s: string) { forall i :: 0 <= i < |s| ==> DigitOf(s[i]) < 16 }

  lemma CharRoundTrip(c: char)
    requires DigitOf(c) < 16
    ensures DigitChar(DigitOf(c)) == c
  {
  }

  lemma LastDigit(base: nat, s: string)
    requires s != ""
    ensures Horner(base, s) == Horner(base, s[..|s| - 1]) * base + DigitOf(s[|s| - 1])
  {
  }

  lemma LastChar(s: string)
    requires s != ""
    ensures s == s[..|s| - 1] + [s[|s| - 1]]
  {
  }

  /** The digits of what Horner's rule makes of an upper-case literal are the literal. */
  lemma {:induction false} DigitsOfHorner(s: string)
    requires IsUpperHex(s)
    ensures Horner(16, s) < Pow(16, |s|) && HexDigits(Horner(16, s), |s|) == s
  {
    if s == "" {
    } else {
      var init, c := s[..|s| - 1], s[|s| - 1];
      DigitsOfHorner(init);
      CharRoundTrip(c);
      LastDigit(16, s);
      LastChar(s);
      DigitsOfNext(Horner(16, s), |s|, Horner(16, init), |init|, DigitOf(c));
    }
  }

  /* ---- With the blank left in ---- */

  function DigitSum(s: string): nat {
    if s == "" then 0 else DigitSum(s[..|s| - 1]) + DigitOf(s[|s| - 1])
  }

  /** Ten and sixteen are both one modulo three, so both readings agree with the digit sum. */
  lemma {:induction false} HornerModThree(base: nat, s: string)
    requires base % 3 == 1
    ensures Horner(base, s) % 3 == DigitSum(s) % 3
  {
    if s == "" {
    } else {
      var init, d := s[..|s| - 1], DigitOf(s[|s| - 1]);
      HornerModThree(base, init);
      OneModThree(Horner(base, init), base, d);
      AddReduced(3, Horner(base, init), d);
      AddReduced(3, DigitSum(init), d);
    }
  }

  lemma OneModThree(h: nat, base: nat, d: nat)
    requires base % 3 == 1
    ensures (h * base + d) % 3 == (h + d) % 3
  {
    var k := base / 3;
    assert h * base == h + 3 * (h * k) by {
      assert base == 3 * k + 1;
      assert h * (3 * k + 1) == h * (3 * k) + h;
    }
    ModShift(h + d, h * k, 3);
  }

  lemma {:induction false} DigitSumJoin(a: string, b: string)
    ensures DigitSum(a + b) == DigitSum(a) + DigitSum(b)
  {
    if b == "" {
      assert a + b == a;
    } else {
      DigitSumJoin(a, b[..|b| - 1]);
      assert (a + b)[..|a + b| - 1] == a + b[..|b| - 1];
    }
  }

  /**
   * The text exactly as printed reads back as the number if and only if the number is negative:
   * the blank before a positive one makes the whole text a decimal literal, blank and x included.
   */
  lemma PrintedReadsBackOnlyIfNegative(b: Bn)
    ensures Read(Printed(b)) == Value(b) <==> b.neg
  {
    if b.neg {
      PrintReadRoundTrip(b);
    } else {
      DigitsAreEnough(b);
      HornerOfDigits(Magnitude(b.words), 8 * |b.words|);
      PrintedPositive(b);
      BlankChangesValue(HexDigits(Magnitude(b.words), 8 * |b.words|), Magnitude(b.words));
    }
  }

  lemma PrintedPositive(b: Bn)
    requires !b.neg
    ensures Printed(b) == " 0x" + HexDigits(Magnitude(b.words), 8 * |b.words|)
    ensures Value(b) == Magnitude(b.words)
  {
  }

  lemma BlankChangesValue(digits: string, n: nat)
    requires Horner(16, digits) == n
    ensures Read(" 0x" + digits) != n
  {
    var text := " 0x" + digits;
    HornerModThree(16, digits);
    HornerModThree(10, text);
    DigitSumJoin(" 0x", digits);
    BlankZeroX();
    AddReduced(3, DigitSum(digits), 32);
    AddReduced(3, n, 32);
    assert !IsHex(text) && CharAt(text, 0) == ' ';
  }

  lemma BlankZeroX()
    ensures DigitSum(" 0x") == 32
  {
    var t := " 0x";
    assert t[..2] == " 0" && t[..2][..1] == " " && t[..1][..0] == "";
    assert DigitSum(" ") == 16;
    assert DigitSum(" 0") == 16;
  }

  /* ---- Decimal literals ---- */

  lemma DecimalValue(d: nat)
    requires d < 10
    ensures DigitOf("0123456789"[d]) == d
  {
  }

  lemma {:induction false} HornerOfDecimal(n: nat)
    ensures Horner(10, Decimal(n)) == n
  {
    if n < 10 {
      DecimalValue(n);
      HornerSnoc(10, "", "0123456789"[n]);
      assert "" + ["0123456789"[n]] == Decimal(n);
    } else {
      HornerOfDecimal(n / 10);
      DecimalValue(n % 10);
      HornerSnoc(10, Decimal(n / 10), "0123456789"[n % 10]);
    }
  }

  /** A decimal literal, with a sign or without, is read at its value. */
  lemma DecimalRead(n: nat)
    ensures Read(Decimal(n)) == n && Read("-" + Decimal(n)) == -(n as int)
  {
    var s := Decimal(n);
    DecimalIsDigits(n);
    HornerOfDecimal(n);
    assert CharAt(s, 0) == s[0] && !IsHex(s);
    assert ("-" + s)[1..] == s;
  }

  /* ---- Lower-case digits ---- */

  predicate IsLowerDigit(c: char) { 'a' <= c <= 'f' }

  predicate IsHexDigit(c: char) { '0' <= c <= '9' || 'A' <= c <= 'F' || IsLowerDigit(c) }

  /** What a hexadecimal digit of either case means. */
  function MeantDigit(c: char): nat
    requires IsHexDigit(c)
  {
    if IsLowerDigit(c) then (c - 'a') as nat + 10
    else if 'A' <= c <= 'F' then (c - 'A') as nat + 10
    else (c - '0') as nat
  }

  /** What a string of hexadecimal digits of either case means. */
  function MeantValue(s: string): nat
    requires forall c :: c in s ==> IsHexDigit(c)
  {
    if s == "" then 0 else MeantValue(s[..|s| - 1]) * 16 + MeantDigit(s[|s| - 1])
  }

  lemma MeantOrSixteen(c: char)
    requires IsHexDigit(c)
    ensures DigitOf(c) == if IsLowerDigit(c) then 16 else MeantDigit(c)
  {
  }

  predicate HasLowerDigit(s: string) { exists c :: c in s && IsLowerDigit(c) }

  lemma LastLowerDigit(s: string)
    requires s != ""
    ensures HasLowerDigit(s) <==> HasLowerDigit(s[..|s| - 1]) || IsLowerDigit(s[|s| - 1])
  {
    assert s == s[..|s| - 1] + [s[|s| - 1]];
  }

  /** A lower-case digit counts sixteen, which is more than it means. */
  lemma {:induction false} ReadsTooMuch(s: string)
    requires forall c :: c in s ==> IsHexDigit(c)
    ensures Horner(16, s) >= MeantValue(s)
    ensures Horner(16, s) == MeantValue(s) <==> !HasLowerDigit(s)
  {
    if s == "" {
    } else {
      ReadsTooMuch(s[..|s| - 1]);
      MeantOrSixteen(s[|s| - 1]);
      LastDigit(16, s);
      LastLowerDigit(s);
    }
  }

  /** A hexadecimal literal, with a sign or without, is read at its value exactly without lower-case digits. */
  lemma {:induction false} LowerCaseMisread(s: string)
    requires forall c :: c in s ==> IsHexDigit(c)
    ensures Read("0x" + s) == MeantValue(s) <==> !HasLowerDigit(s)
    ensures Read("-0x" + s) == -(MeantValue(s) as int) <==> !HasLowerDigit(s)
  {
    ReadHexText(s);
    ReadsTooMuch(s);
  }
}
