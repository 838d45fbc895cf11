/** The number printers of kernel/vga.c and the numerals they produce. */
module Numerals {
  import opened Words
  import opened TextTape

  const MINUS: Char := 45

  function DigitChar(d: nat): Char
    requires d < 16
  {
    if d < 10 then 48 + d else 97 + d - 10
  }

  /** The digits are `0` to `9` and then `a` to `f`, and the sign is `-`. */
  lemma DigitCodes(d: nat)
    requires d < 16
    ensures DigitChar(d) == [48, 49, 50, 51, 52, 53, 54, 55, 56, 57, 97, 98, 99, 100, 101, 102][d]
    ensures MINUS == 45
  {
  }

  predicate IsDigit(c: Char, base: nat) {
    exists d :: 0 <= d < base && d < 16 && DigitChar(d) == c
  }

  function DigitValue(c: Char): int {
    if 48 <= c < 58 then c - 48 else c - 97 + 10
  }

  lemma DigitRoundTrip(d: nat)
    requires d < 16
    ensures DigitValue(DigitChar(d)) == d
  {
  }

  function Pow(base: nat, n: nat): (r: nat)
    requires base > 0
    ensures r > 0
  {
    if n == 0 then 1 else base * Pow(base, n - 1)
  }

  // ---------------------------------------------------------------- products

  lemma Distribute(v: int, p: int, h: int, base: int)
    ensures (v * p + h) * base == v * (base * p) + h * base
  {
  }

  lemma AtLeastOnce(x: int, b: int)
    requires x >= 1 && b >= 0
    ensures x * b >= b
  {
  }

  lemma Grows(x: int, y: int, b: int)
    requires x <= y && b >= 0
    ensures x * b <= y * b
  {
  }

  lemma Place(h: int, d: int, base: int, p: int)
    requires 0 <= h < p && 0 <= d < base
    ensures 0 <= h * base + d < base * p
  {
    Grows(h + 1, p, base);
    Grows(0, h, base);
    Distribute(1, h, 1, base);
  }

  lemma SplitProduct(num: nat, base: nat, p: nat)
    requires base > 0
    ensures num * p == num / base * (base * p) + num % base * p
  {
    Distribute(num / base, base, num % base, p);
    assert num == num / base * base + num % base;
    assert base * p == p * base;
  }

  // ---------------------------------------------------------------- reading numerals

  /** Reads digits left to right. */
  function Parse(text: seq<Char>, base: nat): int {
    if text == [] then 0 else Parse(text[..|text| - 1], base) * base + DigitValue(text[|text| - 1])
  }

  /** Digits only, at least one, and no leading zero. */
  ghost predicate Numeral(text: seq<Char>, base: nat) {
    && text != []
    && (forall i :: 0 <= i < |text| ==> IsDigit(text[i], base))
    && (|text| > 1 ==> DigitValue(text[0]) != 0)
  }

  function ParseSigned(text: seq<Char>): int {
    if text != [] && text[0] == MINUS then -Parse(text[1..], 10) else Parse(text, 10)
  }

  lemma {:induction false} ParseCons(c: Char, text: seq<Char>, base: nat)
    requires base > 0
    ensures Parse([c] + text, base) == DigitValue(c) * Pow(base, |text|) + Parse(text, base)
  {
    if text == [] {
      assert [c] + text == [c];
      assert [c][..0] == [];
    } else {
      var n := |text| - 1;
      ParseCons(c, text[..n], base);
      assert ([c] + text)[..n + 1] == [c] + text[..n];
      Distribute(DigitValue(c), Pow(base, n), Parse(text[..n], base), base);
    }
  }

  lemma {:induction false} ParseBounds(text: seq<Char>, base: nat)
    requires 1 < base <= 16 && forall i :: 0 <= i < |text| ==> IsDigit(text[i], base)
    ensures 0 <= Parse(text, base) < Pow(base, |text|)
  {
    if text != [] {
      var n := |text| - 1;
      ParseBounds(text[..n], base);
      assert IsDigit(text[n], base);
      var d :| 0 <= d < base && d < 16 && DigitChar(d) == text[n];
      DigitRoundTrip(d);
      Place(Parse(text[..n], base), d, base, Pow(base, n));
    }
  }

  /** A numeral is determined by the number it denotes: there is one way to print it. */
  lemma {:induction false} NumeralUnique(a: seq<Char>, b: seq<Char>, base: nat)
    requires 1 < base <= 16 && Numeral(a, base) && Numeral(b, base) && Parse(a, base) == Parse(b, base)
    ensures a == b
  {
    SameLength(a, b, base);
    SameDigits(a, b, base);
  }

  lemma {:induction false} SameDigits(a: seq<Char>, b: seq<Char>, base: nat)
    requires 1 < base <= 16 && |a| == |b| && Parse(a, base) == Parse(b, base)
    requires forall i :: 0 <= i < |a| ==> IsDigit(a[i], base) && IsDigit(b[i], base)
    ensures a == b
  {
    if a != [] {
      var n := |a| - 1;
      assert IsDigit(a[n], base) && IsDigit(b[n], base);
      var d :| 0 <= d < base && d < 16 && DigitChar(d) == a[n];
      var e :| 0 <= e < base && e < 16 && DigitChar(e) == b[n];
      DigitRoundTrip(d);
      DigitRoundTrip(e);
      QuotientUnique(Parse(a[..n], base), d, Parse(b[..n], base), e, base);
      SameDigits(a[..n], b[..n], base);
      assert a == a[..n] + [a[n]] && b == b[..n] + [b[n]];
    }
  }

  lemma QuotientUnique(p: int, d: int, q: int, e: int, base: nat)
    requires 0 <= d < base && 0 <= e < base && p * base + d == q * base + e
    ensures p == q && d == e
  {
    Distribute(1, p, -q, base);
    if p < q {
      AtLeastOnce(q - p, base);
      Distribute(1, q, -p, base);
    } else if q < p {
      AtLeastOnce(p - q, base);
    }
  }

  /** A longer numeral denotes a larger number. */
  lemma SameLength(a: seq<Char>, b: seq<Char>, base: nat)
    requires 1 < base <= 16 && Numeral(a, base) && Numeral(b, base) && Parse(a, base) == Parse(b, base)
    ensures |a| == |b|
  {
    if |a| < |b| {
      LongerIsLarger(a, b, base);
    } else if |b| < |a| {
      LongerIsLarger(b, a, base);
    }
  }

  lemma LongerIsLarger(a: seq<Char>, b: seq<Char>, base: nat)
    requires 1 < base <= 16 && Numeral(a, base) && Numeral(b, base) && |a| < |b|
    ensures Parse(a, base) < Parse(b, base)
  {
    ParseBounds(a, base);
    var c, rest := b[0], b[1..];
    assert b == [c] + rest;
    ParseCons(c, rest, base);
    ParseBounds(rest, base);
    assert IsDigit(c, base);
    var d :| 0 <= d < base && d < 16 && DigitChar(d) == c;
    DigitRoundTrip(d);
    PowMonotone(base, |a|, |rest|);
    AtLeastOnce(d, Pow(base, |rest|));
  }

  lemma {:induction false} PowMonotone(base: nat, m: nat, n: nat)
    requires base > 0 && m <= n
    ensures Pow(base, m) <= Pow(base, n)
    decreases n
  {
    if m < n {
      PowMonotone(base, m, n - 1);
      AtLeastOnce(base, Pow(base, n - 1));
    }
  }

  // ---------------------------------------------------------------- digit loops

  function Reversed(s: seq<Char>): (r: seq<Char>)
    ensures |r| == |s| && forall i :: 0 <= i < |s| ==> r[i] == s[|s| - 1 - i]
  {
    if s == [] then [] else [s[|s| - 1]] + Reversed(s[..|s| - 1])
  }

  /** One more low digit in front of the reversed text. */
  lemma DigitStep(num: nat, digits: seq<Char>, base: nat)
    requires 1 < base <= 16
    ensures var c := DigitChar(num % base);
      && Reversed(digits + [c]) == [c] + Reversed(digits)
      && num * Pow(base, |digits|) + Parse(Reversed(digits), base)
         == num / base * Pow(base, |digits| + 1) + Parse([c] + Reversed(digits), base)
  {
    var c := DigitChar(num % base);
    assert (digits + [c])[..|digits|] == digits;
    ParseCons(c, Reversed(digits), base);
    DigitRoundTrip(num % base);
    SplitProduct(num, base, Pow(base, |digits|));
  }

  /** `num` still fits in the digits that are left. */
  lemma RoomLeft(num: nat, left: nat, base: nat)
    requires 1 < base && 0 < num < Pow(base, left)
    ensures left > 0 && num / base < Pow(base, left - 1)
  {
    if left > 0 {
      assert num < base * Pow(base, left - 1);
      if num / base >= Pow(base, left - 1) {
        Grows(Pow(base, left - 1), num / base, base);
      }
    }
  }

  /** Ten decimal or sixteen hexadecimal digits are enough for the machine words. */
  lemma WordsFit()
    ensures Pow(10, 10) == 10_000_000_000 && Pow(16, 16) == TWO_64
  {
    assert Pow(10, 5) == 100_000;
    assert Pow(16, 8) == 0x1_0000_0000;
  }

  /** Reversal in place, as both decimal printers do it. */
  method ReverseBuffer(buf: array<Char>, n: nat)
    requires n <= buf.Length
    modifies buf
    ensures buf[..n] == Reversed(old(buf[..n]))
    ensures buf[n..] == old(buf[n..])
  {
    var j, k := 0, n - 1;
    while j < k
      invariant 0 <= j <= n && k == n - 1 - j
      invariant forall i :: 0 <= i < n && (i < j || i > k) ==> buf[i] == old(buf[n - 1 - i])
      invariant forall i :: j <= i <= k && 0 <= i < n ==> buf[i] == old(buf[i])
      invariant buf[n..] == old(buf[n..])
    {
      var temp := buf[j];
      buf[j] := buf[k];
      buf[k] := temp;
      j, k := j + 1, k - 1;
    }
    forall i | 0 <= i < n ensures buf[i] == old(buf[n - 1 - i]) {
    }
  }

  /**
   * The digit loop of `kprint_num` and `kprint_unsigned` with its cap of 15: the cap is never
   * reached, and the digits come out lowest first.
   */
  method DecimalDigits(num: nat, buf: array<Char>) returns (i: nat)
    requires num < TWO_32 && buf.Length == 16
    modifies buf
    ensures 1 <= i <= 10
    ensures Numeral(Reversed(buf[..i]), 10) && Parse(Reversed(buf[..i]), 10) == num
  {
    i := 0;
    if num == 0 {
      buf[0] := 48;
      i := 1;
      ZeroNumeral(buf[..1]);
      return;
    }
    var rest := num;
    DecimalStart(num);
    assert buf[..0] == [];
    while rest > 0 && i < 15
      invariant i <= 10 && DecimalProgress(num, rest, buf[..i])
    {
      DecimalStep(num, rest, buf[..i]);
      PushBack(buf, i, DigitChar(rest % 10));
      i := i + 1;
      rest := rest / 10;
    }
    DecimalDone(num, buf[..i]);
  }

  /** `buf[i] = c`, one past the text so far. */
  method PushBack(buf: array<Char>, i: nat, c: Char)
    requires i < buf.Length
    modifies buf
    ensures buf[..i + 1] == old(buf[..i]) + [c]
  {
    buf[i] := c;
    assert buf[..i] == old(buf[..i]);
  }

  ghost predicate DecimalProgress(num: nat, rest: nat, digits: seq<Char>) {
    Progress(num, rest, digits, 10, 10)
  }

  lemma DecimalStart(num: nat)
    requires num < TWO_32
    ensures DecimalProgress(num, num, [])
  {
    WordsFit();
  }

  lemma DecimalStep(num: nat, rest: nat, digits: seq<Char>)
    requires rest > 0 && DecimalProgress(num, rest, digits)
    ensures |digits| < 10 && DecimalProgress(num, rest / 10, digits + [DigitChar(rest % 10)])
  {
    ProgressStep(num, rest, digits, 10, 10);
  }

  lemma DecimalDone(num: nat, digits: seq<Char>)
    requires num > 0 && DecimalProgress(num, 0, digits)
    ensures 1 <= |digits| && Numeral(Reversed(digits), 10) && Parse(Reversed(digits), 10) == num
  {
    ProgressDone(num, digits, 10, 10);
  }

  /** What the digit loop knows: `rest` above the digits already written, which fit in `cap` places. */
  ghost predicate Progress(num: nat, rest: nat, digits: seq<Char>, base: nat, cap: nat)
    requires base > 0
  {
    && |digits| <= cap && rest < Pow(base, cap - |digits|)
    && rest * Pow(base, |digits|) + Parse(Reversed(digits), base) == num
    && (forall j :: 0 <= j < |digits| ==> IsDigit(digits[j], base))
    && (digits == [] ==> rest == num)
    && (rest == 0 && digits != [] ==> DigitValue(digits[|digits| - 1]) != 0)
  }

  lemma ProgressStep(num: nat, rest: nat, digits: seq<Char>, base: nat, cap: nat)
    requires 1 < base <= 16 && rest > 0 && Progress(num, rest, digits, base, cap)
    ensures |digits| < cap && Progress(num, rest / base, digits + [DigitChar(rest % base)], base, cap)
  {
    var digits' := digits + [DigitChar(rest % base)];
    DigitStep(rest, digits, base);
    RoomLeft(rest, cap - |digits|, base);
    DigitsStay(rest % base, digits, base);
    assert digits'[|digits'| - 1] == DigitChar(rest % base);
    DigitRoundTrip(rest % base);
    TopDigit(rest, base);
  }

  lemma DigitsStay(d: nat, digits: seq<Char>, base: nat)
    requires d < base <= 16 && forall j :: 0 <= j < |digits| ==> IsDigit(digits[j], base)
    ensures var more := digits + [DigitChar(d)];
      forall j :: 0 <= j < |more| ==> IsDigit(more[j], base)
  {
  }

  lemma TopDigit(rest: nat, base: nat)
    requires base > 1 && rest > 0
    ensures rest / base == 0 ==> rest % base != 0
  {
  }

  lemma ProgressDone(num: nat, digits: seq<Char>, base: nat, cap: nat)
    requires 1 < base <= 16 && num > 0 && Progress(num, 0, digits, base, cap)
    ensures Numeral(Reversed(digits), base) && Parse(Reversed(digits), base) == num
  {
  }

  lemma ZeroNumeral(text: seq<Char>)
    requires text == [48]
    ensures Numeral(Reversed(text), 10) && Parse(Reversed(text), 10) == 0
  {
    assert DigitChar(0) == 48;
    assert Reversed(text) == [48];
  }

  // ---------------------------------------------------------------- the printers

  /** The text of `kprint_unsigned`. */
  method FormatUnsigned(num: U32) returns (text: seq<Char>)
    ensures Numeral(text, 10) && Parse(text, 10) == num && |text| <= 10
  {
    var buf := new Char[16];
    var i := DecimalDigits(num, buf);
    buf[i] := 0;
    ReverseBuffer(buf, i);
    text := buf[..i];
  }

  /** A decimal text with a leading minus sign exactly for the negative numbers. */
  ghost predicate SignedNumeral(text: seq<Char>, num: int) {
    if num < 0 then text != [] && text[0] == MINUS && Numeral(text[1..], 10) else Numeral(text, 10)
  }

  /** The text of `kprint_num`, the smallest number being a case of its own. */
  method FormatSigned(num: int) returns (text: seq<Char>)
    requires -0x8000_0000 <= num < 0x8000_0000
    ensures SignedNumeral(text, num) && ParseSigned(text) == num && |text| <= 11
  {
    if num == -2147483648 {
      SmallestNumber();
      return SmallestText();
    }
    var buf := new Char[16];
    var magnitude := if num < 0 then -num else num;
    var i := DecimalDigits(magnitude, buf);
    ghost var digits := buf[..i];
    if num < 0 {
      buf[i] := MINUS;
      i := i + 1;
      assert buf[..i] == digits + [MINUS];
    }
    buf[i] := 0;
    ReverseBuffer(buf, i);
    text := buf[..i];
    SignedText(digits, num, text);
  }

  lemma SignedText(digits: seq<Char>, num: int, text: seq<Char>)
    requires Numeral(Reversed(digits), 10) && Parse(Reversed(digits), 10) == if num < 0 then -num else num
    requires text == Reversed(if num < 0 then digits + [MINUS] else digits)
    ensures SignedNumeral(text, num) && ParseSigned(text) == num
  {
    if num < 0 {
      assert (digits + [MINUS])[..|digits|] == digits;
      assert text == [MINUS] + Reversed(digits);
      assert text[1..] == Reversed(digits);
    } else {
      assert IsDigit(text[0], 10);
    }
  }

  function SmallestText(): seq<Char> {
    [45, 50, 49, 52, 55, 52, 56, 51, 54, 52, 56]
  }

  lemma SmallestNumber()
    ensures SignedNumeral(SmallestText(), -2147483648) && ParseSigned(SmallestText()) == -2147483648
  {
    var t: seq<Char> := [50, 49, 52, 55, 52, 56, 51, 54, 52, 56];
    assert SmallestText()[1..] == t;
    forall i | 0 <= i < |t| ensures IsDigit(t[i], 10) {
      assert DigitChar(t[i] - 48) == t[i];
    }
    assert Parse(t[..1], 10) == 2 by { assert t[..1][..0] == []; }
    assert Parse(t[..2], 10) == 21 by { assert t[..2][..1] == t[..1]; }
    assert Parse(t[..3], 10) == 214 by { assert t[..3][..2] == t[..2]; }
    assert Parse(t[..4], 10) == 2147 by { assert t[..4][..3] == t[..3]; }
    assert Parse(t[..5], 10) == 21474 by { assert t[..5][..4] == t[..4]; }
    assert Parse(t[..6], 10) == 214748 by { assert t[..6][..5] == t[..5]; }
    assert Parse(t[..7], 10) == 2147483 by { assert t[..7][..6] == t[..6]; }
    assert Parse(t[..8], 10) == 21474836 by { assert t[..8][..7] == t[..7]; }
    assert Parse(t[..9], 10) == 214748364 by { assert t[..9][..8] == t[..8]; }
  }

  lemma ReversedTwice(t: seq<Char>)
    ensures Reversed(Reversed(t)) == t
  {
  }

  lemma ReversedCons(c: Char, t: seq<Char>)
    ensures Reversed([c] + t) == Reversed(t) + [c]
  {
  }

  /** The digit loop of the `%x` branch of `vkprintf`, downwards from the end of the buffer. */
  method HexDigits(num: U64, buf: array<Char>) returns (p: nat)
    requires num > 0 && buf.Length == 20
    modifies buf
    ensures 3 <= p < 19
    ensures Numeral(buf[p..19], 16) && Parse(buf[p..19], 16) == num
  {
    p := 19;
    var rest: nat := num;
    HexStart(num);
    assert buf[19..19] == [];
    while rest > 0
      invariant 3 <= p <= 19 && HexProgress(num, rest, buf[p..19])
    {
      HexStep(num, rest, buf[p..19]);
      PushFront(buf, p, DigitChar(rest % 16));
      p := p - 1;
      rest := rest / 16;
    }
    HexDone(num, buf[p..19]);
  }

  /** `*(--p) = c`. */
  method PushFront(buf: array<Char>, p: nat, c: Char)
    requires buf.Length == 20 && 0 < p <= 19
    modifies buf
    ensures buf[p - 1..19] == [c] + old(buf[p..19])
  {
    buf[p - 1] := c;
    assert buf[p..19] == old(buf[p..19]);
  }

  ghost predicate HexProgress(num: nat, rest: nat, text: seq<Char>) {
    Progress(num, rest, Reversed(text), 16, 16)
  }

  lemma HexStart(num: U64)
    ensures HexProgress(num, num, [])
  {
    WordsFit();
  }

  lemma HexStep(num: nat, rest: nat, text: seq<Char>)
    requires rest > 0 && HexProgress(num, rest, text)
    ensures |text| < 16 && HexProgress(num, rest / 16, [DigitChar(rest % 16)] + text)
  {
    ProgressStep(num, rest, Reversed(text), 16, 16);
    ReversedCons(DigitChar(rest % 16), text);
  }

  lemma HexDone(num: nat, text: seq<Char>)
    requires num > 0 && HexProgress(num, 0, text)
    ensures Numeral(text, 16) && Parse(text, 16) == num
  {
    ProgressDone(num, Reversed(text), 16, 16);
    ReversedTwice(text);
  }

  /** The text of the `%x` branch of `vkprintf`. */
  method FormatHex(num: U64) returns (text: seq<Char>)
    ensures Numeral(text, 16) && Parse(text, 16) == num && |text| <= 16
  {
    var buf := new Char[20];
    buf[19] := 0;
    var p := 18;
    if num == 0 {
      buf[p] := 48;
      ZeroDigit(buf[p..19]);
    } else {
      p := HexDigits(num, buf);
    }
    text := buf[p..19];
  }

  lemma ZeroDigit(text: seq<Char>)
    requires text == [48]
    ensures Numeral(text, 16) && Parse(text, 16) == 0
  {
    assert DigitChar(0) == 48;
  }
}
