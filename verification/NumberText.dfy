/** Numbers as text: what itoa_s writes and what strtol reads. */
module NumberSpec {

  const LONG_MAX: int := 0x7FFF_FFFF
  const LONG_MIN: int := -0x8000_0000
  const ERANGE: int := 3
  const LETTERS: string := "0123456789abcdef"

  /** lettermap[d] */
  function Letter(d: nat): char
    requires d < 16
  {
    LETTERS[d]
  }

  /** The digits of n, most significant first; 0 is one digit. */
  function Digits(n: nat, base: nat): (t: string)
    requires 2 <= base <= 16
    ensures t != []
    decreases n
  {
    if n < base then [Letter(n)] else Digits(n / base, base) + [Letter(n % base)]
  }

  /** The text that itoa_s leaves in its destination. */
  function ItoaText(n: nat, base: nat): string
    requires 2 <= base
  {
    if n == 0 || base > 16 then "0" else Digits(n, base)
  }

  /** The value of one character as strtol takes it; 36 is no digit in any base. */
  function DigitValue(c: char): nat {
    if '0' <= c <= '9' then c as int - '0' as int
    else if 'A' <= c <= 'Z' then c as int - 'A' as int + 10
    else if 'a' <= c <= 'z' then c as int - 'a' as int + 10
    else 36
  }

  /** Ten digits and both alphabets, counting up; nothing else is a digit. */
  lemma DigitsCountUp(c: char)
    ensures DigitValue('0') == 0 && DigitValue('a') == DigitValue('A') == 10 && DigitValue('z') == DigitValue('Z') == 35
    ensures '0' <= c < '9' || 'a' <= c < 'z' || 'A' <= c < 'Z' ==>
      DigitValue((c as int + 1) as char) == DigitValue(c) + 1
    ensures DigitValue(c) >= 36 <==> !('0' <= c <= '9' || 'a' <= c <= 'z' || 'A' <= c <= 'Z')
  {
  }

  /** The longest prefix that strtol consumes. */
  function DigitRun(s: string, base: nat): string {
    if s == "" || s[0] == '\0' || DigitValue(s[0]) >= base then "" else [s[0]] + DigitRun(s[1..], base)
  }

  /** The number a digit text denotes, by Horner's rule. */
  function Value(t: string, base: nat): nat {
    if t == "" then 0 else Value(t[..|t| - 1], base) * base + DigitValue(t[|t| - 1])
  }

  function Min(a: int, b: int): int {
    if a <= b then a else b
  }

  predicate Blank(c: char) {
    c == ' ' || c == '\t'
  }

  /** Blanks are skipped together with the character after them. */
  function AfterBlanks(s: string): string {
    if s == "" || !Blank(s[0]) then s else PastNonBlank(s)
  }

  function PastNonBlank(s: string): (r: string)
    ensures |r| <= |s|
  {
    if s == "" then "" else if Blank(s[0]) then PastNonBlank(s[1..]) else s[1..]
  }

  predicate IsMinus(s: string) {
    var t := AfterBlanks(s);
    t != "" && t[0] == '-'
  }

  /** What follows the blanks and the sign. */
  function Unsigned(s: string): string {
    var t := AfterBlanks(s);
    if t != "" && (t[0] == '-' || t[0] == '+') then t[1..] else t
  }

  /** The digits in base 0 follow a letter O; there is no other way to ask for a base. */
  predicate IsOctal(s: string) {
    Unsigned(s) != "" && Unsigned(s)[0] == 'O'
  }

  function BaseOf(base: int): int {
    if base == 0 then 8 else base
  }

  /** The text that the digit loop reads. */
  function Number(s: string, base: int): string {
    if base == 0 && IsOctal(s) then Unsigned(s)[1..] else Unsigned(s)
  }

  function Limit(minus: bool): nat {
    if minus then -LONG_MIN else LONG_MAX
  }

  /** A 32-bit long in two's complement. */
  function Wrap(x: int): int {
    var m := x % 0x1_0000_0000;
    if m > LONG_MAX then m - 0x1_0000_0000 else m
  }

  /** The accumulator and its overflow flag. */
  datatype Total = Total(value: int, over: bool)

  function Accumulated(t: string, base: nat, limit: nat): Total
    requires base > 0
  {
    if t == "" then Total(0, false)
    else
      var a, c := Accumulated(t[..|t| - 1], base, limit), DigitValue(t[|t| - 1]);
      if a.over || a.value > limit / base || (a.value == limit / base && c > limit % base)
      then Total(a.value, true)
      else Total(Wrap(a.value * base + c), false)
  }

  /** Some digits, but not all, denote 2^31, the one number in range that the accumulator cannot hold. */
  predicate PassesMin(t: string, base: nat) {
    exists k: nat :: k < |t| && Value(t[..k], base) == -LONG_MIN
  }

  /** The flag tells whether the number passes the limit, and the accumulator is it if not. */
  predicate Exact(t: string, base: nat, limit: nat)
    requires base > 0
  {
    var a := Accumulated(t, base, limit);
    && (a.over <==> Value(t, base) > limit)
    && (!a.over ==> a.value == Wrap(Value(t, base)))
  }

  function Pow(b: nat, k: nat): nat {
    if k == 0 then 1 else b * Pow(b, k - 1)
  }

  // ----- printing -----

  lemma LetterValue(d: nat)
    requires d < 16
    ensures DigitValue(Letter(d)) == d && Letter(d) != '\0' && (Letter(d) == '0' <==> d == 0)
    ensures '0' <= Letter(d) <= '9' || 'a' <= Letter(d) <= 'f'
  {
  }

  /** The printed digits denote the number, and every one is a digit of the base. */
  lemma {:induction false} DigitsDenote(n: nat, base: nat)
    requires 2 <= base <= 16
    ensures Value(Digits(n, base), base) == n
    ensures forall k :: 0 <= k < |Digits(n, base)| ==>
      DigitValue(Digits(n, base)[k]) < base && Digits(n, base)[k] != '\0'
    ensures n > 0 ==> Digits(n, base)[0] != '0'
    ensures forall k :: 0 <= k < |Digits(n, base)| ==>
      '0' <= Digits(n, base)[k] <= '9' || 'a' <= Digits(n, base)[k] <= 'f'
    decreases n
  {
    hide Letter, DigitValue, Value;
    if n < base {
      LetterValue(n);
      ValueOfMore("", Letter(n), base);
      NoText(base);
      assert Digits(n, base) == "" + [Letter(n)];
    } else {
      Shrinks(n, base);
      DigitsDenote(n / base, base);
      LetterValue(n % base);
      ValueOfMore(Digits(n / base, base), Letter(n % base), base);
    }
  }

  lemma NoText(base: nat)
    ensures Value("", base) == 0
  {
  }

  lemma Shrinks(n: nat, base: nat)
    requires 2 <= base
    ensures n > 0 ==> n / base < n
    ensures n < base <==> n / base == 0
    ensures n < base ==> n % base == n
    ensures n / base * base + n % base == n
  {
    DivBelow(n, base, n);
    DivBelow(n, base, 1);
    MulUp(n, 2, base);
  }

  lemma DivBelow(n: nat, b: nat, m: nat)
    requires b > 0
    ensures n / b < m <==> n < b * m
  {
    assert n == b * (n / b) + n % b;
    if n / b < m {
      MulUp(b, n / b + 1, m);
    } else {
      MulUp(b, m, n / b);
    }
  }

  lemma MulUp(b: nat, x: nat, y: nat)
    requires x <= y
    ensures b * x <= b * y
  {
  }

  /** A number has at most k digits exactly when it is below base to the k. */
  lemma {:induction false} DigitCount(n: nat, base: nat, k: nat)
    requires 2 <= base <= 16 && k > 0
    ensures |Digits(n, base)| <= k <==> n < Pow(base, k)
    decreases k
  {
    if k == 1 {
      assert Pow(base, 1) == base * Pow(base, 0) == base;
    } else if n < base {
      PowAtLeastBase(base, k);
    } else {
      DigitCount(n / base, base, k - 1);
      DivBelow(n, base, Pow(base, k - 1));
    }
  }

  lemma {:induction false} PowAtLeastBase(base: nat, k: nat)
    requires base >= 1 && k >= 1
    ensures Pow(base, k) >= base
    decreases k
  {
    if k > 1 {
      PowAtLeastBase(base, k - 1);
      MulUp(base, 1, Pow(base, k - 1));
    } else {
      assert Pow(base, 1) == base * Pow(base, 0);
    }
  }

  lemma {:induction false} PowOfLarger(a: nat, b: nat, k: nat)
    requires a <= b
    ensures Pow(a, k) <= Pow(b, k)
    decreases k
  {
    if k > 0 {
      PowOfLarger(a, b, k - 1);
      MulUp(a, Pow(a, k - 1), Pow(b, k - 1));
      MulUp(Pow(b, k - 1), a, b);
    }
  }

  lemma Pow2To32()
    ensures Pow(2, 32) == 0x1_0000_0000 && Pow(2, 31) == 0x8000_0000
  {
    assert Pow(2, 8) == 256;
    assert Pow(2, 16) == 65536;
    assert Pow(2, 24) == 0x100_0000;
    assert Pow(2, 31) == 0x8000_0000;
  }

  /** 32 slots always suffice for a 32-bit number, and binary numbers from 2^31 need all of them. */
  lemma BufferBoundIsExact(n: nat, base: nat)
    requires n < 0x1_0000_0000 && 2 <= base <= 16
    ensures |Digits(n, base)| <= 32
    ensures base == 2 ==> (|Digits(n, base)| == 32 <==> n >= 0x8000_0000)
  {
    Pow2To32();
    PowOfLarger(2, base, 32);
    DigitCount(n, base, 32);
    if base == 2 {
      DigitCount(n, 2, 31);
    }
  }

  // ----- reading -----

  /** The cutoff test is exact: it fires exactly when one more digit would pass the limit. */
  lemma CutoffIsExact(v: nat, c: nat, base: nat, max: nat)
    requires base > 0 && c < base
    ensures (v > max / base || (v == max / base && c > max % base)) <==> v * base + c > max
  {
    var q, r := max / base, max % base;
    assert max == q * base + r;
    if v < q {
      MulUp(base, v + 1, q);
    } else if v > q {
      MulUp(base, q + 1, v);
    }
  }

  lemma ValueOfMore(t: string, c: char, base: nat)
    ensures Value(t + [c], base) == Value(t, base) * base + DigitValue(c)
    ensures base > 0 ==> Value(t + [c], base) >= Value(t, base)
  {
    assert (t + [c])[..|t|] == t;
    if base > 0 {
      MulUp(Value(t, base), 1, base);
    }
  }

  /** What strtol makes of the accumulator and the flag. */
  function Answer(a: Total, minus: bool): int {
    if a.over then if minus then LONG_MIN else LONG_MAX
    else if minus then Wrap(-a.value) else a.value
  }

  /** The number, or the end of the range that it lies beyond. */
  function Clamped(v: nat, minus: bool): int {
    if minus then -Min(v, -LONG_MIN) else Min(v, LONG_MAX)
  }

  lemma AnswerIsClamped(t: string, base: nat, minus: bool)
    requires 0 < base
    ensures var total := Accumulated(t, base, Limit(minus));
      Exact(t, base, Limit(minus)) ==>
      Answer(total, minus) == Clamped(Value(t, base), minus) && (total.over <==> Value(t, base) > Limit(minus))
  {
    hide Accumulated, Value;
  }

  predicate AllDigits(t: string, base: nat) {
    forall k :: 0 <= k < |t| ==> DigitValue(t[k]) < base
  }

  /** One more digit keeps the accumulator exact unless it had reached 2^31. */
  lemma ExactStep(u: string, c: char, base: nat, minus: bool)
    requires 2 <= base <= 36 && DigitValue(c) < base
    requires Exact(u, base, Limit(minus)) && (minus ==> Value(u, base) != -LONG_MIN)
    ensures Exact(u + [c], base, Limit(minus))
  {
    hide DigitValue, Value, Accumulated, Wrap;
    ValueOfMore(u, c, base);
    NextAccumulated(u, c, base, Limit(minus));
    if Value(u, base) <= Limit(minus) {
      WrapsToItself(Value(u, base));
    }
  }

  lemma NextAccumulated(u: string, c: char, base: nat, limit: nat)
    requires 2 <= base && DigitValue(c) < base
    ensures var a, b := Accumulated(u, base, limit), Accumulated(u + [c], base, limit);
      && (a.over ==> b.over)
      && (!a.over && a.value >= 0 ==>
        var next := a.value * base + DigitValue(c);
        (b.over <==> next > limit) && (!b.over ==> b.value == Wrap(next)))
  {
    hide DigitValue, Wrap;
    assert (u + [c])[..|u|] == u;
    var a := Accumulated(u, base, limit);
    if a.value >= 0 {
      CutoffIsExact(a.value, DigitValue(c), base, limit);
    }
  }

  lemma WrapsToItself(x: int)
    ensures LONG_MIN <= x <= LONG_MAX ==> Wrap(x) == x
  {
  }

  lemma {:induction false} ExactUnlessPassed(t: string, base: nat, minus: bool)
    requires 2 <= base <= 36 && AllDigits(t, base)
    requires minus ==> !PassesMin(t, base)
    ensures Exact(t, base, Limit(minus))
  {
    hide DigitValue, Exact;
    if t == "" {
      NothingIsExact(base, minus);
    } else {
      var u := t[..|t| - 1];
      assert t == u + [t[|t| - 1]];
      assert forall k: nat :: k < |u| ==> u[..k] == t[..k];
      ExactUnlessPassed(u, base, minus);
      ExactStep(u, t[|t| - 1], base, minus);
    }
  }

  lemma NothingIsExact(base: nat, minus: bool)
    requires 2 <= base
    ensures Exact("", base, Limit(minus))
  {
  }

  lemma {:induction false} MoreDigitsMoreValue(t: string, k: nat, base: nat)
    requires 2 <= base && k < |t| && Value(t[..k], base) > 0
    ensures Value(t, base) > Value(t[..k], base)
  {
    hide DigitValue, Value;
    var u := t[..|t| - 1];
    assert t == u + [t[|t| - 1]];
    ValueOfMore(u, t[|t| - 1], base);
    if k < |u| {
      assert u[..k] == t[..k];
      MoreDigitsMoreValue(u, k, base);
    } else {
      assert u == t[..k];
    }
    MulUp(Value(u, base), 2, base);
  }

  lemma NegatedMin()
    ensures Wrap(-LONG_MIN) == LONG_MIN
  {
  }

  lemma WrapsInTwo(x: int, c: int)
    ensures Wrap(Wrap(x) + c) == Wrap(x + c)
  {
  }

  lemma {:induction false} RunIsDigits(s: string, base: nat)
    ensures AllDigits(DigitRun(s, base), base) && |DigitRun(s, base)| <= |s|
  {
    hide DigitValue;
    if s != "" && s[0] != '\0' && DigitValue(s[0]) < base {
      RunIsDigits(s[1..], base);
    }
  }

  /** Without a minus sign the loop is exact. With one it is exact if and only if no digits are left once
      2^31 has been reached, or the flag is raised later on. */
  lemma ExactIff(t: string, base: nat, minus: bool)
    requires 2 <= base <= 36 && AllDigits(t, base)
    ensures Exact(t, base, Limit(minus)) <==>
      (minus && PassesMin(t, base) ==> Accumulated(t, base, Limit(minus)).over)
  {
    hide DigitValue, Value, Accumulated;
    if minus && PassesMin(t, base) {
      var k: nat :| k < |t| && Value(t[..k], base) == -LONG_MIN;
      MoreDigitsMoreValue(t, k, base);
    } else {
      ExactUnlessPassed(t, base, minus);
    }
  }

  /** In an even base the digits up to 2^31 are forgotten: the rest is read as if it stood alone. */
  lemma {:induction false} PassedDigitsAreForgotten(t: string, k: nat, base: nat)
    requires 2 <= base <= 36 && base % 2 == 0 && AllDigits(t, base) && k < |t|
    requires Value(t[..k], base) == -LONG_MIN && !PassesMin(t[..k], base)
    ensures Accumulated(t, base, Limit(true)) == Accumulated(t[k..], base, Limit(true))
  {
    hide DigitValue, Value, Exact;
    var u, c := t[..|t| - 1], t[|t| - 1];
    var rest := t[k..];
    assert rest[..|rest| - 1] == u[k..] && rest[|rest| - 1] == c;
    if k < |u| {
      assert u[..k] == t[..k];
      PassedDigitsAreForgotten(u, k, base);
    } else {
      assert u == t[..k] && rest == [c] && rest[..0] == "";
      StandsAtMin(u, base);
      NextAfterMin(t, base);
      NextAfterNone(c, base);
    }
  }

  /** So "-2147483648" and more digits read as the negative of those digits alone, without an error. */
  lemma MinThenNumberReadsNumber(p: string, d: string, base: nat)
    requires 2 <= base <= 36 && base % 2 == 0 && AllDigits(p, base) && AllDigits(d, base) && d != ""
    requires Value(p, base) == 0x8000_0000 && Value(d, base) < 0x8000_0000
    ensures Value(p + d, base) > 0x8000_0000
    ensures Answer(Accumulated(p + d, base, Limit(true)), true) + Value(d, base) == 0
    ensures !Accumulated(p + d, base, Limit(true)).over
  {
    hide DigitValue, Value, Accumulated, PassesMin, Limit, Answer;
    var t := p + d;
    assert t[..|p|] == p && t[|p|..] == d;
    MoreDigitsMoreValue(t, |p|, base);
    NotPassedBelow(p, base);
    PassedDigitsAreForgotten(t, |p|, base);
    SmallIsRead(d, base);
    SmallNegated(Value(d, base));
  }

  lemma SmallIsRead(t: string, base: nat)
    requires 2 <= base <= 36 && AllDigits(t, base) && Value(t, base) < 0x8000_0000
    ensures Accumulated(t, base, Limit(true)) == Total(Value(t, base), false)
  {
    hide DigitValue, Value, Accumulated;
    NotPassedBelow(t, base);
    ExactUnlessPassed(t, base, true);
  }

  lemma SmallNegated(n: nat)
    requires n < 0x8000_0000
    ensures Answer(Total(n, false), true) + n == 0
  {
  }

  lemma NotPassedBelow(t: string, base: nat)
    requires 2 <= base && Value(t, base) <= 0x8000_0000
    ensures !PassesMin(t, base)
  {
    hide DigitValue, Value;
    forall k: nat | k < |t| && Value(t[..k], base) == -LONG_MIN
      ensures false
    {
      MoreDigitsMoreValue(t, k, base);
    }
  }

  lemma StandsAtMin(t: string, base: nat)
    requires 2 <= base <= 36 && AllDigits(t, base)
    requires Value(t, base) == -LONG_MIN && !PassesMin(t, base)
    ensures Accumulated(t, base, Limit(true)) == Total(LONG_MIN, false)
  {
    hide DigitValue, Value, Accumulated;
    ExactUnlessPassed(t, base, true);
  }

  lemma NextAfterMin(t: string, base: nat)
    requires 2 <= base <= 36 && base % 2 == 0 && t != "" && DigitValue(t[|t| - 1]) < base
    requires Accumulated(t[..|t| - 1], base, Limit(true)) == Total(LONG_MIN, false)
    ensures Accumulated(t, base, Limit(true)) == Total(DigitValue(t[|t| - 1]), false)
  {
    hide DigitValue, Wrap;
    Halves(base);
    WrapsToDigit(base / 2, DigitValue(t[|t| - 1]));
    DivBelow(Limit(true), base, 0);
  }

  lemma Halves(base: nat)
    requires base % 2 == 0
    ensures LONG_MIN * base == -0x1_0000_0000 * (base / 2)
  {
  }

  lemma WrapsToDigit(half: nat, c: nat)
    requires c < 36
    ensures Wrap(-0x1_0000_0000 * half + c) == c
  {
  }

  lemma NextAfterNone(c: char, base: nat)
    requires 2 <= base <= 36 && DigitValue(c) < base
    ensures Accumulated([c], base, Limit(true)) == Total(DigitValue(c), false)
  {
    hide DigitValue;
    var t := [c];
    assert t[..0] == "" && Accumulated("", base, Limit(true)) == Total(0, false);
    DivBelow(Limit(true), base, 1);
  }

  lemma {:induction false} RunSplits(s: string, k: nat, base: nat)
    requires k <= |s| && forall j :: 0 <= j < k ==> DigitValue(s[j]) < base && s[j] != '\0'
    ensures DigitRun(s, base) == s[..k] + DigitRun(s[k..], base)
    decreases k
  {
    if k == 0 {
      assert s[..0] + DigitRun(s[0..], base) == DigitRun(s, base);
    } else {
      RunSplits(s[1..], k - 1, base);
      assert s[1..][k - 1..] == s[k..];
      assert s[..k] == [s[0]] + s[1..][..k - 1];
    }
  }

  /** Reading back what was printed gives the number, or LONG_MAX when it is larger; in a base
      beyond 16 only 0 survives. */
  lemma ReadBackWhatWasPrinted(n: nat, base: nat)
    requires n < 0x1_0000_0000 && 2 <= base <= 36
    ensures var t := DigitRun(ItoaText(n, base), base);
      Min(Value(t, base), LONG_MAX) == Min(n, LONG_MAX) <==> base <= 16 || n == 0
    ensures base <= 16 ==> Value(DigitRun(ItoaText(n, base), base), base) == n
  {
    var text := ItoaText(n, base);
    if n == 0 || base > 16 {
      ZeroText(base);
    } else {
      DigitsDenote(n, base);
      RunSplits(text, |text|, base);
      assert text[|text|..] == "" && text[..|text|] + "" == text;
    }
  }

  lemma ZeroText(base: nat)
    requires 2 <= base
    ensures DigitRun("0", base) == "0" && Value("0", base) == 0
  {
    var t := "0";
    assert t[1..] == "" && t[..0] == "";
    assert DigitRun(t, base) == [t[0]] + DigitRun(t[1..], base);
    assert Value(t, base) == Value(t[..0], base) * base + DigitValue(t[0]);
  }
}

/** itoa_s and strtol as they run, with their globals. */
module NumberRoutines {
  import opened NumberSpec

  class Libc {
    const buffer: array<char>
    var errno: int

    ghost predicate Valid() {
      buffer.Length == 32
    }

    constructor ()
      ensures Valid() && fresh(buffer) && errno == 0
    {
      buffer := new char[32];
      errno := 0;
    }

    method ItoaS(str: array<char>, num: nat, base: nat)
      requires Valid() && str != buffer && num < 0x1_0000_0000 && 2 <= base
      requires |ItoaText(num, base)| < str.Length
      modifies str, buffer
      ensures str[..] == ItoaText(num, base) + ['\0'] + old(str[..])[|ItoaText(num, base)| + 1..]
      ensures num == 0 || base > 16 ==> str[0] == '0' && str[1] == '\0' && str[2..] == old(str[..])[2..]
      ensures 0 < num && base <= 16 ==>
        var n := |ItoaText(num, base)|;
        && 0 < n <= 32 && str[0] != '0' && str[n] == '\0' && str[n + 1..] == old(str[..])[n + 1..]
        && Value(str[..n], base) == num
        && forall k :: 0 <= k < n ==>
             DigitValue(str[k]) < base && ('0' <= str[k] <= '9' || 'a' <= str[k] <= 'f')
    {
      hide Digits, Reversed, Value, DigitValue;
      if num == 0 || base > 16 {
        WriteZero(str);
        return;
      }
      var top := ExtractDigits(num, base);
      ReversedLength(buffer[..top]);
      ReverseInto(str, top);
      BufferBoundIsExact(num, base);
      DigitsDenote(num, base);
      ghost var text := Digits(num, base);
      assert str[..|text|] == text && str[|text| + 1..] == old(str[..])[|text| + 1..];
      assert forall k :: 0 <= k < |text| ==> str[k] == text[k];
    }

    method WriteZero(str: array<char>)
      requires 2 <= str.Length
      modifies str
      ensures str[..] == "0" + ['\0'] + old(str[..])[2..]
    {
      str[0] := '0';
      str[1] := '\0';
    }

    /** The digit that goes last is found first. */
    ghost function Reversed(t: string): string {
      if t == "" then "" else Reversed(t[1..]) + [t[0]]
    }

    lemma {:induction false} ReversedEnds(t: string, c: char)
      ensures Reversed(t + [c]) == [c] + Reversed(t)
    {
      if t != "" {
        ReversedEnds(t[1..], c);
        assert (t + [c])[1..] == t[1..] + [c];
      } else {
        assert t + [c] == [c] && [c][1..] == "";
      }
    }

    lemma NothingReversed()
      ensures Reversed("") == ""
    {
    }

    lemma {:induction false} ReversedLength(t: string)
      ensures |Reversed(t)| == |t|
    {
      if t != "" {
        ReversedLength(t[1..]);
      }
    }

    lemma DigitsStep(n: nat, base: nat)
      requires n > 0 && 2 <= base <= 16
      ensures n / base < n
      ensures n / base > 0 ==> Digits(n, base) == Digits(n / base, base) + [Letter(n % base)]
      ensures n / base == 0 ==> Digits(n, base) == [Letter(n % base)]
    {
      hide Letter;
      Shrinks(n, base);
    }

    /** lettermap[num % base], and num / base. */
    method LastDigit(n: nat, base: nat) returns (digit: char, rest: nat)
      requires n > 0 && 2 <= base <= 16
      ensures rest < n
      ensures Digits(n, base) == if rest > 0 then Digits(rest, base) + [digit] else [digit]
    {
      hide Letter, Digits;
      DigitsStep(n, base);
      digit, rest := Letter(n % base), n / base;
    }

    /** The division loop. No slot past the 32nd is written. */
    method ExtractDigits(num: nat, base: nat) returns (pos: nat)
      requires Valid() && 0 < num < 0x1_0000_0000 && 2 <= base <= 16
      modifies buffer
      ensures 0 < pos <= 32 && Reversed(buffer[..pos]) == Digits(num, base)
    {
      hide Letter, Digits, Reversed;
      var n := num;
      pos := 0;
      BufferBoundIsExact(num, base);
      ReversedLength(buffer[..0]);
      assert Digits(num, base) + Reversed(buffer[..0]) == Digits(num, base);
      while n > 0
        invariant 0 <= pos <= 32 && (pos == 0 ==> n == num)
        invariant if n > 0
          then pos + |Digits(n, base)| <= 32 && Digits(num, base) == Digits(n, base) + Reversed(buffer[..pos])
                  else Digits(num, base) == Reversed(buffer[..pos])
        decreases n
      {
        ghost var before := buffer[..pos];
        var digit, rest := LastDigit(n, base);
        ReversedEnds(before, digit);
        if rest > 0 {
          assert Digits(rest, base) + [digit] + Reversed(before) == Digits(rest, base) + ([digit] + Reversed(before));
        }
        buffer[pos] := digit;
        assert buffer[..pos + 1] == before + [digit];
        pos := pos + 1;
        n := rest;
      }
    }

    /** The reversal loop and the terminator. */
    method ReverseInto(str: array<char>, top: nat)
      requires Valid() && str != buffer && 0 < top <= 32 && top < str.Length
      modifies str
      ensures str[..] == Reversed(buffer[..top]) + ['\0'] + old(str[..])[top + 1..]
    {
      hide Reversed;
      var pos: int, opos := top - 1, 0;
      NothingReversed();
      while opos < top
        invariant 0 <= opos <= top && pos == top - 1 - opos
        invariant Reversed(buffer[..top]) == str[..opos] + Reversed(buffer[..pos + 1])
        invariant str[opos..] == old(str[..])[opos..]
      {
        ghost var done := str[..opos];
        assert buffer[..pos + 1] == buffer[..pos] + [buffer[pos]];
        ReversedEnds(buffer[..pos], buffer[pos]);
        str[opos] := buffer[pos];
        assert str[..opos + 1] == done + [buffer[pos]];
        assert str[opos + 1..] == old(str[..])[opos + 1..];
        opos, pos := opos + 1, pos - 1;
      }
      ghost var text := str[..top];
      str[top] := '\0';
      assert str[..top] == text;
      assert str[top + 1..] == old(str[..])[top + 1..];
      assert str[..] == str[..top] + ['\0'] + str[top + 1..];
    }

    /** strtol on the memory from num on. Blanks must end somewhere, and base 0 needs an O, or else the
        code divides by zero. Without a minus sign the result is the number or LONG_MAX; with one it is
        so down to LONG_MIN exactly as ExactIff says. The end pointer falls one short of the digits' end. */
    method Strtol(num: string, base: int) returns (retval: int, end: nat)
      requires num != "" && Blank(num[0]) ==> exists k: nat :: k < |num| && !Blank(num[k])
      requires base == 0 ==> IsOctal(num)
      modifies this`errno
      ensures base != 0 && !(2 <= base <= 36) ==> retval == 0 && errno == ERANGE && end == 0
      ensures base == 0 || 2 <= base <= 36 ==>
        var text, b, minus := Number(num, base), BaseOf(base), IsMinus(num);
        var run := DigitRun(text, b);
        var total := Accumulated(run, b, Limit(minus));
        && retval == Answer(total, minus)
        && ((minus && PassesMin(run, b) ==> total.over) ==>
          retval == Clamped(Value(run, b), minus) && (total.over <==> Value(run, b) > Limit(minus)))
        && errno == (if total.over then ERANGE else old(errno))
        && end == if run == "" then 0 else |num| - |text| + |run| - 1
      ensures 2 <= base <= 36 && AllDigits(num, base) && num != "" ==>
        var value := Value(num, base);
        && retval == Min(value, 0x7FFF_FFFF) && errno == (if value > 0x7FFF_FFFF then 3 else old(errno))
        && end == |num| - 1
      ensures 2 <= base <= 36 && |num| > 1 && num[0] == '+' && AllDigits(num[1..], base) ==>
        var value := Value(num[1..], base);
        && retval == Min(value, 0x7FFF_FFFF) && errno == (if value > 0x7FFF_FFFF then 3 else old(errno))
        && end == |num| - 1
      ensures 2 <= base <= 36 && |num| > 1 && num[0] == '-' && AllDigits(num[1..], base) ==>
        var value := Value(num[1..], base);
        && end == |num| - 1
        && (!PassesMin(num[1..], base) ==>
              retval == -Min(value, 0x8000_0000) && errno == if value > 0x8000_0000 then 3 else old(errno))
      ensures base == 0 && |num| > 1 && num[0] == 'O' && AllDigits(num[1..], 8) ==>
        retval == Min(Value(num[1..], 8), 0x7FFF_FFFF)
      ensures base == 0 && |num| > 2 && num[..2] == "-O" && AllDigits(num[2..], 8) && !PassesMin(num[2..], 8) ==>
        retval == -Min(Value(num[2..], 8), 0x8000_0000)
      ensures base == 16 && |num| > 1 && num[..2] == "0x" ==> retval == 0 && end == 0 && errno == old(errno)
    {
      hide PassesMin, Value, Accumulated, Wrap, Exact, DigitRun, AfterBlanks, Blank, AllDigits, DigitValue;
      if base != 0 && (base < 2 || base > 36) {
        errno := ERANGE;
        return 0, 0;
      }
      PlainTexts(num, base);
      var text := SkipBlanks(num);
      var negative := text != "" && text[0] == '-';
      if text != "" && (text[0] == '-' || text[0] == '+') {
        text := text[1..];
      }
      var b := base;
      if base == 0 && text[0] == 'O' {
        b := 8;
        text := text[1..];
      }
      var any, read;
      retval, any, read := DigitLoop(text, b, negative);
      RunIsDigits(text, b);
      ExactIff(DigitRun(text, b), b, negative);
      AnswerIsClamped(DigitRun(text, b), b, negative);
      if any < 0 {
        retval := if negative then LONG_MIN else LONG_MAX;
        errno := ERANGE;
      }
      end := if any != 0 then |num| - |text| + read - 1 else 0;
      if negative {
        NegatedMin();
        retval := Wrap(-retval);
      }
    }

    /** How a text of digits alone, after a sign, or after an O in base 0 is taken apart, and one that
        starts with 0x. */
    lemma PlainTexts(num: string, base: int)
      requires base == 0 || 2 <= base <= 36
      ensures base != 0 && AllDigits(num, base) ==> !IsMinus(num) && Number(num, base) == num == DigitRun(num, base)
      ensures base != 0 && num != "" && (num[0] == '-' || num[0] == '+') ==>
        (IsMinus(num) <==> num[0] == '-') && Number(num, base) == num[1..]
      ensures base != 0 && num != "" && AllDigits(num[1..], base) ==> DigitRun(num[1..], base) == num[1..]
      ensures base == 0 && num != "" && num[0] == 'O' && AllDigits(num[1..], 8) ==>
        !IsMinus(num) && Number(num, 0) == num[1..] == DigitRun(num[1..], 8)
      ensures base == 0 && |num| > 1 && num[..2] == "-O" && AllDigits(num[2..], 8) ==>
        IsMinus(num) && Number(num, 0) == num[2..] == DigitRun(num[2..], 8)
      ensures base == 16 && |num| > 1 && num[..2] == "0x" ==>
        !IsMinus(num) && Number(num, 16) == num && DigitRun(num, 16) == "0" && Value("0", 16) == 0
    {
      hide DigitValue, DigitRun, AfterBlanks, Number, IsMinus, Value;
      if num != "" {
        TakenApart(num, base);
        NoDigits();
      }
      if base != 0 && AllDigits(num, base) {
        AllDigitsRun(num, base);
        EmptyText(base);
      }
      if num != "" && AllDigits(num[1..], BaseOf(base)) {
        AllDigitsRun(num[1..], BaseOf(base));
      }
      if base == 0 && |num| > 1 && num[..2] == "-O" && AllDigits(num[2..], 8) {
        assert num[0] == num[..2][0] && num[1] == num[..2][1] && num[1..][1..] == num[2..];
        AllDigitsRun(num[2..], 8);
      }
      if base == 16 && |num| > 1 && num[..2] == "0x" {
        assert num[0] == num[..2][0] && num[1] == num[..2][1];
        StopsAtX(num);
      }
    }

    lemma NoDigits()
      ensures DigitValue('-') == DigitValue('+') == DigitValue(' ') == DigitValue('\t') == 36
    {
    }

    lemma EmptyText(base: int)
      ensures !IsMinus("") && Number("", base) == ""
    {
    }

    /** A text that does not start with a blank: its sign, and an O in base 0. */
    lemma TakenApart(num: string, base: int)
      requires num != ""
      ensures !Blank(num[0]) ==>
        var t := if num[0] == '-' || num[0] == '+' then num[1..] else num;
        && (IsMinus(num) <==> num[0] == '-')
        && Number(num, base) == if base == 0 && t != "" && t[0] == 'O' then t[1..] else t
    {
    }

    lemma StopsAtX(num: string)
      requires |num| > 1 && num[0] == '0' && num[1] == 'x'
      ensures DigitRun(num, 16) == "0" && Value("0", 16) == 0
    {
      hide Value;
      assert num[1..][0] == 'x' && DigitRun(num[1..], 16) == "";
      ZeroText(16);
    }

    /** Sign, prefix and digits are looked for behind the blanks. */
    lemma BlanksComeFirst(num: string, base: int)
      requires base == 0 || 2 <= base <= 36
      ensures var t := AfterBlanks(num);
        t == "" || !Blank(t[0]) ==>
          (IsMinus(num) <==> IsMinus(t)) && (IsOctal(num) <==> IsOctal(t)) && Number(num, base) == Number(t, base)
    {
      hide PastNonBlank;
    }

    lemma AllDigitsRun(t: string, base: nat)
      requires base <= 36 && AllDigits(t, base)
      ensures DigitRun(t, base) == t
    {
      RunSplits(t, |t|, base);
      assert t[..|t|] == t && t[|t|..] == "" && t + "" == t;
    }

    /** The loop that skips blanks tests before it steps, so it steps past one more character. */
    method SkipBlanks(s: string) returns (text: string)
      requires s != "" && Blank(s[0]) ==> exists k: nat :: k < |s| && !Blank(s[k])
      ensures text == AfterBlanks(s)
      ensures s == "" || (s[0] != ' ' && s[0] != '\t') ==> text == s
      ensures s != "" && (s[0] == ' ' || s[0] == '\t') ==>
        exists k: nat :: k < |s| && s[k] != ' ' && s[k] != '\t' && text == s[k + 1..]
                         && forall j :: 0 <= j < k ==> s[j] == ' ' || s[j] == '\t'
    {
      if s == "" || !Blank(s[0]) {
        return s;
      }
      var i := 0;
      while Blank(s[i])
        invariant 0 <= i < |s| && PastNonBlank(s) == PastNonBlank(s[i..])
        invariant exists k: nat :: i <= k < |s| && !Blank(s[k])
        invariant forall j :: 0 <= j < i ==> Blank(s[j])
        decreases |s| - i
      {
        assert s[i..][1..] == s[i + 1..];
        i := i + 1;
      }
      assert s[i..][1..] == s[i + 1..];
      text := s[i + 1..];
    }

    method DigitLoop(text: string, base: int, minus: bool) returns (retval: int, any: int, read: nat)
      requires 2 <= base <= 36
      ensures var total := Accumulated(DigitRun(text, base), base, Limit(minus));
        retval == total.value && (any < 0 <==> total.over)
      ensures any == 0 <==> DigitRun(text, base) == ""
      ensures read == |DigitRun(text, base)|
    {
      hide Wrap;
      var cutlimit, cutoff := Limit(minus) % base, Limit(minus) / base;
      retval, any, read := 0, 0, 0;
      while read < |text| && text[read] != '\0'
        invariant read <= |text| && forall j :: 0 <= j < read ==> DigitValue(text[j]) < base && text[j] != '\0'
        invariant Accumulated(text[..read], base, Limit(minus)) == Total(retval, any < 0)
        invariant any == 0 <==> read == 0
      {
        var c := DigitValue(text[read]);
        if c >= base {
          break;
        }
        assert text[..read + 1][..read] == text[..read];
        if any < 0 || retval > cutoff || (retval == cutoff && c > cutlimit) {
          any := -1;
        } else {
          any := 1;
          WrapsInTwo(retval * base, c);
          retval := Wrap(retval * base);
          retval := Wrap(retval + c);
        }
        read := read + 1;
      }
      RunSplits(text, read, base);
      assert DigitRun(text[read..], base) == "";
      assert text[..read] + "" == text[..read];
    }
  }
}
