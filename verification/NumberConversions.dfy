/** Decimal conversions of base/util/string_number_conversions.cpp, at fixed integer widths. */
module NumberConversions {

  datatype IntType = Int32 | Uint32 | Int64 | Uint64 {
    predicate Signed() { Int32? || Int64? }

    function Size(): nat { if Int32? || Uint32? then 4 else 8 }

    function Modulus(): (m: int)
      ensures m > 0
    {
      if Int32? || Uint32? then 0x1_0000_0000 else 0x1_0000_0000_0000_0000
    }

    function Min(): int { if Signed() then -(Modulus() / 2) else 0 }

    function Max(): int { if Signed() then Modulus() / 2 - 1 else Modulus() - 1 }

    predicate Holds(v: int) { Min() <= v <= Max() }

    /** Two's-complement reduction into the type. */
    function Wrap(v: int): (r: int)
      ensures Holds(r)
      ensures Holds(v) ==> r == v
    {
      var u := v % Modulus();
      if Signed() && u > Max() then u - Modulus() else u
    }
  }

  // ---- specification -----------------------------------------------------------------------

  predicate IsDigit(c: char) { '0' <= c <= '9' }

  function DigitOf(c: char): (d: nat)
    requires IsDigit(c)
    ensures d < 10
  {
    c as int - '0' as int
  }

  ghost predicate AllDigits(s: string) {
    forall i :: 0 <= i < |s| ==> IsDigit(s[i])
  }

  /** The number a string of digits stands for, however long. */
  ghost function Value(s: string): nat
    requires AllDigits(s)
  {
    if s == [] then 0 else 10 * Value(s[..|s| - 1]) + DigitOf(s[|s| - 1])
  }

  function DigitPrefix(s: string): (p: string)
    ensures p <= s && AllDigits(p)
    ensures |p| < |s| ==> !IsDigit(s[|p|])
  {
    if s == [] || !IsDigit(s[0]) then [] else [s[0]] + DigitPrefix(s[1..])
  }

  function Signed(neg: bool, v: int): int { if neg then -v else v }

  /** What reading digits of one sign leaves in *output: the exact number, or the bound it passed. */
  ghost function Saturated(t: IntType, neg: bool, s: string): int {
    var v := Signed(neg, Value(DigitPrefix(s)));
    if t.Holds(v) then v else if neg then t.Min() else t.Max()
  }

  predicate IsSpace(c: char) { c == ' ' || '\t' <= c <= '\r' }

  function SkipSpace(s: string): (r: string)
    ensures r <= s || |r| < |s|
    ensures r != [] ==> !IsSpace(r[0])
    ensures r == s <==> s == [] || !IsSpace(s[0])
  {
    if s != [] && IsSpace(s[0]) then SkipSpace(s[1..]) else s
  }

  predicate IsNegative(s: string) { s != [] && s[0] == '-' }

  /** The text behind an optional sign. */
  function Magnitude(s: string): string {
    if s != [] && (s[0] == '-' || s[0] == '+') then s[1..] else s
  }

  /** A numeral: an optional sign and at least one digit. */
  ghost predicate IsNumeral(s: string) { Magnitude(s) != [] && AllDigits(Magnitude(s)) }

  ghost function NumeralValue(s: string): int
    requires IsNumeral(s)
  {
    Signed(IsNegative(s), Value(Magnitude(s)))
  }

  /** An unsigned type has no negative numbers but the code reads a '-' all the same. */
  predicate WrapsAround(t: IntType, s: string) { !t.Signed() && IsNegative(SkipSpace(s)) }

  lemma {:induction false} ValuePrefix(p: string, s: string)
    requires p <= s && AllDigits(s)
    ensures AllDigits(p) && Value(p) <= Value(s)
    ensures |p| < |s| ==> 10 * Value(p) <= Value(s)
  {
    forall i | 0 <= i < |p| ensures IsDigit(p[i]) { assert p[i] == s[i]; }
    if p != s {
      assert p <= s[..|s| - 1];
      ValuePrefix(p, s[..|s| - 1]);
    }
  }

  // ---- parsing -------------------------------------------------------------------------------

  function TruncDiv(a: int, b: int): int
    requires b > 0
  {
    if a >= 0 then a / b else -(-a / b)
  }

  function TruncMod(a: int, b: int): int
    requires b > 0
  {
    a - b * TruncDiv(a, b)
  }

  /** Arithmetic that the type can hold: a call is a proof that no intermediate value overflows. */
  function Exactly(t: IntType, v: int): int
    requires t.Holds(v)
  {
    v
  }

  /** Positive::CheckBounds and Negative::CheckBounds: may the next digit be appended? */
  predicate MayAppend(t: IntType, neg: bool, output: int, digit: nat) {
    if neg then
      !(output < TruncDiv(t.Min(), 10) || (output == TruncDiv(t.Min(), 10) && digit > 0 - TruncMod(t.Min(), 10)))
    else !(output > t.Max() / 10 || (output == t.Max() / 10 && digit > t.Max() % 10))
  }

  /** The check made beforehand is exact. */
  lemma MayAppendExact(t: IntType, neg: bool, v: nat, digit: nat)
    requires t.Signed() || !neg
    requires t.Holds(Signed(neg, v)) && digit < 10
    ensures MayAppend(t, neg, Signed(neg, v), digit) <==> t.Holds(Signed(neg, 10 * v + digit))
    ensures MayAppend(t, neg, Signed(neg, v), digit) ==> t.Holds(Signed(neg, 10 * v))
  {
  }

  /** Digits of one sign: true exactly when all are digits and the number fits; no step overflows. */
  method ReadDigits(t: IntType, neg: bool, s: string) returns (ok: bool, output: int)
    requires t.Signed() || !neg
    ensures ok <==> s != [] && AllDigits(s) && t.Holds(Signed(neg, Value(s)))
    ensures ok ==> output == Signed(neg, Value(s))
    ensures output == Saturated(t, neg, s)
  {
    output := 0;
    if s == [] { return false, output; }
    for i := 0 to |s|
      invariant AllDigits(s[..i]) && output == Signed(neg, Value(s[..i])) && t.Holds(output)
    {
      if !IsDigit(s[i]) {
        EndsAt(t, neg, s, i);
        return false, output;
      }
      assert s[..i + 1][..i] == s[..i];
      ok, output := AppendDigit(t, neg, output, DigitOf(s[i]), i != 0, Value(s[..i]));
      if !ok {
        OverflowsAt(t, neg, s, i + 1);
        return;
      }
    }
    assert s[..|s|] == s;
    EndsAt(t, neg, s, |s|);
    ok := true;
  }

  /** Reading to the end of the digits without passing a bound. */
  lemma EndsAt(t: IntType, neg: bool, s: string, k: nat)
    requires k <= |s| && AllDigits(s[..k]) && (k < |s| ==> !IsDigit(s[k])) && t.Holds(Signed(neg, Value(s[..k])))
    ensures Saturated(t, neg, s) == Signed(neg, Value(s[..k]))
    ensures k < |s| ==> !AllDigits(s)
  {
    PrefixOfDigits(s, k);
    assert DigitPrefix(s) == s[..k];
  }

  /** Once a prefix has passed the bound, longer numbers have too. */
  lemma OverflowsAt(t: IntType, neg: bool, s: string, k: nat)
    requires k <= |s| && AllDigits(s[..k]) && !t.Holds(Signed(neg, Value(s[..k]))) && (t.Signed() || !neg)
    ensures Saturated(t, neg, s) == if neg then t.Min() else t.Max()
    ensures AllDigits(s) ==> !t.Holds(Signed(neg, Value(s)))
  {
    PrefixOfDigits(s, k);
    ValuePrefix(s[..k], DigitPrefix(s));
    if AllDigits(s) { ValuePrefix(s[..k], s); }
  }

  /** A prefix of digits is part of the longest one. */
  lemma {:induction false} PrefixOfDigits(s: string, k: nat)
    requires k <= |s| && AllDigits(s[..k])
    ensures s[..k] <= DigitPrefix(s)
    decreases k
  {
    if k > 0 {
      assert s[..k][0] == s[0] && s[1..][..k - 1] == s[..k][1..];
      PrefixOfDigits(s[1..], k - 1);
    }
  }

  /** One round: check, multiply, add; the first digit is neither checked nor shifted. */
  method AppendDigit(t: IntType, neg: bool, output0: int, digit: nat, shift: bool, ghost v: nat)
    returns (ok: bool, output: int)
    requires (t.Signed() || !neg) && digit < 10 && output0 == Signed(neg, v) && t.Holds(output0)
    requires !shift ==> v == 0
    ensures ok <==> t.Holds(Signed(neg, 10 * v + digit))
    ensures output == if ok then Signed(neg, 10 * v + digit) else if neg then t.Min() else t.Max()
  {
    output := output0;
    if shift {
      MayAppendExact(t, neg, v, digit);
      if !MayAppend(t, neg, output, digit) { return false, if neg then t.Min() else t.Max(); }
      output := Exactly(t, output * 10);
    }
    output := Exactly(t, if neg then output - digit else output + digit);
    ok := true;
  }

  // ---- a '-' read into an unsigned type ----------------------------------------------------------

  /** Digits up to k stand for a multiple of the modulus, and something other than a zero follows. */
  ghost predicate ZeroAt(t: IntType, s: string, k: nat)
    requires k < |s|
  {
    AllDigits(s[..k]) && Value(s[..k]) % t.Modulus() == 0 && s[k] != '0'
  }

  /** Some proper prefix makes the check fire. */
  ghost predicate StopsAtZero(t: IntType, s: string) {
    exists k: nat :: 0 < k < |s| && ZeroAt(t, s, k)
  }

  lemma ModShift(t: IntType, x: int, k: int)
    ensures (x + k * t.Modulus()) % t.Modulus() == x % t.Modulus()
  {
    if t.Size() == 4 {
      assert (x + k * 0x1_0000_0000) / 0x1_0000_0000 == x / 0x1_0000_0000 + k;
    } else {
      assert (x + k * 0x1_0000_0000_0000_0000) / 0x1_0000_0000_0000_0000 == x / 0x1_0000_0000_0000_0000 + k;
    }
  }

  /** Reduction may be postponed: one more digit subtracted from a reduced number. */
  lemma WrapStep(t: IntType, x: int, digit: nat)
    requires !t.Signed()
    ensures t.Wrap(t.Wrap(t.Wrap(x) * 10) - digit) == t.Wrap(10 * x - digit)
  {
    var m := t.Modulus();
    var r := x % m;
    var y := (r * 10) % m;
    var k := 10 * (x / m) + r * 10 / m;
    assert x == m * (x / m) + r && r * 10 == m * (r * 10 / m) + y;
    assert 10 * x - digit == (y - digit) + k * m;
    ModShift(t, y - digit, k);
  }

  lemma WrapZero(t: IntType, v: nat)
    requires !t.Signed()
    ensures t.Wrap(Signed(true, v)) == 0 <==> v % t.Modulus() == 0
  {
    if t.Size() == 4 { NegatedMultiple32(v); } else { NegatedMultiple64(v); }
  }

  lemma NegatedMultiple32(v: int)
    ensures (0 - v) % 0x1_0000_0000 == 0 <==> v % 0x1_0000_0000 == 0
  {
  }

  lemma NegatedMultiple64(v: int)
    ensures (0 - v) % 0x1_0000_0000_0000_0000 == 0 <==> v % 0x1_0000_0000_0000_0000 == 0
  {
  }

  /** Negative digits in an unsigned type: what the code really accepts. */
  method ReadWrapping(t: IntType, s: string) returns (ok: bool, output: int)
    requires !t.Signed()
    ensures ok <==> s != [] && AllDigits(s) && !StopsAtZero(t, s)
    ensures ok ==> output == t.Wrap(Signed(true, Value(s)))
  {
    output := 0;
    if s == [] { return false, output; }
    for i := 0 to |s|
      invariant AllDigits(s[..i]) && output == t.Wrap(Signed(true, Value(s[..i])))
      invariant forall k: nat :: 0 < k < i ==> !ZeroAt(t, s, k)
    {
      if !IsDigit(s[i]) { return false, output; }
      assert s[..i + 1][..i] == s[..i];
      WrapZero(t, Value(s[..i]));
      ok, output := AppendWrapping(t, output, DigitOf(s[i]), i != 0, Value(s[..i]));
      if !ok {
        assert ZeroAt(t, s, i);
        return;
      }
    }
    assert s[..|s|] == s;
    ok := true;
  }

  method AppendWrapping(t: IntType, output0: int, digit: nat, shift: bool, ghost v: nat) returns (ok: bool, output: int)
    requires !t.Signed() && digit < 10 && output0 == t.Wrap(Signed(true, v))
    requires !shift ==> v == 0
    ensures ok <==> !(shift && output0 == 0 && digit > 0)
    ensures ok ==> output == t.Wrap(Signed(true, 10 * v + digit))
  {
    output := output0;
    WrapStep(t, Signed(true, v), digit);
    if shift {
      if !MayAppend(t, true, output, digit) { return false, t.Min(); }
      output := t.Wrap(output * 10);
    }
    output := t.Wrap(output - digit);
    ok := true;
  }

  // ---- the whole conversion ------------------------------------------------------------------------

  /** What IteratorRangeToNumber accepts. */
  ghost predicate Accepts(t: IntType, s: string) {
    IsNumeral(s) && if WrapsAround(t, s) then !StopsAtZero(t, Magnitude(s)) else t.Holds(NumeralValue(s))
  }

  /**
   IteratorRangeToNumber::Invoke in base 10. Away from a '-' read into an unsigned type it is true exactly
   on the numerals whose number the type holds, *output is that number, and the bound passed otherwise.
   */
  method Parse(t: IntType, s: string) returns (valid: bool, output: int)
    ensures valid <==> Accepts(t, s)
    ensures valid ==> output == t.Wrap(NumeralValue(s))
    ensures !WrapsAround(t, s) ==> output == Saturated(t, IsNegative(SkipSpace(s)), Magnitude(SkipSpace(s)))
  {
    valid := true;
    var begin := s;
    while begin != "" && IsSpace(begin[0])
      invariant SkipSpace(begin) == SkipSpace(s)
      invariant valid <==> begin == s
      invariant |begin| <= |s|
      decreases |begin|
    {
      valid := false;
      begin := begin[1..];
    }
    assert begin == SkipSpace(s);
    if !valid { SpacedIsNoNumeral(s); }
    var ok;
    if begin != "" && begin[0] == '-' {
      if t.Signed() {
        ok, output := ReadDigits(t, true, begin[1..]);
      } else {
        ok, output := ReadWrapping(t, begin[1..]);
      }
    } else {
      if begin != "" && begin[0] == '+' {
        ok, output := ReadDigits(t, false, begin[1..]);
      } else {
        ok, output := ReadDigits(t, false, begin);
      }
    }
    if !ok { valid := false; }
  }

  lemma SpacedIsNoNumeral(s: string)
    requires SkipSpace(s) != s
    ensures !IsNumeral(s)
  {
    assert IsSpace(s[0]) && !IsDigit(s[0]) && Magnitude(s) == s;
  }

  /**
   The conversion judges a text rightly (accepts it exactly when it is a numeral the type holds) unless a
   nonzero '-' numeral goes into an unsigned type and no prefix of it happens to stop the digit loop.
   */
  lemma RightUnlessUnsignedMinus(t: IntType, s: string)
    ensures (Accepts(t, s) <==> IsNumeral(s) && t.Holds(NumeralValue(s)))
       <==> !(WrapsAround(t, s) && IsNumeral(s) && Value(Magnitude(s)) > 0 && !StopsAtZero(t, Magnitude(s)))
  {
    if IsNumeral(s) && Value(Magnitude(s)) == 0 { ZeroDoesNotStop(t, Magnitude(s)); }
    if IsNumeral(s) && WrapsAround(t, s) { UnspacedNumeral(s); }
  }

  lemma UnspacedNumeral(s: string)
    requires IsNumeral(s)
    ensures SkipSpace(s) == s
  {
    if SkipSpace(s) != s { SpacedIsNoNumeral(s); }
  }

  lemma ZeroDoesNotStop(t: IntType, s: string)
    requires AllDigits(s) && Value(s) == 0
    ensures !StopsAtZero(t, s)
  {
    forall k: nat | 0 < k < |s| ensures !ZeroAt(t, s, k) {
      ValuePrefix(s[..k + 1], s);
      assert s[..k + 1][..k] == s[..k] && s[..k + 1][k] == s[k];
    }
  }

  /** The smallest case: "-5" is accepted as 4294967291. */
  lemma UnsignedMinusExample()
    ensures Accepts(Uint32, "-5") && Uint32.Wrap(NumeralValue("-5")) == 4294967291
  {
    assert Magnitude("-5") == "5";
    assert "5"[..0] == "";
    assert Value("5") == 5;
  }

  // ---- printing -------------------------------------------------------------------------------------

  function Digit(d: nat): (c: char)
    requires d < 10
    ensures IsDigit(c) && DigitOf(c) == d
  {
    ('0' as int + d) as char
  }

  function Digits(n: nat): string {
    if n < 10 then [Digit(n)] else Digits(n / 10) + [Digit(n % 10)]
  }

  function Decimal(v: int): string {
    if v < 0 then "-" + Digits(-v) else Digits(v)
  }

  ghost function Pow10(n: nat): nat { if n == 0 then 1 else 10 * Pow10(n - 1) }

  /** Digits of the widest value: fewer than the buffer minus the sign and the cell never used. */
  function MaxDigits(t: IntType): nat { if t.Size() == 4 then 10 else 20 }

  /** ToUnsigned. Negating the minimum leaves the type; here it wraps back to itself and the cast mends it. */
  function ToUnsigned(t: IntType, v: int): nat
    requires t.Holds(v)
  {
    (if v < 0 then t.Wrap(-v) else v) % t.Modulus()
  }

  lemma ToUnsignedIsMagnitude(t: IntType, v: int)
    requires t.Holds(v)
    ensures ToUnsigned(t, v) == if v < 0 then -v else v
    ensures v < 0 ==> (t.Holds(-v) <==> v != t.Min())
  {
    var m := if v < 0 then -v else v;
    assert m < t.Modulus();
    if v < 0 {
      assert t.Signed() && m <= t.Modulus() / 2;
      assert (-v) % t.Modulus() == m;
      if m > t.Max() { ModShift(t, m, -1); }
    }
  }

  lemma WidestFits(t: IntType, v: int)
    requires t.Holds(v)
    ensures (if v < 0 then -v else v) < Pow10(MaxDigits(t))
    ensures MaxDigits(t) + 2 <= 3 * t.Size()
  {
    assert Pow10(10) == 10_000_000_000 by {
      assert Pow10(5) == 100_000;
      assert Pow10(8) == 100_000_000;
    }
    if t.Size() == 8 {
      assert Pow10(13) == 10_000_000_000_000;
      assert Pow10(16) == 10_000_000_000_000_000;
      assert Pow10(19) == 10_000_000_000_000_000_000;
    }
  }

  /** Back-to-front into a buffer of 3 * sizeof + 1 characters, of which the first is never reached. */
  method Print(t: IntType, v: int) returns (s: string)
    requires t.Holds(v)
    ensures s == Decimal(v)
  {
    var size := 3 * t.Size() + 1;
    var buf := new char[size](_ => ' ');
    var negative := t.Signed() && v < 0;
    var res := ToUnsigned(t, v);
    ToUnsignedIsMagnitude(t, v);
    WidestFits(t, v);
    var p := FillDigits(buf, res, MaxDigits(t));
    if negative {
      ghost var digits := buf[p..];
      p := p - 1;
      assert p != 0;
      buf[p] := '-';
      assert buf[p..] == "-" + digits;
    }
    s := buf[p..];
  }

  /** The digit loop; at least one digit is written. */
  method FillDigits(buf: array<char>, number: nat, ghost width: nat) returns (p: nat)
    requires 1 <= width && width + 2 < buf.Length && number < Pow10(width)
    modifies buf
    ensures 2 < p + 1 <= buf.Length && buf[p..] == Digits(number)
  {
    p := buf.Length;
    var res: nat := number;
    ghost var left := width;
    while true
      invariant buf.Length - p + left == width && 1 <= left && p <= buf.Length
      invariant res < Pow10(left)
      invariant p == buf.Length || res > 0
      invariant res >= 0 && Digits(number) == Digits(res) + buf[p..]
      decreases left
    {
      p := p - 1;
      assert p != 0;
      ghost var before, tail := res, buf[p + 1..];
      buf[p] := Digit(res % 10);
      assert buf[p..] == [Digit(before % 10)] + tail;
      res := res / 10;
      left := left - 1;
      if res == 0 {
        assert Digits(before) == [Digit(before % 10)];
        return;
      }
      assert Digits(before) + tail == Digits(res) + buf[p..];
    }
  }

  // ---- round trips --------------------------------------------------------------------------------------

  lemma {:induction false} DigitsValue(n: nat)
    ensures Digits(n) != [] && AllDigits(Digits(n)) && Value(Digits(n)) == n
    decreases n
  {
    if n >= 10 {
      DigitsValue(n / 10);
      assert Digits(n)[..|Digits(n)| - 1] == Digits(n / 10);
    } else {
      assert Digits(n)[..0] == [];
    }
  }

  /** Printing then parsing is the identity at every width, and never meets the unsigned '-'. */
  lemma PrintParse(t: IntType, v: int)
    requires t.Holds(v)
    ensures IsNumeral(Decimal(v)) && NumeralValue(Decimal(v)) == v
    ensures !WrapsAround(t, Decimal(v))
  {
    DigitsValue(if v < 0 then -v else v);
    var digits := Digits(if v < 0 then -v else v);
    assert IsDigit(digits[0]);
    assert ("-" + digits)[1..] == digits;
  }

  /** Parsing then printing gives back a numeral written without '+', leading zeros or "-0". */
  lemma {:induction false} DigitsOfValue(s: string)
    requires s != [] && AllDigits(s) && (|s| > 1 ==> s[0] != '0')
    ensures Digits(Value(s)) == s
  {
    var init, last := s[..|s| - 1], s[|s| - 1];
    assert s == init + [last] && Digit(DigitOf(last)) == last;
    if init == [] {
      assert Value(init) == 0;
    } else {
      assert init[0] == s[0];
      DigitsOfValue(init);
      LeadingDigitCounts(init);
      DigitsStep(Value(init), DigitOf(last));
    }
  }

  lemma DigitsStep(v: nat, d: nat)
    requires v > 0 && d < 10
    ensures Digits(10 * v + d) == Digits(v) + [Digit(d)]
  {
    assert (10 * v + d) / 10 == v && (10 * v + d) % 10 == d;
  }

  lemma LeadingDigitCounts(s: string)
    requires s != [] && AllDigits(s) && s[0] != '0'
    ensures Value(s) > 0
  {
    ValuePrefix(s[..1], s);
    assert s[..1][..0] == [] && s[..1][0] == s[0];
  }
}
