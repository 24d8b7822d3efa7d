/** What an integer conversion should print, with a precision as well, by section 7.21.6.1 of ISO C11; and exactly
    when doprnt, which does not look at the precision of integers, prints it. */
module IsoText {
  import opened Conversions
  import opened Digits
  import opened MemStream

  // ----- texts; a negative precision is none

  /** With a precision, the flag 0 does not count. */
  function IsoPad(spec: Spec, precision: int): Spec {
    if precision >= 0 then spec.(pad := ' ') else spec
  }

  /** The precision is the least number of digits; with a precision of 0, the number 0 has none. */
  function IsoDigits(precision: int, zero: bool, ds: string): string {
    if precision < 0 then ds else if precision == 0 && zero then "" else Repeat('0', precision - |ds|) + ds
  }

  function SignedIsoOf(spec: Spec, precision: int, neg: bool, zero: bool, ds: string): string {
    Padded(IsoPad(spec, precision), SignText(neg, spec.spaceOrSign), IsoDigits(precision, zero, ds))
  }

  function SignedIso(spec: Spec, precision: int, v: int): string {
    SignedIsoOf(spec, precision, v < 0, v == 0, DigitsOf(Magnitude(v), 10, Lower))
  }

  /** With '#', octal numbers start with 0: one digit more if they do not. */
  function OctalStart(ds: string): string { if ds != [] && ds[0] == '0' then ds else "0" + ds }

  function UnsignedIsoOf(spec: Spec, precision: int, f: Conversion, zero: bool, ds: string): string {
    var digits, padded := IsoDigits(precision, zero, ds), IsoPad(spec, precision);
    if spec.hash && f == O then Padded(padded, "", OctalStart(digits))
    else if spec.hash && f.X? && !zero then Padded(padded, if f.upper then "0X" else "0x", digits)
    else Padded(padded, "", digits)
  }

  function UnsignedIso(spec: Spec, precision: int, f: Conversion, v: nat): string {
    UnsignedIsoOf(spec, precision, f, v == 0, UnsignedDigits(f, v))
  }

  // ----- counting digits

  /** The number of hexadecimal digits in a text. */
  function Count(s: string): int {
    if s == [] then 0 else Count(s[..|s| - 1]) + if DigitValue(s[|s| - 1]) < 16 then 1 else 0
  }

  lemma {:induction false} CountConcat(a: string, b: string)
    ensures Count(a + b) == Count(a) + Count(b)
    decreases |b|
  {
    if b == [] {
      assert a + b == a;
    } else {
      CountConcat(a, b[..|b| - 1]);
      assert (a + b)[..|a + b| - 1] == a + b[..|b| - 1];
    }
  }

  lemma {:induction false} CountRepeat(c: char, n: int)
    ensures Count(Repeat(c, n)) == if n > 0 && DigitValue(c) < 16 then n else 0
    decreases n
  {
    if n > 0 {
      CountRepeat(c, n - 1);
      assert Repeat(c, n)[..n - 1] == Repeat(c, n - 1);
    }
  }

  lemma {:induction false} CountDigits(ds: string)
    requires AllDigits(ds, 16)
    ensures Count(ds) == |ds|
  {
    if ds != [] { CountDigits(ds[..|ds| - 1]); }
  }

  lemma CountThree(a: string, b: string, c: string)
    ensures Count(a + b + c) == Count(a) + Count(b) + Count(c)
  {
    CountConcat(a, b);
    CountConcat(a + b, c);
  }

  /** The zeros of the padding count as digits. */
  lemma CountPadded(spec: Spec, prefix: string, ds: string)
    requires Proper(spec) && AllDigits(ds, 16)
    ensures Count(Padded(spec, prefix, ds)) == Count(prefix) + DigitsShown(spec, |prefix|, |ds|)
  {
    var room := spec.width - |prefix| - |ds|;
    CountDigits(ds);
    CountRepeat(' ', room);
    CountRepeat('0', room);
    if spec.flushLeft {
      CountThree(prefix, ds, Repeat(' ', room));
    } else if spec.pad == '0' {
      CountThree(prefix, Repeat('0', room), ds);
    } else {
      CountThree(Repeat(' ', room), prefix, ds);
    }
  }

  function Max(a: int, b: int): int { if a < b then b else a }

  /** How many digits there are in a number with n digits, together with the zeros in front of them. */
  function DigitsShown(spec: Spec, prefix: nat, n: nat): int {
    if PadsWithZeros(spec) then Max(n, spec.width - prefix) else n
  }

  // ----- padding against precision

  /** The digits ds, with or without some zeros in front, or nothing at all. */
  predicate Extends(digits: string, ds: string) {
    digits == [] || (|digits| >= |ds| && digits == Repeat('0', |digits| - |ds|) + ds)
  }

  /** Padding to the width is the same as what the precision asks for, exactly if there are as many digits. */
  lemma PaddingIsPrecision(spec: Spec, prefix: string, ds: string, digits: string)
    requires Proper(spec) && ds != [] && AllDigits(ds, 16) && AllDigits(digits, 16) && Extends(digits, ds)
    ensures Padded(spec, prefix, ds) == Padded(spec.(pad := ' '), prefix, digits)
            <==> |digits| == DigitsShown(spec, |prefix|, |ds|)
  {
    CountPadded(spec, prefix, ds);
    CountPadded(spec.(pad := ' '), prefix, digits);
    if |digits| == DigitsShown(spec, |prefix|, |ds|) {
      SameDigits(spec, prefix, ds, digits);
    }
  }

  lemma SameDigits(spec: Spec, prefix: string, ds: string, digits: string)
    requires Proper(spec) && ds != [] && Extends(digits, ds) && |digits| == DigitsShown(spec, |prefix|, |ds|)
    ensures Padded(spec, prefix, ds) == Padded(spec.(pad := ' '), prefix, digits)
  {
    var room := spec.width - |prefix| - |ds|;
    if PadsWithZeros(spec) {
      assert Repeat('0', |digits| - |ds|) == Repeat('0', room);
      Associate(prefix, Repeat('0', room), ds);
      assert Repeat(' ', spec.width - |prefix| - |digits|) == [];
      assert [] + prefix == prefix;
    } else {
      assert Repeat('0', 0) == [] && [] + ds == ds;
    }
  }

  lemma IsoDigitsExtend(precision: int, zero: bool, ds: string)
    requires precision >= 0 && AllDigits(ds, 16) && ds != []
    ensures var digits := IsoDigits(precision, zero, ds);
            && Extends(digits, ds) && AllDigits(digits, 16)
            && |digits| == if precision == 0 && zero then 0 else Max(|ds|, precision)
  {
    if !(precision == 0 && zero) {
      var zs := Repeat('0', precision - |ds|);
      assert |zs + ds| - |ds| == |zs| && Repeat('0', |zs|) == zs;
    }
  }

  // ----- d and i

  /** Without a precision: a plus or a space is not lost to zeros. With one: not a precision of 0 for the number 0,
      and as many digits as are asked for. */
  predicate SignedIsExact(spec: Spec, precision: int, v: int, n: nat) {
    var shown := v < 0 || spec.spaceOrSign == '\0' || !PadsWithZeros(spec);
    var sign := if v < 0 || spec.spaceOrSign != '\0' then 1 else 0;
    && shown
    && (precision >= 0 ==> !(precision == 0 && v == 0) && Max(n, precision) == DigitsShown(spec, sign, n))
  }

  /** Exactly when %d and %i print what they should. */
  lemma SignedExactly(spec: Spec, precision: int, v: int)
    requires Proper(spec)
    ensures SignedOutput(spec, v) == SignedIso(spec, precision, v)
            <==> SignedIsExact(spec, precision, v, |DigitsOf(Magnitude(v), 10, Lower)|)
  {
    var ds := DigitsOf(Magnitude(v), 10, Lower);
    DigitsDenote(Magnitude(v), 10, Lower);
    SignedIsRight(spec, v);
    if precision >= 0 {
      SignedPrecisely(spec, precision, v < 0, v == 0, ds);
    }
  }

  lemma SignedPrecisely(spec: Spec, precision: int, neg: bool, zero: bool, ds: string)
    requires Proper(spec) && precision >= 0 && ds != [] && AllDigits(ds, 10)
    ensures var sign := SignText(neg, spec.spaceOrSign);
            SignedOutputOf(spec, neg, ds) == SignedIsoOf(spec, precision, neg, zero, ds)
            <==> (neg || spec.spaceOrSign == '\0' || !PadsWithZeros(spec)) && !(precision == 0 && zero)
                 && Max(|ds|, precision) == DigitsShown(spec, |sign|, |ds|)
  {
    var sign := SignText(neg, spec.spaceOrSign);
    var digits := IsoDigits(precision, zero, ds);
    assert AllDigits(ds, 16);
    IsoDigitsExtend(precision, zero, ds);
    SignedDigitsAreRight(spec, neg, ds);
    PaddingIsPrecision(spec, sign, ds, digits);
    if PadsWithZeros(spec) && !neg && spec.spaceOrSign != '\0' {
      SignLost(spec, precision, zero, ds);
    }
  }

  /** Zeros and digits are not a text with a sign in it. */
  lemma SignLost(spec: Spec, precision: int, zero: bool, ds: string)
    requires Proper(spec) && PadsWithZeros(spec) && spec.spaceOrSign != '\0' && ds != [] && AllDigits(ds, 10)
    ensures SignedOutputOf(spec, false, ds) != SignedIsoOf(spec, precision, false, zero, ds)
  {
    var out, right := SignedOutputOf(spec, false, ds), SignedIsoOf(spec, precision, false, zero, ds);
    assert right[0] == spec.spaceOrSign || right[0] == ' ';
    assert DigitValue(ds[0]) < 10;
    assert out[0] == '0' || out[0] == ds[0];
  }

  // ----- u, o, x and X

  /** The number of digits that should be there, a 0 in front of octal ones included. */
  function IsoLength(spec: Spec, precision: int, f: Conversion, zero: bool, n: nat): int {
    if spec.hash && f == O then Max(precision, if zero then 1 else n + 1)
    else if precision == 0 && zero then 0
    else Max(n, precision)
  }

  /** The number of digits that doprnt makes before it pads. */
  function MadeLength(spec: Spec, f: Conversion, n: nat): int { if spec.hash && f == O then n + 1 else n }

  /** Without a precision, the prefix has to come out right. With one, the prefix 0x has to,
      and the number of digits. */
  predicate UnsignedIsExact(spec: Spec, precision: int, f: Conversion, zero: bool, n: nat) {
    if precision < 0 then PrefixIsRight(spec, f, zero, n)
    else if spec.hash && f.X? then
      f == X(false) && !zero && precision <= n && (!PadsWithZeros(spec) || spec.width <= n + 2)
    else IsoLength(spec, precision, f, zero, n) == DigitsShown(spec, 0, MadeLength(spec, f, n))
  }

  /** Exactly when %u, %o, %x and %X print what they should. */
  lemma UnsignedExactly(spec: Spec, precision: int, f: Conversion, v: nat)
    requires Proper(spec)
    ensures UnsignedOutput(spec, f, v) == UnsignedIso(spec, precision, f, v)
            <==> UnsignedIsExact(spec, precision, f, v == 0, |UnsignedDigits(f, v)|)
  {
    var ds := UnsignedDigits(f, v);
    DigitsDenote(v, Base(f), Table(f));
    NoLeadingZero(v, Base(f), Table(f));
    forall i | 0 <= i < |ds| ensures DigitValue(ds[i]) < 16 { assert DigitValue(ds[i]) < Base(f); }
    UnsignedWithDigits(spec, precision, f, v == 0, ds);
  }

  lemma UnsignedWithDigits(spec: Spec, precision: int, f: Conversion, zero: bool, ds: string)
    requires Proper(spec) && ds != [] && AllDigits(ds, 16) && (zero ==> ds == "0") && (ds[0] == '0' ==> zero)
    ensures UnsignedOutputOf(spec, f, ds) == UnsignedIsoOf(spec, precision, f, zero, ds)
            <==> UnsignedIsExact(spec, precision, f, zero, |ds|)
  {
    if precision < 0 {
      NoPrecision(spec, precision, f, zero, ds);
      UnsignedDigitsAreRight(spec, f, zero, ds);
    } else if spec.hash && f.X? {
      HexPrecisely(spec, precision, f.upper, zero, ds);
    } else if spec.hash && f == O {
      OctalPrecisely(spec, precision, zero, ds);
    } else {
      OutputIsPadded(spec, f, ds);
      IsoDigitsExtend(precision, zero, ds);
      PaddingIsPrecision(spec, "", ds, IsoDigits(precision, zero, ds));
    }
  }

  /** Without a precision, this is the text without one. */
  lemma NoPrecision(spec: Spec, precision: int, f: Conversion, zero: bool, ds: string)
    requires precision < 0 && ds != [] && (zero ==> ds == "0") && (ds[0] == '0' ==> zero)
    ensures UnsignedIsoOf(spec, precision, f, zero, ds) == UnsignedTextOf(spec, f, zero, ds)
  {
  }

  /** Octal numbers with '#': one zero is made, and as many are asked for as make the first digit a zero. */
  lemma OctalPrecisely(spec: Spec, precision: int, zero: bool, ds: string)
    requires Proper(spec) && precision >= 0 && spec.hash
    requires ds != [] && AllDigits(ds, 16) && (zero ==> ds == "0") && (ds[0] == '0' ==> zero)
    ensures UnsignedOutputOf(spec, O, ds) == UnsignedIsoOf(spec, precision, O, zero, ds)
            <==> Max(precision, if zero then 1 else |ds| + 1) == DigitsShown(spec, 0, |ds| + 1)
  {
    OutputIsPadded(spec, O, ds);
    OctalDigits(precision, zero, ds);
    OctalAgainst(spec, OctalStart(IsoDigits(precision, zero, ds)), ds);
  }

  lemma OctalAgainst(spec: Spec, digits: string, ds: string)
    requires Proper(spec) && ds != [] && AllDigits(ds, 16) && AllDigits(digits, 16)
    requires |digits| >= |ds| && digits == Repeat('0', |digits| - |ds|) + ds && (|digits| == |ds| ==> ds == "0")
    ensures Padded(spec, "", "0" + ds) == Padded(spec.(pad := ' '), "", digits)
            <==> |digits| == DigitsShown(spec, 0, |ds| + 1)
  {
    if |digits| == |ds| {
      assert digits == "0" && "0" + ds == "00";
      OneZero(spec);
    } else {
      OneZeroMore(digits, ds);
      PaddingIsPrecision(spec, "", "0" + ds, digits);
    }
  }

  lemma OctalDigits(precision: int, zero: bool, ds: string)
    requires precision >= 0 && ds != [] && AllDigits(ds, 16) && (zero ==> ds == "0") && (ds[0] == '0' ==> zero)
    ensures var digits := OctalStart(IsoDigits(precision, zero, ds));
            && |digits| == Max(precision, if zero then 1 else |ds| + 1) && AllDigits(digits, 16)
            && digits == Repeat('0', |digits| - |ds|) + ds
  {
    IsoDigitsExtend(precision, zero, ds);
    var d := IsoDigits(precision, zero, ds);
    if d != [] && |d| == |ds| { assert Repeat('0', 0) + ds == ds; }
    assert Repeat('0', 1) == "0" && Repeat('0', 0) + "0" == "0";
  }

  lemma OneZeroMore(digits: string, ds: string)
    requires |digits| > |ds| && digits == Repeat('0', |digits| - |ds|) + ds
    ensures Extends(digits, "0" + ds)
  {
    var n := |digits| - |ds|;
    RepeatStep('0', n);
    Associate(Repeat('0', n - 1), "0", ds);
  }

  lemma OneZero(spec: Spec)
    requires Proper(spec)
    ensures Padded(spec, "", "00") != Padded(spec.(pad := ' '), "", "0")
  {
    CountPadded(spec, "", "00");
    CountPadded(spec.(pad := ' '), "", "0");
  }

  /** Hexadecimal numbers with '#': the prefix is always 0x, also for 0 and for X, and goes behind padding zeros. */
  lemma HexPrecisely(spec: Spec, precision: int, upper: bool, zero: bool, ds: string)
    requires Proper(spec) && precision >= 0 && spec.hash && ds != [] && AllDigits(ds, 16) && (zero ==> ds == "0")
    ensures UnsignedOutputOf(spec, X(upper), ds) == UnsignedIsoOf(spec, precision, X(upper), zero, ds)
            <==> !upper && !zero && precision <= |ds| && (!PadsWithZeros(spec) || spec.width <= |ds| + 2)
  {
    var digits, padded := IsoDigits(precision, zero, ds), IsoPad(spec, precision);
    OutputIsPadded(spec, X(upper), ds);
    IsoDigitsExtend(precision, zero, ds);
    if upper || zero {
      assert ("0x" + ds)[1] == 'x';
      PaddedHas(spec, "0x" + ds, 1);
      NoXAdded(padded, if zero then "" else "0X", digits);
    } else if PadsWithZeros(spec) && spec.width > |ds| + 2 {
      ZerosBeforePrefix(spec, ds, digits);
    } else {
      LowerPrefix(spec, ds);
      PaddingIsPrecision(spec, "0x", ds, digits);
    }
  }

  lemma ZerosBeforePrefix(spec: Spec, ds: string, digits: string)
    requires PadsWithZeros(spec) && spec.width > |ds| + 2 && digits != []
    ensures Padded(spec, "", "0x" + ds) != Padded(spec.(pad := ' '), "0x", digits)
  {
    var out, right := Padded(spec, "", "0x" + ds), Padded(spec.(pad := ' '), "0x", digits);
    assert out[0] == '0' && out[1] == '0';
    assert right[0] == ' ' || right[1] == 'x';
  }
}
