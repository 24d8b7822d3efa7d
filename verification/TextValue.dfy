/** The number that stands in a text, among padding, sign and prefix: so doprnt, if it prints what it should, prints
    the number it should. */
module TextValue {
  import opened Conversions
  import opened Digits
  import opened IsoText
  import opened MemStream

  /** What the digits of a text denote, all other characters left out. */
  function Value(s: string, base: int): int {
    if s == [] then 0
    else
      var v, d := Value(s[..|s| - 1], base), DigitValue(s[|s| - 1]);
      if d < base then v * base + d else v
  }

  lemma ValueStep(s: string, c: char, base: int)
    ensures Value(s + [c], base) == var v, d := Value(s, base), DigitValue(c); if d < base then v * base + d else v
  {
    assert (s + [c])[..|s|] == s;
  }

  /** No digits but zeros. */
  predicate Worthless(s: string, base: int) {
    forall i :: 0 <= i < |s| ==> DigitValue(s[i]) == 0 || DigitValue(s[i]) >= base
  }

  lemma {:induction false} NothingIn(s: string, base: int)
    requires Worthless(s, base)
    ensures Value(s, base) == 0
    decreases |s|
  {
    if s != [] { NothingIn(s[..|s| - 1], base); }
  }

  lemma {:induction false} DigitsIn(front: string, ds: string, base: int)
    requires Worthless(front, base) && AllDigits(ds, base)
    ensures Value(front + ds, base) == Number(ds, base)
    decreases |ds|
  {
    if ds == [] {
      NothingIn(front, base);
      assert front + ds == front;
    } else {
      var n := |ds| - 1;
      DigitsIn(front, ds[..n], base);
      assert front + ds == front + ds[..n] + [ds[n]];
      ValueStep(front + ds[..n], ds[n], base);
    }
  }

  lemma {:induction false} SpacesBehind(s: string, n: int, base: int)
    requires base <= 36
    ensures Value(s + Repeat(' ', n), base) == Value(s, base)
    decreases n
  {
    if n <= 0 {
      assert s + Repeat(' ', n) == s;
    } else {
      SpacesBehind(s, n - 1, base);
      assert s + Repeat(' ', n) == s + Repeat(' ', n - 1) + [' '];
      ValueStep(s + Repeat(' ', n - 1), ' ', base);
    }
  }

  /** The number in a padded text is that of its digits. */
  lemma PaddedValue(spec: Spec, prefix: string, ds: string, base: int)
    requires Proper(spec) && Worthless(prefix, base) && AllDigits(ds, base) && 2 <= base <= 36
    ensures Value(Padded(spec, prefix, ds), base) == Number(ds, base)
  {
    var room := spec.width - |prefix| - |ds|;
    if spec.flushLeft {
      SpacesBehind(prefix + ds, room, base);
      DigitsIn(prefix, ds, base);
    } else if spec.pad == '0' {
      DigitsIn(prefix + Repeat('0', room), ds, base);
    } else {
      DigitsIn(Repeat(' ', room) + prefix, ds, base);
    }
  }

  lemma IsoDigitsValue(precision: int, zero: bool, ds: string, base: int)
    requires AllDigits(ds, base) && 2 <= base <= 36 && (zero ==> ds == "0")
    ensures AllDigits(IsoDigits(precision, zero, ds), base)
    ensures Number(IsoDigits(precision, zero, ds), base) == Number(ds, base)
  {
    if precision >= 0 && zero {
      LeadingZero("", base);
      assert "0" + "" == "0";
    }
    if precision >= 0 {
      ZerosInFront(precision - |ds|, ds, base);
    }
  }

  // ----- d and i

  predicate IsSign(c: char) { c == '\0' || c == ' ' || c == '+' }

  lemma IsoValue(spec: Spec, precision: int, neg: bool, zero: bool, ds: string)
    requires Proper(spec) && AllDigits(ds, 10) && (zero ==> ds == "0")
    ensures Value(SignedIsoOf(spec, precision, neg, zero, ds), 10) == Number(ds, 10)
    ensures '-' in SignedIsoOf(spec, precision, neg, zero, ds) <==> neg
  {
    var digits := IsoDigits(precision, zero, ds);
    IsoDigitsValue(precision, zero, ds, 10);
    PaddedValue(IsoPad(spec, precision), SignText(neg, spec.spaceOrSign), digits, 10);
    MinusPadded(IsoPad(spec, precision), neg, spec.spaceOrSign, digits);
  }

  lemma OutputValue(spec: Spec, neg: bool, ds: string)
    requires Proper(spec) && ds != [] && AllDigits(ds, 10)
    ensures Value(SignedOutputOf(spec, neg, ds), 10) == Number(ds, 10)
    ensures '-' in SignedOutputOf(spec, neg, ds) <==> neg
  {
    assert DigitValue(ds[0]) < 10;
    SignedDigitsAreRight(spec, neg, ds);
    if !neg && PadsWithZeros(spec) {
      ZerosForSign(spec, ' ', ds);
      PaddedValue(spec, "", ds, 10);
      MinusPadded(spec, false, '\0', ds);
    } else {
      PaddedValue(spec, SignText(neg, spec.spaceOrSign), ds, 10);
      MinusPadded(spec, neg, spec.spaceOrSign, ds);
    }
  }

  /** A minus is printed in front of negative numbers alone. */
  lemma MinusPadded(spec: Spec, neg: bool, sign: char, ds: string)
    requires Proper(spec) && IsSign(sign) && AllDigits(ds, 10)
    ensures '-' in Padded(spec, SignText(neg, sign), ds) <==> neg
  {
    var out, prefix := Padded(spec, SignText(neg, sign), ds), SignText(neg, sign);
    var room := spec.width - |prefix| - |ds|;
    forall i | 0 <= i < |ds| ensures ds[i] != '-' { assert DigitValue(ds[i]) < 10; }
    if neg {
      var k := if spec.flushLeft || spec.pad == '0' || room <= 0 then 0 else room;
      assert out[k] == prefix[0] == '-';
    }
  }

  /** If %d prints the text of a number, it prints that number. */
  lemma SameSigned(spec: Spec, sign: char, precision: int, a: int, b: int)
    requires Proper(spec) && IsSign(sign)
    requires SignedOutput(spec, a) == SignedIso(spec.(spaceOrSign := sign), precision, b)
    ensures a == b
  {
    DigitsDenote(Magnitude(a), 10, Lower);
    OutputValue(spec, a < 0, DigitsOf(Magnitude(a), 10, Lower));
    DigitsDenote(Magnitude(b), 10, Lower);
    NoLeadingZero(Magnitude(b), 10, Lower);
    IsoValue(spec.(spaceOrSign := sign), precision, b < 0, b == 0, DigitsOf(Magnitude(b), 10, Lower));
  }

  // ----- u, o, x and X

  lemma UnsignedOutputValue(spec: Spec, f: Conversion, ds: string)
    requires Proper(spec) && AllDigits(ds, Base(f))
    ensures Value(UnsignedOutputOf(spec, f, ds), Base(f)) == Number(ds, Base(f))
  {
    OutputIsPadded(spec, f, ds);
    if spec.hash && f.X? {
      PrefixBeforeDigits(spec, ds);
    } else if spec.hash && f == O {
      ZerosInFront(1, ds, 8);
      assert Repeat('0', 1) == "0";
      PaddedValue(spec, "", "0" + ds, 8);
    } else {
      PaddedValue(spec, "", ds, Base(f));
    }
  }

  lemma PrefixBeforeDigits(spec: Spec, ds: string)
    requires Proper(spec) && AllDigits(ds, 16)
    ensures Value(Padded(spec, "", "0x" + ds), 16) == Number(ds, 16)
  {
    var room := spec.width - 2 - |ds|;
    if spec.flushLeft {
      assert "" + ("0x" + ds) == "0x" + ds;
      SpacesBehind("0x" + ds, room, 16);
      DigitsIn("0x", ds, 16);
    } else {
      var zs := Repeat(spec.pad, room);
      assert Padded(spec, "", "0x" + ds) == zs + "0x" + ds;
      DigitsIn(zs + "0x", ds, 16);
    }
  }

  lemma UnsignedIsoValue(spec: Spec, precision: int, f: Conversion, zero: bool, ds: string)
    requires Proper(spec) && AllDigits(ds, Base(f)) && (zero ==> ds == "0")
    ensures Value(UnsignedIsoOf(spec, precision, f, zero, ds), Base(f)) == Number(ds, Base(f))
  {
    var digits, padded, base := IsoDigits(precision, zero, ds), IsoPad(spec, precision), Base(f);
    IsoDigitsValue(precision, zero, ds, base);
    PaddedValue(padded, "", digits, base);
    if spec.hash && f == O {
      ZerosInFront(1, digits, 8);
      assert Repeat('0', 1) == "0";
      PaddedValue(padded, "", OctalStart(digits), 8);
    } else if spec.hash && f.X? {
      PaddedValue(padded, if f.upper then "0X" else "0x", digits, 16);
    }
  }

  /** If %u, %o, %x or %X prints the text of a number, it prints that number. */
  lemma SameUnsigned(spec: Spec, precision: int, f: Conversion, a: nat, b: nat)
    requires Proper(spec) && UnsignedOutput(spec, f, a) == UnsignedIso(spec, precision, f, b)
    ensures a == b
  {
    DigitsDenote(a, Base(f), Table(f));
    DigitsDenote(b, Base(f), Table(f));
    NoLeadingZero(b, Base(f), Table(f));
    UnsignedOutputValue(spec, f, UnsignedDigits(f, a));
    UnsignedIsoValue(spec, precision, f, b == 0, UnsignedDigits(f, b));
  }

  // ----- the last character

  /** What a right text may end with: nothing but digits of the base, padding and signs. */
  predicate MayEnd(s: string, base: int) {
    s == [] || DigitValue(s[|s| - 1]) < base || s[|s| - 1] in " +-"
  }

  lemma PaddedEnds(spec: Spec, prefix: string, ds: string, base: int)
    requires Proper(spec) && base >= 2 && AllDigits(ds, base) && (ds != [] || MayEnd(prefix, base))
    ensures MayEnd(Padded(spec, prefix, ds), base)
  {
    var room := spec.width - |prefix| - |ds|;
    if ds != [] { assert DigitValue(ds[|ds| - 1]) < base; }
    if spec.flushLeft && room > 0 {
      assert Repeat(' ', room)[room - 1] == ' ';
    }
  }

  lemma SignedIsoEnds(spec: Spec, precision: int, v: int)
    requires Proper(spec)
    ensures MayEnd(SignedIso(spec, precision, v), 10)
  {
    var ds := DigitsOf(Magnitude(v), 10, Lower);
    DigitsDenote(Magnitude(v), 10, Lower);
    NoLeadingZero(Magnitude(v), 10, Lower);
    IsoDigitsValue(precision, v == 0, ds, 10);
    PaddedEnds(IsoPad(spec, precision), SignText(v < 0, spec.spaceOrSign), IsoDigits(precision, v == 0, ds), 10);
  }

  lemma UnsignedIsoEnds(spec: Spec, precision: int, f: Conversion, v: nat)
    requires Proper(spec)
    ensures MayEnd(UnsignedIso(spec, precision, f, v), Base(f))
  {
    DigitsDenote(v, Base(f), Table(f));
    NoLeadingZero(v, Base(f), Table(f));
    UnsignedIsoOfEnds(spec, precision, f, v == 0, UnsignedDigits(f, v));
  }

  lemma UnsignedIsoOfEnds(spec: Spec, precision: int, f: Conversion, zero: bool, ds: string)
    requires Proper(spec) && ds != [] && AllDigits(ds, Base(f)) && (zero ==> ds == "0")
    ensures MayEnd(UnsignedIsoOf(spec, precision, f, zero, ds), Base(f))
  {
    var digits, padded, base := IsoDigits(precision, zero, ds), IsoPad(spec, precision), Base(f);
    IsoDigitsValue(precision, zero, ds, base);
    PaddedEnds(padded, "", digits, base);
    if spec.hash && f == O {
      PaddedEnds(padded, "", OctalStart(digits), base);
    } else if spec.hash && f.X? && !zero {
      PaddedEnds(padded, if f.upper then "0X" else "0x", digits, base);
    }
  }
}
