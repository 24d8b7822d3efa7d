/** A weight of texts by which the errors that doprnt makes in conversions without a precision never make a text
    lighter: so no two of them can cancel each other. */
module TextWeight {
  import opened Conversions
  import opened Digits
  import opened MemStream

  function WeightOf(c: char): int {
    if c == '0' then 1 else if c == 'x' then 2 else if c == ' ' then -1 else if c == '+' then -2 else 0
  }

  function Weight(s: string): int { if s == [] then 0 else Weight(s[..|s| - 1]) + WeightOf(s[|s| - 1]) }

  lemma WeightStep(s: string, c: char)
    ensures Weight(s + [c]) == Weight(s) + WeightOf(c)
  {
    assert (s + [c])[..|s|] == s;
  }

  lemma {:induction false} WeightConcat(a: string, b: string)
    ensures Weight(a + b) == Weight(a) + Weight(b)
    decreases |b|
  {
    if b == [] {
      assert a + b == a;
    } else {
      WeightConcat(a, b[..|b| - 1]);
      assert (a + b)[..|a + b| - 1] == a + b[..|b| - 1];
    }
  }

  lemma {:induction false} WeightRepeat(c: char, n: int)
    requires c == '0' || c == ' '
    ensures Weight(Repeat(c, n)) == if n <= 0 then 0 else if c == '0' then n else -n
    decreases n
  {
    if n > 0 {
      WeightRepeat(c, n - 1);
      RepeatStep(c, n);
      WeightStep(Repeat(c, n - 1), c);
    }
  }

  lemma WeightThree(a: string, b: string, c: string)
    ensures Weight(a + b + c) == Weight(a) + Weight(b) + Weight(c)
  {
    WeightConcat(a, b);
    WeightConcat(a + b, c);
  }

  /** What padding of that size weighs. */
  function PaddingWeight(spec: Spec, room: int): int {
    if room <= 0 then 0 else if PadsWithZeros(spec) then room else -room
  }

  lemma WeightPadded(spec: Spec, prefix: string, ds: string)
    requires Proper(spec)
    ensures Weight(Padded(spec, prefix, ds))
         == Weight(prefix) + Weight(ds) + PaddingWeight(spec, spec.width - |prefix| - |ds|)
  {
    var room := spec.width - |prefix| - |ds|;
    WeightRepeat(' ', room);
    WeightRepeat('0', room);
    if spec.flushLeft {
      WeightThree(prefix, ds, Repeat(' ', room));
    } else if spec.pad == '0' {
      WeightThree(prefix, Repeat('0', room), ds);
    } else {
      WeightThree(Repeat(' ', room), prefix, ds);
    }
  }

  /** What is printed is no lighter than what should be; and if it weighs the same, it is as long. */
  ghost predicate NotLighter(out: string, right: string) {
    Weight(out) > Weight(right) || (Weight(out) == Weight(right) && |out| == |right|)
  }

  /** A sign that zeros took the place of, or a space for a plus, makes the text heavier. */
  lemma SignedNotLighter(spec: Spec, sign: char, v: int)
    requires Proper(spec) && (sign == spec.spaceOrSign || (sign == '+' && spec.spaceOrSign == ' '))
    ensures NotLighter(SignedOutput(spec, v), SignedText(spec.(spaceOrSign := sign), v))
  {
    var ds := DigitsOf(Magnitude(v), 10, Lower);
    SignedIsRight(spec, v);
    if v < 0 {
    } else {
      DigitsDenote(v, 10, Lower);
      assert DigitValue(ds[0]) < 10;
      SignsWeighed(spec, sign, ds);
    }
  }

  lemma SignsWeighed(spec: Spec, sign: char, ds: string)
    requires Proper(spec) && (sign == spec.spaceOrSign || (sign == '+' && spec.spaceOrSign == ' '))
    requires ds != [] && DigitValue(ds[0]) < 10
    ensures NotLighter(SignedOutputOf(spec, false, ds), Padded(spec.(spaceOrSign := sign), SignText(false, sign), ds))
  {
    if spec.flushLeft || spec.pad != '0' {
      SignedDigitsAreRight(spec, false, ds);
      PrefixWeighed(spec, SignText(false, spec.spaceOrSign), sign, ds);
    } else {
      ZerosForSign(spec, ' ', ds);
      PrefixWeighed(spec, "", sign, ds);
    }
  }

  lemma PrefixWeighed(spec: Spec, shown: string, sign: char, ds: string)
    requires Proper(spec) && (sign == '\0' || sign == ' ' || sign == '+')
    requires shown == SignText(false, sign) || (shown == " " && sign == '+') || (shown == "" && PadsWithZeros(spec))
    ensures NotLighter(Padded(spec, shown, ds), Padded(spec.(spaceOrSign := sign), SignText(false, sign), ds))
  {
    var iso := spec.(spaceOrSign := sign);
    WeighSign(sign);
    WeighSign(' ');
    WeightPadded(iso, SignText(false, sign), ds);
    PaddedLength(iso, SignText(false, sign), ds);
    WeightPadded(spec, shown, ds);
    PaddedLength(spec, shown, ds);
  }

  lemma WeighSign(sign: char)
    requires sign == '\0' || sign == ' ' || sign == '+'
    ensures Weight(SignText(false, sign)) == if sign == '\0' then 0 else if sign == ' ' then -1 else -2
  {
    if sign != '\0' { assert [sign][..0] == []; }
  }

  /** So does a prefix that is too much, or a small x for a capital one; one in the wrong place weighs the same. */
  lemma UnsignedNotLighter(spec: Spec, f: Conversion, v: nat)
    requires Proper(spec)
    ensures NotLighter(UnsignedOutput(spec, f, v), UnsignedText(spec, f, v))
  {
    NoLeadingZero(v, Base(f), Table(f));
    PrefixesWeighed(spec, f, v == 0, UnsignedDigits(f, v));
  }

  lemma PrefixesWeighed(spec: Spec, f: Conversion, zero: bool, ds: string)
    requires Proper(spec) && (zero ==> ds == "0")
    ensures NotLighter(UnsignedOutputOf(spec, f, ds), UnsignedTextOf(spec, f, zero, ds))
  {
    var body := UnsignedBody(spec.hash, f, ds);
    OutputIsPadded(spec, f, ds);
    WeightPadded(spec, "", body);
    PaddedLength(spec, "", body);
    WeighPrefixes(ds);
    var prefix := if f.X? && spec.hash && !zero then (if f.upper then "0X" else "0x") else "";
    var digits := if f == O && spec.hash && !zero then "0" + ds else ds;
    WeightPadded(spec, prefix, digits);
    PaddedLength(spec, prefix, digits);
  }

  lemma WeighPrefixes(ds: string)
    ensures Weight("0" + ds) == 1 + Weight(ds) && Weight("0x" + ds) == 3 + Weight(ds)
    ensures Weight("0x") == 3 && Weight("0X") == 1 && Weight("0") == 1
  {
    assert "0"[..0] == [] && "0x"[..1] == "0" && "0X"[..1] == "0";
    WeightConcat("0", ds);
    WeightConcat("0x", ds);
  }
}
