/** ultoa, itoa and atoi: writing numbers into buffers, and reading them back. */
module Printers {
  import opened Digits
  import opened Machine
  import Strtoul

  const TMP_SIZE := 34   // of the buffer the digits are made in

  /** A NUL-terminated string at the start of a buffer. */
  predicate Holds(buffer: array<char>, s: string)
    reads buffer
  {
    |s| < buffer.Length && buffer[..|s|] == s && buffer[|s|] == '\0'
  }

  /** The digits of the value, the last one first. */
  method DigitsBackwards(tmp: array<char>, value: nat, radix: int, t: Numerals) returns (i: nat)
    requires 2 <= radix <= 16 && Usable(t) && value < TWO32 && tmp.Length >= TMP_SIZE
    modifies tmp
    ensures i == |DigitsOf(value, radix, t)| <= 32
    ensures Reversed(tmp[..i]) == DigitsOf(value, radix, t)
  {
    AtMost32Digits(value, radix, t);
    ghost var text := DigitsOf(value, radix, t);
    ghost var left, done := text, "";   // digits still to be made, and those made
    var v := value;
    i := 0;
    while true
      invariant i == |done| < |text| <= 32 && Made(text, left, done)
      invariant left == DigitsOf(v, radix, t) && tmp[..i] == done
      decreases |text| - i
    {
      var c;
      ghost var front;
      v, c, front := SplitOff(v, radix, t);
      DigitMade(text, left, front, c, done);
      tmp[i] := c;
      i := i + 1;
      left, done := front, done + [c];
      if v == 0 {
        break;
      }
    }
  }

  ghost predicate Made(text: string, left: string, done: string) {
    text == left + Reversed(done)
  }

  lemma DigitMade(text: string, ds: string, front: string, c: char, done: string)
    requires Made(text, ds, done) && ds == front + [c]
    ensures Made(text, front, done + [c]) && |done + [c]| == |text| - |front|
    ensures front == [] ==> Reversed(done + [c]) == text
  {
    ReversedStep(done, c);
  }

  /** Takes off the last digit. */
  method SplitOff(v: nat, radix: int, t: Numerals) returns (q: nat, c: char, ghost front: string)
    requires 2 <= radix <= 16 && Usable(t)
    ensures DigitsOf(v, radix, t) == front + [c]
    ensures if q == 0 then front == "" else front == DigitsOf(q, radix, t)
  {
    q := v / radix;
    c := Numeral(v % radix, t);
    if v >= radix { DivSmaller(v, radix); } else { OneDigit(v, radix); }
    front := if q == 0 then "" else DigitsOf(q, radix, t);
  }

  /** Copies the first n characters, the last one first, and puts a NUL behind them. */
  method ReverseInto(tmp: array<char>, n: nat, buffer: array<char>)
    requires tmp != buffer && n <= tmp.Length && n < buffer.Length
    modifies buffer
    ensures Holds(buffer, Reversed(tmp[..n])) && buffer[n + 1..] == old(buffer[n + 1..])
  {
    var p, i := 0, n;
    while i > 0
      invariant 0 <= i <= n && p == n - i
      invariant forall k :: 0 <= k < p ==> buffer[k] == tmp[n - 1 - k]
      invariant buffer[n..] == old(buffer[n..])
    {
      i := i - 1;
      buffer[p] := tmp[i];
      p := p + 1;
    }
    assert buffer[n..][1..] == buffer[n + 1..];
    buffer[p] := '\0';
    assert buffer[..n] == Reversed(tmp[..n]);
  }

  method Ultoa(value: nat, buffer: array<char>, radix: int)
    requires value < TWO32 && 2 <= radix <= 16 && |DigitsOf(value, radix, Lower)| < buffer.Length
    modifies buffer
    ensures Holds(buffer, DigitsOf(value, radix, Lower))
  {
    var tmpbuf := new char[TMP_SIZE];
    var i := DigitsBackwards(tmpbuf, value, radix, Lower);
    ReverseInto(tmpbuf, i, buffer);
  }

  /** What 32 bits keep of a number. */
  function Wrap(v: int): int { (v + TWO31) % TWO32 - TWO31 }

  /** The number of 32 bits that is the same modulo 2^32. */
  lemma WrapIs(v: int)
    ensures -0x8000_0000 <= Wrap(v) <= 0x7fff_ffff && (v - Wrap(v)) % 0x1_0000_0000 == 0
  {
    var q := (v + TWO31) / TWO32;
    assert v - Wrap(v) == q * TWO32;
  }

  /** What itoa writes: the text of the number; but the negation of INT_MIN is INT_MIN again, so its remainders are
      negative, and its digits, other than 0, are what lies in front of the digit table. */
  function ItoaText(value: int, radix: int, inFront: string): string
    requires 2 <= radix <= 16 && |inFront| == 15
  {
    (if value < 0 then "-" else "") + DigitsOf(if value < 0 then -value else value, radix, ItoaTable(value, inFront))
  }

  function ItoaTable(value: int, inFront: string): Numerals {
    if value == -TWO31 then InFront(inFront) else Lower
  }

  /** The number is written right for every int other than INT_MIN; for that one exactly if the memory in front of
      the table happens to hold the numerals of the digits it has, in reverse order. */
  lemma ItoaIsRight(value: int, radix: int, inFront: string)
    requires 2 <= radix <= 16 && |inFront| == 15
    ensures ItoaText(value, radix, inFront) == IntText(value, radix)
            <==> value != -TWO31 || AllMirrored(inFront, DigitSet(TWO31, radix))
  {
    if value == -TWO31 {
      DigitsInFront(TWO31, radix, inFront);
      SameBehind("-", DigitsOf(TWO31, radix, InFront(inFront)), DigitsOf(TWO31, radix, Lower));
    } else if value >= 0 {
      assert "" + DigitsOf(value, radix, Lower) == DigitsOf(value, radix, Lower);
    }
  }

  lemma SameBehind(a: string, b: string, c: string)
    ensures a + b == a + c <==> b == c
  {
    assert (a + b)[|a|..] == b && (a + c)[|a|..] == c;
  }

  /** `inFront` is what the memory in front of the digit table holds. */
  method Itoa(value: int, buffer: array<char>, radix: int, inFront: string)
    requires -TWO31 <= value < TWO31 && 2 <= radix <= 16 && |inFront| == 15
    requires |ItoaText(value, radix, inFront)| < buffer.Length
    modifies buffer
    ensures Holds(buffer, ItoaText(value, radix, inFront))
  {
    var neg := value < 0;
    var v := if neg then Wrap(-value) else value;
    var tmpbuf := new char[TMP_SIZE];
    var m, t := Dividend(v, inFront);
    assert t == ItoaTable(value, inFront) && m == if neg then -value else value;
    var i := DigitsBackwards(tmpbuf, m, radix, t);
    i := AddSign(tmpbuf, i, neg, DigitsOf(m, radix, t));
    ReverseInto(tmpbuf, i, buffer);
  }

  /** Dividing a negative number, C leaves remainders that are negative, or 0: the digits of its magnitude, looked up
      in front of the table. */
  method Dividend(v: int, inFront: string) returns (m: nat, t: Numerals)
    ensures m == if v < 0 then -v else v
    ensures t == if v < 0 then InFront(inFront) else Lower
  {
    m := if v < 0 then -v else v;
    t := if v < 0 then InFront(inFront) else Lower;
  }

  method AddSign(tmp: array<char>, n: nat, neg: bool, ghost ds: string) returns (i: nat)
    requires n < tmp.Length && n == |ds| && Reversed(tmp[..n]) == ds
    modifies tmp
    ensures i <= tmp.Length && i == |ds| + (if neg then 1 else 0)
    ensures Reversed(tmp[..i]) == (if neg then "-" else "") + ds
  {
    i := n;
    assert "" + ds == ds;
    if neg {
      Append(tmp, i, '-');
      i := i + 1;
    }
  }

  method Append(tmp: array<char>, n: nat, c: char)
    requires n < tmp.Length
    modifies tmp
    ensures Reversed(tmp[..n + 1]) == [c] + Reversed(old(tmp[..n]))
  {
    ReversedStep(tmp[..n], c);
    ghost var done := tmp[..n];
    tmp[n] := c;
    assert tmp[..n + 1] == done + [c];
  }

  // ----- atoi

  predicate IsSpace(c: char) { c == ' ' || c == '\t' || c == '\n' || c == '\r' || Code(c) == 11 }

  function SpacesEnd(s: string, i: nat): (j: nat)
    requires i <= |s|
    ensures i <= j <= |s|
    decreases |s| - i
  {
    if i < |s| && IsSpace(s[i]) then SpacesEnd(s, i + 1) else i
  }

  function DecimalsEnd(s: string, i: nat): (j: nat)
    requires i <= |s|
    ensures i <= j <= |s|
    decreases |s| - i
  {
    if i < |s| && '0' <= s[i] <= '9' then DecimalsEnd(s, i + 1) else i
  }

  /** The number that atoi should find: blanks, a sign or not, decimal digits. */
  function Decimal(s: string): int {
    var i := SpacesEnd(s, 0);
    var k := if i < |s| && (s[i] == '+' || s[i] == '-') then i + 1 else i;
    var n := Number(s[k..DecimalsEnd(s, k)], 10);
    if i < |s| && s[i] == '-' then -n else n
  }

  lemma WrapStep(v: int, d: int)
    ensures Wrap(Wrap(v) * 10 + d) == Wrap(v * 10 + d)
  {
    var q := (v + TWO31) / TWO32;
    assert Wrap(v) == v - q * TWO32;
    WrapMultiple(v * 10 + d, -10 * q);
  }

  lemma WrapMultiple(v: int, q: int)
    ensures Wrap(v + q * TWO32) == Wrap(v)
  {
    var a := v + TWO31;
    assert (a + q * TWO32) % TWO32 == a % TWO32;
  }

  lemma WrapNegated(v: int)
    ensures Wrap(-Wrap(v)) == Wrap(-v)
  {
    var q := (v + TWO31) / TWO32;
    assert Wrap(v) == v - q * TWO32;
    WrapMultiple(-v, q);
  }

  /** atoi, in 32 bits: the number, modulo 2^32. */
  method Atoi(c: string) returns (value: int)
    ensures value == Wrap(Decimal(c))
  {
    var p: nat := 0;
    while p < |c| && IsSpace(c[p])
      invariant p <= |c| && SpacesEnd(c, 0) == SpacesEnd(c, p)
    {
      p := p + 1;
    }
    var negative := false;
    if p < |c| && c[p] == '+' {
      p := p + 1;
    } else if p < |c| && c[p] == '-' {
      negative := true;
      p := p + 1;
    }
    value := ReadDecimals(c, p);
    WrapNegated(Number(c[p..DecimalsEnd(c, p)], 10));
    if negative {
      value := Wrap(-value);
    }
  }

  lemma OneMore(c: string, k: nat, p: nat)
    requires k <= p < |c| && '0' <= c[p] <= '9'
    ensures Number(c[k..p + 1], 10) == Number(c[k..p], 10) * 10 + (Code(c[p]) - Code('0'))
  {
    assert c[k..p + 1] == c[k..p] + [c[p]];
    NumberStep(c[k..p], c[p], 10);
  }

  method ReadDecimals(c: string, k: nat) returns (value: int)
    requires k <= |c|
    ensures value == Wrap(Number(c[k..DecimalsEnd(c, k)], 10))
  {
    value := 0;
    var p := k;
    assert c[k..k] == [];
    while p < |c| && '0' <= c[p] <= '9'
      invariant k <= p <= |c| && DecimalsEnd(c, k) == DecimalsEnd(c, p)
      invariant value == Wrap(Number(c[k..p], 10))
    {
      var d := Code(c[p]) - Code('0');
      OneMore(c, k, p);
      WrapStep(Number(c[k..p], 10), d);
      value := Wrap(value * 10 + d);
      p := p + 1;
    }
  }

  lemma {:induction false} SpacesSkipped(pre: string, rest: string, i: nat)
    requires i <= |pre| && (forall k :: 0 <= k < |pre| ==> IsSpace(pre[k])) && (rest == [] || !IsSpace(rest[0]))
    ensures SpacesEnd(pre + rest, i) == |pre|
    decreases |pre| - i
  {
    if i < |pre| {
      assert (pre + rest)[i] == pre[i];
      SpacesSkipped(pre, rest, i + 1);
    } else {
      assert rest != [] ==> (pre + rest)[i] == rest[0];
    }
  }

  lemma {:induction false} DecimalsSpan(front: string, ds: string, rest: string, i: nat)
    requires |front| <= i <= |front + ds| && (forall k :: 0 <= k < |ds| ==> '0' <= ds[k] <= '9')
    requires rest == [] || !('0' <= rest[0] <= '9')
    ensures DecimalsEnd(front + ds + rest, i) == |front + ds|
    decreases |front + ds| - i
  {
    var s := front + ds + rest;
    if i < |front + ds| {
      assert s[i] == ds[i - |front|];
      DecimalsSpan(front, ds, rest, i + 1);
    } else {
      assert rest != [] ==> s[i] == rest[0];
    }
  }

  function SignOrNone(c: char): string { if c == '\0' then [] else [c] }

  /** Blanks, tabs and the other white space but form feeds, a plus, a minus or neither, and decimal digits, or none, up
      to anything else: that is the number. */
  lemma DecimalIs(pre: string, sign: char, ds: string, rest: string)
    requires forall i :: 0 <= i < |pre| ==> pre[i] == ' ' || pre[i] == '\t' || pre[i] == '\n' || pre[i] == '\r'
                                            || pre[i] as int == 11
    requires sign == '\0' || sign == '+' || sign == '-'
    requires (forall i :: 0 <= i < |ds| ==> '0' <= ds[i] <= '9') && (rest == [] || !('0' <= rest[0] <= '9'))
    requires ds + rest != [] && sign == '\0' ==>
               var c := (ds + rest)[0]; c !in " \t\n\r+-" && c as int != 11
    ensures Decimal(pre + SignOrNone(sign) + ds + rest) == if sign == '-' then -Number(ds, 10) else Number(ds, 10)
  {
    SignPlaced(pre, sign, ds + rest);
    DecimalBehind(pre + SignOrNone(sign), ds, rest, |pre|, sign == '-');
  }

  lemma DecimalBehind(front: string, ds: string, rest: string, i: nat, neg: bool)
    requires (forall k :: 0 <= k < |ds| ==> '0' <= ds[k] <= '9') && (rest == [] || !('0' <= rest[0] <= '9'))
    requires var s := front + (ds + rest);
             && SpacesEnd(s, 0) == i && (i < |s| && s[i] == '-' <==> neg)
             && |front| == if i < |s| && (s[i] == '+' || s[i] == '-') then i + 1 else i
    ensures Decimal(front + ds + rest) == if neg then -Number(ds, 10) else Number(ds, 10)
  {
    var s := front + ds + rest;
    assert s == front + (ds + rest);
    DecimalsSpan(front, ds, rest, |front|);
    assert s[|front|..|front + ds|] == ds;
    DecimalFrom(s, i, |front|, ds);
  }

  lemma SignPlaced(pre: string, sign: char, w: string)
    requires forall i :: 0 <= i < |pre| ==> IsSpace(pre[i])
    requires sign == '\0' || sign == '+' || sign == '-'
    requires w != [] && sign == '\0' ==> !IsSpace(w[0]) && w[0] != '+' && w[0] != '-'
    ensures var s, i := pre + SignOrNone(sign) + w, |pre|;
            && SpacesEnd(s, 0) == i && (i < |s| && s[i] == '-' <==> sign == '-')
            && |pre + SignOrNone(sign)| == if i < |s| && (s[i] == '+' || s[i] == '-') then i + 1 else i
  {
    var more := SignOrNone(sign) + w;
    assert pre + SignOrNone(sign) + w == pre + more;
    assert more != [] ==> more[0] == if sign == '\0' then w[0] else sign;
    SpacesSkipped(pre, more, 0);
    assert more != [] ==> (pre + more)[|pre|] == more[0];
  }

  lemma DecimalFrom(s: string, i: nat, k: nat, ds: string)
    requires i == SpacesEnd(s, 0) && k + |ds| <= |s|
    requires k == if i < |s| && (s[i] == '+' || s[i] == '-') then i + 1 else i
    requires DecimalsEnd(s, k) == k + |ds| && s[k..k + |ds|] == ds
    ensures Decimal(s) == if i < |s| && s[i] == '-' then -Number(ds, 10) else Number(ds, 10)
  {
  }

  // ----- round trips

  /** What ultoa writes, strtoul reads, up to its end, in every radix. */
  lemma UltoaIsRead(value: nat, radix: int)
    requires 2 <= radix <= 16
    ensures Strtoul.Parse(DigitsOf(value, radix, Lower), radix)
         == Strtoul.Parsed(true, false, value, |DigitsOf(value, radix, Lower)|)
  {
    IntIsRead(value, radix);
  }

  /** What itoa writes is read back with its sign. */
  lemma IntIsRead(v: int, radix: int)
    requires 2 <= radix <= 16
    ensures Strtoul.Parse(IntText(v, radix), radix)
         == Strtoul.Parsed(true, v < 0, if v < 0 then -v else v, |IntText(v, radix)|)
  {
    var n := if v < 0 then -v else v;
    var ds := DigitsOf(n, radix, Lower);
    DigitsDenote(n, radix, Lower);
    NoLeadingZero(n, radix, Lower);
    Strtoul.NumberIsRead("", v < 0, ds, "", radix);
    assert "" + Strtoul.Sign(v < 0) + (ds + "") == IntText(v, radix);
    assert "" + Strtoul.Sign(v < 0) + ds == IntText(v, radix);
    assert ds + "" == ds;
  }

  lemma {:induction false} DecimalsTaken(s: string, i: nat)
    requires i <= |s| && forall k :: i <= k < |s| ==> '0' <= s[k] <= '9'
    ensures DecimalsEnd(s, i) == |s|
    decreases |s| - i
  {
    if i < |s| { DecimalsTaken(s, i + 1); }
  }

  /** What itoa writes in decimal, atoi reads. */
  lemma ItoaIsRead(v: int)
    ensures Decimal(IntText(v, 10)) == v
  {
    var n := if v < 0 then -v else v;
    var s, ds := IntText(v, 10), DigitsOf(n, 10, Lower);
    DigitsDenote(n, 10, Lower);
    forall k | 0 <= k < |ds| ensures '0' <= ds[k] <= '9' {
      assert DigitValue(ds[k]) < 10;
    }
    var k := if v < 0 then 1 else 0;
    assert s[k..] == ds;
    forall j | k <= j < |s| ensures '0' <= s[j] <= '9' { assert s[j] == ds[j - k]; }
    DecimalsTaken(s, k);
    assert s[k..|s|] == ds;
    assert SpacesEnd(s, 0) == 0;
  }

  /** strtoul on the text of any integer: right if it is ULONG_MAX for those whose magnitude is too large, which
      it is for the positive ones alone. */
  method StrtoulOfInt(v: int, radix: int) returns (r: int)
    requires 2 <= radix <= 16
    ensures -TWO32 < v < TWO32 ==> r == v % TWO32
    ensures v >= TWO32 ==> r == Strtoul.ULONG_MAX
    ensures v <= -TWO32 ==> r == 1
  {
    IntIsRead(v, radix);
    var end;
    r, end := Strtoul.Strtoul(IntText(v, radix), radix);
  }
}
