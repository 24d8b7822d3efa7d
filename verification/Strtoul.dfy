/** strtoul and strtol: reading numbers. A string is the characters before its NUL. */
module Strtoul {
  import opened Digits
  import opened Machine

  const ULONG_MAX := TWO32 - 1
  const LONG_MAX := TWO31 - 1
  const LONG_MIN := -TWO31

  // ----- the two assembler pieces

  /** Multiplies by shifting and adding, and notices when 32 bits are not enough. */
  method Mul32(in0: int, mul0: int) returns (ret: int, overflow: bool)
    requires 0 <= in0 < TWO32 && 0 <= mul0 < TWO32
    ensures overflow <==> in0 * mul0 >= TWO32
    ensures 0 <= ret < TWO32 && (!overflow ==> ret == in0 * mul0)
  {
    var x, mul := in0, mul0;
    ret := 0;
    while true
      invariant 0 <= x < TWO32 && 0 <= mul && 0 <= ret < TWO32
      invariant ret + x * mul == in0 * mul0
      decreases mul
    {
      OneBit(x, mul);
      if mul % 2 == 1 {
        if ret + x >= TWO32 {
          return ret + x - TWO32, true;
        }
        ret := ret + x;
      }
      mul := mul / 2;
      if mul == 0 {
        return ret, false;
      }
      AtLeast(x, mul);
      if x + x >= TWO32 {
        return ret, true;
      }
      x := x + x;
    }
  }

  lemma OneBit(x: int, m: int)
    requires x >= 0 && m >= 0
    ensures x * m == (if m % 2 == 1 then x else 0) + (x + x) * (m / 2)
    ensures m % 2 == 1 ==> x * m >= x
    ensures m == 1 ==> m / 2 == 0 && (x + x) * (m / 2) == 0
  {
    var h := m / 2;
    assert m == 2 * h + m % 2;
    assert (x + x) * h == x * (2 * h);
    assert x * h >= 0;
  }

  lemma AtLeast(x: int, m: int)
    requires x >= 0 && m >= 1
    ensures (x + x) * m >= x + x
  {
  }

  method Add32(a: int, add: int) returns (r: int, carry: bool)
    requires 0 <= a < TWO32 && 0 <= add < TWO32
    ensures r == (a + add) % TWO32
    ensures carry <==> a + add != r
  {
    carry := a + add >= TWO32;
    r := if carry then a + add - TWO32 else a + add;
  }

  // ----- what is read

  /** What the source takes for the value of a digit. A char is signed, so codes above 127 are negative. */
  function CodeValue(c: char): (v: int)
    ensures v >= 0
  {
    if '0' <= c <= '9' then Code(c) - Code('0')
    else if Code(c) >= 128 then 37
    else
      var upper := if Code(c) / 32 % 2 == 1 then Code(c) - 32 else Code(c);
      var val := 10 + upper - Code('A');
      if val < 10 then 37 else val
  }

  /** In the bases up to 36 these are the digits and letters. */
  lemma CodeValueIsDigitValue(c: char, base: int)
    requires base <= 36
    ensures CodeValue(c) < base <==> DigitValue(c) < base
    ensures CodeValue(c) < base ==> CodeValue(c) == DigitValue(c)
  {
    var k := Code(c);
    if k < 128 {
      assert k / 32 == 0 || k / 32 == 1 || k / 32 == 2 || k / 32 == 3;
    }
  }

  /** The number read from s[at] up to s[end]. */
  function ValueRead(s: string, at: nat, end: nat, base: int): int
    requires end <= |s|
  {
    if end <= at then 0 else ValueRead(s, at, end - 1, base) * base + CodeValue(s[end - 1])
  }

  predicate IsBlank(c: char) { c == ' ' || c == '\t' }

  function BlanksEnd(s: string, i: nat): (j: nat)
    requires i <= |s|
    ensures i <= j <= |s|
    decreases |s| - i
  {
    if i < |s| && IsBlank(s[i]) then BlanksEnd(s, i + 1) else i
  }

  function DigitsEnd(s: string, i: nat, base: int): (j: nat)
    requires i <= |s|
    ensures i <= j <= |s|
    decreases |s| - i
  {
    if i < |s| && CodeValue(s[i]) < base then DigitsEnd(s, i + 1, base) else i
  }

  predicate IsB(c: char) { c == 'b' || c == 'B' }
  predicate IsX(c: char) { c == 'x' || c == 'X' }

  /** Where the digits start, and in which base they are. */
  datatype Start = Refused | Digits(at: nat, base: int)

  function StartAt(s: string, k: nat, base: int): (r: Start)
    requires k <= |s|
    ensures r.Digits? ==> k <= r.at <= |s| && r.base != 0 && (r.base == base || r.base <= 16)
  {
    if k == |s| then Refused
    else if s[k] != '0' then Digits(k, if base == 0 then 10 else base)
    else if k + 1 < |s| && IsB(s[k + 1]) then
      if base != 0 && base != 2 then Refused else Digits(k + 2, 2)
    else if k + 1 < |s| && IsX(s[k + 1]) then
      if base != 0 && base != 16 then Refused else Digits(k + 2, 16)
    else Digits(k + 1, if base == 0 then 8 else base)
  }

  /** What a string says, without any limit on the size of the number. */
  datatype Parsed = Parsed(ok: bool, neg: bool, value: int, end: nat)

  function SignAt(s: string): (i: nat)
    ensures i <= |s|
  {
    BlanksEnd(s, 0)
  }

  predicate IsNegative(s: string) { SignAt(s) < |s| && s[SignAt(s)] == '-' }

  function ParseFrom(s: string, neg: bool, start: Start): Parsed
    requires start.Digits? ==> start.at <= |s|
  {
    match start
    case Refused => Parsed(false, neg, 0, 0)
    case Digits(at, b) => Parsed(true, neg, ValueRead(s, at, DigitsEnd(s, at, b), b), DigitsEnd(s, at, b))
  }

  function Parse(s: string, base: int): Parsed {
    var neg := IsNegative(s);
    ParseFrom(s, neg, StartAt(s, if neg then SignAt(s) + 1 else SignAt(s), base))
  }

  function Saturated(v: int): int { if v >= TWO32 then ULONG_MAX else v }

  // ----- the program

  lemma OverflowStays(n: int, d: int, base: int)
    requires n >= TWO32 && d >= 0 && base >= 1
    ensures n * base + d >= TWO32
  {
    assert n * base >= n;
  }

  /** The digit loop. */
  method ReadDigits(s: string, at: nat, base: int) returns (ret: int, end: nat)
    requires at <= |s| && base < TWO32
    ensures end == DigitsEnd(s, at, base)
    ensures ret == Saturated(ValueRead(s, at, end, base))
  {
    var overflow := false;
    ret, end := 0, at;
    ghost var n := 0;
    while end < |s|
      invariant at <= end <= |s| && DigitsEnd(s, at, base) == DigitsEnd(s, end, base)
      invariant n == ValueRead(s, at, end, base) && 0 <= ret < TWO32
      invariant overflow <==> n >= TWO32
      invariant !overflow ==> ret == n
    {
      var val := CodeValue(s[end]);
      if val >= base { break; }
      if !overflow {
        ret, overflow := MulAdd(ret, base, val);
      } else {
        OverflowStays(n, val, base);
      }
      n := n * base + val;
      end := end + 1;
    }
    if overflow { ret := ULONG_MAX; }
  }

  method MulAdd(a: int, base: int, val: int) returns (ret: int, overflow: bool)
    requires 0 <= a < TWO32 && 0 <= val < base < TWO32
    ensures overflow <==> a * base + val >= TWO32
    ensures 0 <= ret < TWO32 && (!overflow ==> ret == a * base + val)
  {
    ret, overflow := a, false;
    if ret != 0 {
      ret, overflow := Mul32(ret, base);
    }
    if overflow {
      return;
    }
    ret, overflow := Add32(ret, val);
  }

  /** The prefix that says the base. */
  method FindStart(s: string, k: nat, base: int) returns (r: Start)
    requires k <= |s|
    ensures r == StartAt(s, k, base)
  {
    if k == |s| { return Refused; }
    var ptr, b := k, base;
    if s[ptr] == '0' {
      ptr := ptr + 1;
      if ptr < |s| && IsB(s[ptr]) {
        if b != 0 && b != 2 { return Refused; }
        b := 2;
        ptr := ptr + 1;
      } else if ptr < |s| && IsX(s[ptr]) {
        if b != 0 && b != 16 { return Refused; }
        b := 16;
        ptr := ptr + 1;
      } else if b == 0 {
        b := 8;
      }
    } else if b == 0 {
      b := 10;
    }
    return Digits(ptr, b);
  }

  method StrtoulInternal(s: string, base: int) returns (ret: int, end: nat, sign: bool)
    requires base < TWO31
    ensures sign == Parse(s, base).neg && end == Parse(s, base).end
    ensures ret == Saturated(Parse(s, base).value)
  {
    var ptr: nat := 0;
    while ptr < |s| && IsBlank(s[ptr])
      invariant ptr <= |s| && BlanksEnd(s, 0) == BlanksEnd(s, ptr)
    {
      ptr := ptr + 1;
    }
    sign := ptr < |s| && s[ptr] == '-';
    if sign { ptr := ptr + 1; }
    var start := FindStart(s, ptr, base);
    match start
    case Refused =>
      ret, end := 0, 0;
    case Digits(at, b) =>
      ret, end := ReadDigits(s, at, b);
  }

  /** The signed number a string says. */
  function Signed(p: Parsed): int { if p.neg then -p.value else p.value }

  method Strtol(s: string, base: int) returns (r: int, end: nat)
    requires base < TWO31
    ensures end == Parse(s, base).end
    ensures var v := Signed(Parse(s, base));
            r == if v < -0x8000_0000 then -0x8000_0000 else if v > 0x7fff_ffff then 0x7fff_ffff else v
  {
    var ret, sign;
    ret, end, sign := StrtoulInternal(s, base);
    ValueNotNegative(s, base);
    r := if ret > LONG_MAX then (if sign then LONG_MIN else LONG_MAX) else if sign then -ret else ret;
  }

  /** The negation of what is read is taken modulo 2^32. That is the number itself, modulo 2^32, or ULONG_MAX
      if it is too large, as it should be, except for numbers too large with a minus in front: those give 1. */
  method Strtoul(s: string, base: int) returns (r: int, end: nat)
    requires base < TWO31
    ensures end == Parse(s, base).end && 0 <= r < TWO32
    ensures var p := Parse(s, base);
            && (p.value < TWO32 ==> r == Signed(p) % TWO32)
            && (p.value >= TWO32 ==> r == if p.neg then 1 else 0xffff_ffff)
  {
    var ret, sign;
    ret, end, sign := StrtoulInternal(s, base);
    ValueNotNegative(s, base);
    Complement(ret);
    r := if sign && ret != 0 then TWO32 - ret else ret;
  }

  /** What unsigned negation comes to. */
  lemma Complement(v: int)
    requires 0 <= v < TWO32
    ensures v % TWO32 == v && (-v) % TWO32 == if v != 0 then TWO32 - v else v
  {
  }

  lemma {:induction false} ReadNotNegative(s: string, at: nat, end: nat, base: int)
    requires base >= 0 && end <= |s|
    ensures ValueRead(s, at, end, base) >= 0
  {
    if end > at { ReadNotNegative(s, at, end - 1, base); }
  }

  lemma ValueNotNegative(s: string, base: int)
    ensures Parse(s, base).value >= 0
  {
    var k := if IsNegative(s) then SignAt(s) + 1 else SignAt(s);
    match StartAt(s, k, base)
    case Refused =>
    case Digits(at, b) =>
      if b >= 0 {
        ReadNotNegative(s, at, DigitsEnd(s, at, b), b);
      }
  }

  // ----- numbers in strings

  predicate AllBlank(s: string) { forall i :: 0 <= i < |s| ==> IsBlank(s[i]) }

  lemma {:induction false} BlanksSkipped(pre: string, rest: string, i: nat)
    requires AllBlank(pre) && i <= |pre| && (rest == [] || !IsBlank(rest[0]))
    ensures BlanksEnd(pre + rest, i) == |pre|
    decreases |pre| - i
  {
    if i < |pre| {
      assert (pre + rest)[i] == pre[i];
      BlanksSkipped(pre, rest, i + 1);
    } else {
      assert rest != [] ==> (pre + rest)[i] == rest[0];
    }
  }

  /** At k, s has the digits ds, and behind them nothing that is a digit of the base. */
  predicate DigitsAt(s: string, k: nat, ds: string, base: int) {
    && AllDigits(ds, base) && k + |ds| <= |s| && s[k..k + |ds|] == ds
    && (k + |ds| < |s| ==> DigitValue(s[k + |ds|]) >= base)
  }

  lemma {:induction false} DigitsTaken(s: string, k: nat, ds: string, base: int, i: nat)
    requires base <= 36 && DigitsAt(s, k, ds, base) && k <= i <= k + |ds|
    ensures DigitsEnd(s, i, base) == k + |ds|
    decreases k + |ds| - i
  {
    if i < |s| { CodeValueIsDigitValue(s[i], base); }
    if i < k + |ds| {
      assert s[i] == s[k..k + |ds|][i - k] == ds[i - k];
      DigitsTaken(s, k, ds, base, i + 1);
    }
  }

  lemma {:induction false} DigitsValue(s: string, k: nat, ds: string, base: int, n: nat)
    requires base <= 36 && DigitsAt(s, k, ds, base) && n <= |ds|
    ensures ValueRead(s, k, k + n, base) == Number(ds[..n], base)
  {
    if n > 0 {
      DigitsValue(s, k, ds, base, n - 1);
      assert ds[..n] == ds[..n - 1] + [ds[n - 1]];
      NumberStep(ds[..n - 1], ds[n - 1], base);
      assert s[k + n - 1] == s[k..k + |ds|][n - 1] == ds[n - 1];
      CodeValueIsDigitValue(ds[n - 1], base);
    }
  }

  /** Such digits are read as the number they denote. */
  lemma DigitsRead(s: string, k: nat, ds: string, base: int)
    requires base <= 36 && DigitsAt(s, k, ds, base)
    ensures DigitsEnd(s, k, base) == k + |ds|
    ensures ValueRead(s, k, k + |ds|, base) == Number(ds, base)
  {
    DigitsTaken(s, k, ds, base, k);
    DigitsValue(s, k, ds, base, |ds|);
    assert ds[..|ds|] == ds;
  }

  lemma ZeroRead(s: string, k: nat, ds: string, base: int)
    requires base <= 36 && DigitsAt(s, k, ds, base) && ds != [] && ds[0] == '0'
    ensures DigitsEnd(s, k + 1, base) == k + |ds|
    ensures ValueRead(s, k + 1, k + |ds|, base) == Number(ds, base)
  {
    var rest := ds[1..];
    assert s[k + 1..k + |ds|] == s[k..k + |ds|][1..] == rest;
    DigitsRead(s, k + 1, rest, base);
    assert ds == "0" + rest;
    LeadingZero(rest, base);
  }

  /** At k, s has something that looks like a base prefix. */
  predicate PrefixAt(s: string, k: nat) { k + 2 <= |s| && s[k] == '0' && (IsB(s[k + 1]) || IsX(s[k + 1])) }

  lemma PrefixMisread(s: string, k: nat, ds: string, base: int)
    requires 2 <= base <= 36 && ds != [] && DigitsAt(s, k, ds, base) && PrefixAt(s, k)
    ensures StartAt(s, k, base).Refused? || (StartAt(s, k, base).at == k + 2 && |ds| == 1)
  {
    if |ds| >= 2 {
      assert s[k + 1] == s[k..k + |ds|][1] == ds[1];
      assert DigitValue(ds[1]) < base;
      assert base > 11 && (IsX(s[k + 1]) ==> base > 33);
    }
  }

  /** Digits read from where they start. */
  lemma ReadFrom(s: string, neg: bool, at: nat, ds: string, base: int)
    requires base <= 36 && DigitsAt(s, at, ds, base)
    ensures ParseFrom(s, neg, Digits(at, base)) == Parsed(true, neg, Number(ds, base), at + |ds|)
  {
    DigitsRead(s, at, ds, base);
  }

  /** Digits read from behind the zero that they start with. */
  lemma ReadFromZero(s: string, neg: bool, at: nat, ds: string, base: int)
    requires base <= 36 && DigitsAt(s, at, ds, base) && ds != [] && ds[0] == '0'
    ensures ParseFrom(s, neg, Digits(at + 1, base)) == Parsed(true, neg, Number(ds, base), at + |ds|)
  {
    ZeroRead(s, at, ds, base);
  }

  lemma PlainRead(s: string, k: nat, neg: bool, ds: string, base: int)
    requires 2 <= base <= 36 && ds != [] && DigitsAt(s, k, ds, base) && !PrefixAt(s, k)
    ensures ParseFrom(s, neg, StartAt(s, k, base)) == Parsed(true, neg, Number(ds, base), k + |ds|)
  {
    assert s[k] == s[k..k + |ds|][0] == ds[0];
    if ds[0] == '0' {
      ReadFromZero(s, neg, k, ds, base);
    } else {
      ReadFrom(s, neg, k, ds, base);
    }
  }

  /** The base of digits: base 0 is octal if they start with a zero, and decimal otherwise. */
  function BaseOf(base: int, ds: string): int {
    if base != 0 then base else if ds != [] && ds[0] == '0' then 8 else 10
  }

  /** Digits of the base are read as the number they denote, up to their end, exactly when they do not look like
      a base prefix. */
  lemma DigitsParsed(s: string, k: nat, neg: bool, ds: string, base: int)
    requires (base == 0 || 2 <= base <= 36) && ds != [] && DigitsAt(s, k, ds, BaseOf(base, ds))
    ensures ParseFrom(s, neg, StartAt(s, k, base)) == Parsed(true, neg, Number(ds, BaseOf(base, ds)), k + |ds|)
            <==> !PrefixAt(s, k)
  {
    var b := BaseOf(base, ds);
    assert s[k] == s[k..k + |ds|][0] == ds[0];
    if PrefixAt(s, k) {
      PrefixMisread(s, k, ds, b);
      if base == 0 { ZeroAlone(s, k, ds); }
    } else {
      assert StartAt(s, k, base) == StartAt(s, k, b);
      PlainRead(s, k, neg, ds, b);
    }
  }

  /** Octal digits in front of the letter of a prefix are a single zero. */
  lemma ZeroAlone(s: string, k: nat, ds: string)
    requires DigitsAt(s, k, ds, 8) && PrefixAt(s, k)
    ensures |ds| <= 1
  {
    var taken := s[k..k + |ds|];
    assert forall i :: 0 <= i < |taken| ==> taken[i] == s[k + i];
  }

  function PrefixBase(x: char): int { if IsB(x) then 2 else 16 }

  lemma PrefixStart(s: string, k: nat, base: int)
    requires PrefixAt(s, k) && base in {0, PrefixBase(s[k + 1])}
    ensures StartAt(s, k, base) == Digits(k + 2, PrefixBase(s[k + 1]))
  {
  }

  function Sign(neg: bool): string { if neg then "-" else "" }

  /** Blanks, and a minus or not, in front of something else. */
  lemma SignFound(pre: string, neg: bool, w: string, base: int)
    requires AllBlank(pre) && w != [] && !IsBlank(w[0]) && (!neg ==> w[0] != '-')
    ensures var s := pre + Sign(neg) + w;
            Parse(s, base) == ParseFrom(s, neg, StartAt(s, |pre + Sign(neg)|, base))
  {
    var rest := Sign(neg) + w;
    BlanksSkipped(pre, rest, 0);
    assert pre + Sign(neg) + w == pre + rest;
    assert (pre + rest)[|pre|] == rest[0];
  }

  /** What follows a number does not go on with a digit. */
  predicate EndsAt(rest: string, base: int) { rest == [] || DigitValue(rest[0]) >= base }

  lemma DigitsPlaced(front: string, ds: string, rest: string, base: int)
    requires AllDigits(ds, base) && EndsAt(rest, base)
    ensures DigitsAt(front + ds + rest, |front|, ds, base)
  {
    var s, k := front + ds + rest, |front|;
    assert s[k..k + |ds|] == ds;
    assert rest != [] ==> s[k + |ds|] == rest[0];
  }

  /** The text w looks like a number with a base prefix. */
  predicate Prefixed(w: string) { |w| >= 2 && w[0] == '0' && (IsB(w[1]) || IsX(w[1])) }

  /** Blanks and tabs, a minus or not, digits of the base, and something that is no digit: the digits are read as the
      number they denote, and the end is found, exactly when there is not a zero and then b, B, x or X. */
  lemma NumberIsRead(pre: string, neg: bool, ds: string, rest: string, base: int)
    requires forall i :: 0 <= i < |pre| ==> pre[i] == ' ' || pre[i] == '\t'
    requires (base == 0 || 2 <= base <= 36) && ds != []
    requires AllDigits(ds, BaseOf(base, ds)) && EndsAt(rest, BaseOf(base, ds))
    ensures var sign, w := if neg then "-" else "", ds + rest;
            Parse(pre + sign + w, base) == Parsed(true, neg, Number(ds, BaseOf(base, ds)), |pre + sign + ds|)
            <==> !(|w| >= 2 && w[0] == '0' && (w[1] == 'b' || w[1] == 'B' || w[1] == 'x' || w[1] == 'X'))
  {
    var front, w := pre + Sign(neg), ds + rest;
    assert w[0] == ds[0] && DigitValue(w[0]) < BaseOf(base, ds);
    SignFound(pre, neg, w, base);
    DigitsPlaced(front, ds, rest, BaseOf(base, ds));
    assert front + ds + rest == front + w;
    DigitsParsed(front + w, |front|, neg, ds, base);
    PrefixPlaced(front, w);
  }

  lemma PrefixPlaced(front: string, w: string)
    ensures PrefixAt(front + w, |front|) <==> Prefixed(w)
  {
  }

  lemma PrefixedPlaced(front: string, x: char, ds: string, rest: string, b: int)
    requires (IsB(x) || IsX(x)) && AllDigits(ds, b) && EndsAt(rest, b)
    ensures var s := front + (['0', x] + ds + rest);
            PrefixAt(s, |front|) && s[|front| + 1] == x && DigitsAt(s, |front| + 2, ds, b)
  {
    var w := ['0', x] + ds + rest;
    PrefixPlaced(front, w);
    assert (front + w)[|front| + 1] == w[1] == x;
    DigitsPlaced(front + ['0', x], ds, rest, b);
    assert front + ['0', x] + ds + rest == front + w;
  }

  lemma PrefixParsed(s: string, k: nat, neg: bool, ds: string, base: int, b: int)
    requires PrefixAt(s, k) && b == PrefixBase(s[k + 1]) && base in {0, b} && DigitsAt(s, k + 2, ds, b)
    ensures ParseFrom(s, neg, StartAt(s, k, base)) == Parsed(true, neg, Number(ds, b), k + 2 + |ds|)
  {
    PrefixStart(s, k, base);
    ReadFrom(s, neg, k + 2, ds, b);
  }

  /** With a base prefix that fits, the digits behind it are read in the base it stands for: 2 for 0b and 0B, 16 for
      0x and 0X. */
  lemma PrefixedIsRead(pre: string, neg: bool, x: char, ds: string, rest: string, base: int, b: int)
    requires forall i :: 0 <= i < |pre| ==> pre[i] == ' ' || pre[i] == '\t'
    requires (b == 2 && (x == 'b' || x == 'B')) || (b == 16 && (x == 'x' || x == 'X'))
    requires (base == 0 || base == b) && AllDigits(ds, b) && EndsAt(rest, b)
    ensures var front := pre + if neg then "-" else "";
            Parse(front + (['0', x] + ds + rest), base) == Parsed(true, neg, Number(ds, b), |front| + 2 + |ds|)
  {
    var front, w := pre + Sign(neg), ['0', x] + ds + rest;
    SignFound(pre, neg, w, base);
    PrefixedPlaced(front, x, ds, rest, b);
    PrefixParsed(front + w, |front|, neg, ds, base, b);
  }

  /** A prefix of another base is refused: nothing is read. */
  lemma PrefixRefused(pre: string, neg: bool, x: char, rest: string, base: int)
    requires forall i :: 0 <= i < |pre| ==> pre[i] == ' ' || pre[i] == '\t'
    requires x == 'b' || x == 'B' || x == 'x' || x == 'X'
    requires base !in {0, if x == 'b' || x == 'B' then 2 else 16}
    ensures Parse(pre + (if neg then "-" else "") + (['0', x] + rest), base) == Parsed(false, neg, 0, 0)
  {
    SignFound(pre, neg, ['0', x] + rest, base);
    PrefixPlaced(pre + Sign(neg), ['0', x] + rest);
  }

  /** Reading a number behind a prefix is right by ISO C11 exactly if the prefix is 0x or 0X and a digit follows: the
      standard knows no 0b, and there the number is 0 and ends behind the zero; as it does without a digit. */
  lemma PrefixedIsRight(pre: string, neg: bool, x: char, ds: string, rest: string, base: int, b: int)
    requires forall i :: 0 <= i < |pre| ==> pre[i] == ' ' || pre[i] == '\t'
    requires (b == 2 && (x == 'b' || x == 'B')) || (b == 16 && (x == 'x' || x == 'X'))
    requires (base == 0 || base == b) && AllDigits(ds, b) && EndsAt(rest, b)
    ensures var front, right := pre + (if neg then "-" else ""), b == 16 && ds != [];
            Parse(front + (['0', x] + ds + rest), base)
            == (if right then Parsed(true, neg, Number(ds, 16), |front| + 2 + |ds|)
                else Parsed(true, neg, 0, |front| + 1))
            <==> right
  {
    PrefixedIsRead(pre, neg, x, ds, rest, base, b);
  }

  // ----- strings that are not read as they should be

  /** Without a digit, nothing is read; but the end reported is behind the blanks and the sign, where it should be
      the start of the string. */
  lemma NoDigitRead(pre: string, neg: bool, rest: string, base: int)
    requires forall i :: 0 <= i < |pre| ==> pre[i] == ' ' || pre[i] == '\t'
    requires (base == 0 || 2 <= base <= 36) && EndsAt(rest, BaseOf(base, ""))
    requires rest != [] ==> rest[0] != ' ' && rest[0] != '\t' && (!neg ==> rest[0] != '-')
    ensures var p := Parse(pre + (if neg then "-" else "") + rest, base);
            p.value == 0 && (p.end == 0 <==> rest == [] || (pre == [] && !neg))
  {
    if rest == [] {
      NothingBehind(pre, neg, base);
    } else {
      var front := pre + Sign(neg);
      var s, k := front + rest, |front|;
      SignFound(pre, neg, rest, base);
      assert s[k] == rest[0];
      var b := BaseOf(base, "");
      CodeValueIsDigitValue(rest[0], b);
      assert StartAt(s, k, base) == Digits(k, b) && DigitsEnd(s, k, b) == k;
    }
  }

  lemma NothingBehind(pre: string, neg: bool, base: int)
    requires AllBlank(pre)
    ensures Parse(pre + Sign(neg) + [], base) == Parsed(false, neg, 0, 0)
  {
    BlanksSkipped(pre, Sign(neg), 0);
    assert pre + Sign(neg) + [] == pre + Sign(neg);
  }

  /** A plus is no sign here, and of the white space only blanks and tabs are skipped, but not newline, vertical tab,
      form feed and carriage return: numbers behind them are read as 0. */
  lemma NotSkipped(c: char, ds: string, base: int)
    requires (base == 0 || 2 <= base <= 36) && (c == '+' || Code('\n') <= Code(c) <= Code('\r'))
    ensures Parse([c] + ds, base).value == 0
  {
    NoDigitRead("", false, [c] + ds, base);
    assert "" + Sign(false) + ([c] + ds) == [c] + ds;
  }
}
