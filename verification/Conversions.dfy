/** The integer conversions of doprnt. */
module Conversions {
  import opened Digits
  import opened Machine
  import opened MemStream
  import Printers
  import Strtoul

  const BUFFER_SIZE := 128

  /** The flags and the field width of a conversion; '\0' is no sign character. */
  datatype Spec = Spec(flushLeft: bool, pad: char, spaceOrSign: char, hash: bool, width: int)

  predicate Proper(spec: Spec) {
    && (spec.pad == ' ' || spec.pad == '0')
    && (spec.spaceOrSign == '\0' || spec.spaceOrSign == ' ' || spec.spaceOrSign == '+')
  }

  predicate PadsWithZeros(spec: Spec) { !spec.flushLeft && spec.pad == '0' }

  // ----- what a conversion should print, by section 7.21.6.1 of ISO C11

  function SignText(neg: bool, spaceOrSign: char): string {
    if neg then "-" else if spaceOrSign != '\0' then [spaceOrSign] else ""
  }

  /** A prefix (a sign, or 0x) and digits, padded to the width: behind them, between them, or in front of them. */
  function Padded(spec: Spec, prefix: string, digits: string): string {
    var room := spec.width - |prefix| - |digits|;
    if spec.flushLeft then prefix + digits + Repeat(' ', room)
    else if spec.pad == '0' then prefix + Repeat('0', room) + digits
    else Repeat(' ', room) + prefix + digits
  }

  /** Padding, character by character: as many as the width asks for, and all of them spaces behind what is flushed
      left, zeros between prefix and digits, or spaces in front of both. */
  lemma PaddedLayout(spec: Spec, prefix: string, digits: string)
    ensures var out, p, n := Padded(spec, prefix, digits), |prefix|, |prefix| + |digits|;
            var m := |out|;
            && m == (if n < spec.width then spec.width else n)
            && (spec.flushLeft ==>
                  && out[..p] == prefix && out[p..n] == digits
                  && forall i :: n <= i < m ==> out[i] == ' ')
            && (!spec.flushLeft && spec.pad == '0' ==>
                  && out[..p] == prefix && out[m - |digits|..] == digits
                  && forall i :: p <= i < m - |digits| ==> out[i] == '0')
            && (!spec.flushLeft && spec.pad != '0' ==>
                  && out[m - n..m - |digits|] == prefix && out[m - |digits|..] == digits
                  && forall i :: 0 <= i < m - n ==> out[i] == ' ')
  {
  }

  lemma PaddedLength(spec: Spec, prefix: string, digits: string)
    ensures var n := |prefix| + |digits|; |Padded(spec, prefix, digits)| == if n < spec.width then spec.width else n
  {
  }

  function Magnitude(v: int): nat { if v < 0 then -v else v }

  function SignedText(spec: Spec, v: int): string {
    Padded(spec, SignText(v < 0, spec.spaceOrSign), DigitsOf(Magnitude(v), 10, Lower))
  }

  datatype Conversion = U | O | X(upper: bool)

  function Base(f: Conversion): (b: int)
    ensures 2 <= b <= 16
  {
    match f case U => 10 case O => 8 case X(_) => 16
  }

  function Table(f: Conversion): Numerals { if f == X(true) then Upper else Lower }

  function UnsignedDigits(f: Conversion, v: nat): string { DigitsOf(v, Base(f), Table(f)) }

  /** With '#', octal numbers start with 0, and hexadecimal ones other than 0 with 0x or 0X. */
  function UnsignedTextOf(spec: Spec, f: Conversion, zero: bool, ds: string): string {
    if spec.hash && f == O && !zero then Padded(spec, "", "0" + ds)
    else if spec.hash && f.X? && !zero then Padded(spec, if f.upper then "0X" else "0x", ds)
    else Padded(spec, "", ds)
  }

  function UnsignedText(spec: Spec, f: Conversion, v: nat): string {
    UnsignedTextOf(spec, f, v == 0, UnsignedDigits(f, v))
  }

  // ----- d and i

  /** What is made in the buffer: the digits, and the sign if it does not have to go in front of zeros. */
  function SignedBody(spec: Spec, neg: bool, ds: string): string {
    if spec.flushLeft || spec.pad != '0' then SignText(neg, spec.spaceOrSign) + ds else ds
  }

  function SignedOutputOf(spec: Spec, neg: bool, ds: string): string {
    var body := SignedBody(spec, neg, ds);
    if spec.flushLeft then body + Repeat(' ', spec.width - |body|)
    else if neg && spec.pad == '0' then "-" + Repeat('0', spec.width - |body| - 1) + body
    else Repeat(spec.pad, spec.width - |body|) + body
  }

  function SignedOutput(spec: Spec, v: int): string { SignedOutputOf(spec, v < 0, DigitsOf(Magnitude(v), 10, Lower)) }

  /** The body, backwards. */
  method MakeSigned(buf: array<char>, spec: Spec, longval: int) returns (n: nat)
    requires -TWO31 <= longval < TWO31 && buf.Length >= BUFFER_SIZE
    modifies buf
    ensures var body := SignedBody(spec, longval < 0, DigitsOf(Magnitude(longval), 10, Lower));
            n == |body| <= buf.Length && Reversed(buf[..n]) == body
  {
    var negative := longval < 0;
    var ulongval := if negative then -longval else longval;
    n := Printers.DigitsBackwards(buf, ulongval, 10, Lower);
    if spec.flushLeft || spec.pad != '0' {
      if negative {
        Printers.Append(buf, n, '-');
        n := n + 1;
      } else if spec.spaceOrSign != '\0' {
        Printers.Append(buf, n, spec.spaceOrSign);
        n := n + 1;
      }
    }
  }

  /** The buffer, backwards, with padding in front of it or spaces behind it. */
  method EmitBuffer(stream: Stream, buf: array<char>, n: nat, spec: Spec, room: int, ghost body: string)
    returns (count: nat)
    requires stream.Valid() && buf != stream.str && n <= buf.Length && Reversed(buf[..n]) == body
    modifies stream, stream.str
    ensures stream.Valid()
    ensures var out := if spec.flushLeft then body + Repeat(' ', room) else Repeat(spec.pad, room) + body;
            stream.emitted == old(stream.emitted) + out && count == |out|
  {
    ghost var start := stream.emitted;
    count := 0;
    if !spec.flushLeft {
      count := stream.AddMany(spec.pad, room);
    }
    var k := stream.AddBackwards(buf, n, body);
    count := count + k;
    if spec.flushLeft {
      k := stream.AddMany(' ', room);
      count := count + k;
      assert start + body + Repeat(' ', room) == start + (body + Repeat(' ', room));
    } else {
      assert start + Repeat(spec.pad, room) + body == start + (Repeat(spec.pad, room) + body);
    }
  }

  method EmitSigned(stream: Stream, spec: Spec, longval: int) returns (count: nat)
    requires stream.Valid() && -TWO31 <= longval < TWO31
    modifies stream, stream.str
    ensures stream.Valid() && count == |SignedOutput(spec, longval)|
    ensures stream.emitted == old(stream.emitted) + SignedOutput(spec, longval)
  {
    var buf := new char[BUFFER_SIZE];
    var n := MakeSigned(buf, spec, longval);
    ghost var body := SignedBody(spec, longval < 0, DigitsOf(Magnitude(longval), 10, Lower));
    if !spec.flushLeft && longval < 0 && spec.pad == '0' {
      ghost var start := stream.emitted;
      var k := stream.AddChar('-');
      count := EmitBuffer(stream, buf, n, spec, spec.width - n - 1, body);
      count := count + k;
      assert start + "-" + (Repeat('0', spec.width - n - 1) + body)
             == start + ("-" + Repeat('0', spec.width - n - 1) + body);
    } else {
      count := EmitBuffer(stream, buf, n, spec, spec.width - n, body);
    }
  }

  lemma Associate(a: string, b: string, c: string)
    ensures a + (b + c) == a + b + c
  {
  }

  /** What is printed is what should be, except for a plus or a space that zeros are put in the place of. */
  lemma SignedIsRight(spec: Spec, v: int)
    requires Proper(spec)
    ensures SignedOutput(spec, v) == SignedText(spec, v)
            <==> spec.flushLeft || spec.pad != '0' || v < 0 || spec.spaceOrSign == '\0'
  {
    var ds := DigitsOf(Magnitude(v), 10, Lower);
    DigitsDenote(Magnitude(v), 10, Lower);
    assert DigitValue(ds[0]) < 10;
    SignedDigitsAreRight(spec, v < 0, ds);
  }

  /** What is printed in every case: a sign is left out where zeros take its place. */
  lemma SignedOutputIs(spec: Spec, v: int)
    requires Proper(spec)
    ensures var sign := if v < 0 then "-"
                        else if spec.spaceOrSign == '\0' || (!spec.flushLeft && spec.pad == '0') then ""
                        else [spec.spaceOrSign];
            SignedOutput(spec, v) == Padded(spec, sign, DigitsOf(if v < 0 then -v else v, 10, Lower))
  {
    var ds := DigitsOf(Magnitude(v), 10, Lower);
    DigitsDenote(Magnitude(v), 10, Lower);
    assert DigitValue(ds[0]) < 10;
    SignedDigitsAreRight(spec, v < 0, ds);
    if v >= 0 && !spec.flushLeft && spec.pad == '0' { ZerosForSign(spec, ' ', ds); }
  }

  lemma SignedDigitsAreRight(spec: Spec, neg: bool, ds: string)
    requires Proper(spec) && ds != [] && DigitValue(ds[0]) < 10
    ensures SignedOutputOf(spec, neg, ds) == Padded(spec, SignText(neg, spec.spaceOrSign), ds)
            <==> spec.flushLeft || spec.pad != '0' || neg || spec.spaceOrSign == '\0'
  {
    var sign := SignText(neg, spec.spaceOrSign);
    if spec.flushLeft || spec.pad != '0' {
      Associate(Repeat(' ', spec.width - |sign| - |ds|), sign, ds);
    } else {
      ZerosForSign(spec, spec.spaceOrSign, ds);
    }
  }

  /** A sign is not where the zeros, or the first digit, are. */
  lemma ZerosForSign(spec: Spec, c: char, ds: string)
    requires ds != [] && DigitValue(ds[0]) < 10 && spec.pad == '0' && !spec.flushLeft
    ensures DigitValue(c) >= 10 ==> Repeat('0', spec.width - |ds|) + ds != Padded(spec, [c], ds)
    ensures Repeat('0', spec.width - |ds|) + ds == Padded(spec, "", ds)
  {
    var out := Repeat('0', spec.width - |ds|) + ds;
    assert out[0] == '0' || out[0] == ds[0];
    assert Padded(spec, [c], ds)[0] == c;
    assert "" + Repeat('0', spec.width - |ds|) == Repeat('0', spec.width - |ds|);
  }

  // ----- u, o, x and X

  /** What is made in the buffer. */
  function UnsignedBody(hash: bool, f: Conversion, ds: string): string {
    if !hash || f == U then ds else if f == O then "0" + ds else "0x" + ds
  }

  function UnsignedOutputOf(spec: Spec, f: Conversion, ds: string): string {
    var body := UnsignedBody(spec.hash, f, ds);
    var room := spec.width - |body|;
    if spec.flushLeft then body + Repeat(' ', room) else Repeat(spec.pad, room) + body
  }

  function UnsignedOutput(spec: Spec, f: Conversion, v: nat): string {
    UnsignedOutputOf(spec, f, UnsignedDigits(f, v))
  }

  method MakeUnsigned(buf: array<char>, hash: bool, f: Conversion, ulongval: nat) returns (n: nat)
    requires ulongval < TWO32 && buf.Length >= BUFFER_SIZE
    modifies buf
    ensures var body := UnsignedBody(hash, f, UnsignedDigits(f, ulongval));
            n == |body| <= buf.Length && Reversed(buf[..n]) == body
  {
    n := Printers.DigitsBackwards(buf, ulongval, Base(f), Table(f));
    n := AppendPrefix(buf, n, hash, f, UnsignedDigits(f, ulongval));
  }

  method AppendPrefix(buf: array<char>, digits: nat, hash: bool, f: Conversion, ghost ds: string) returns (n: nat)
    requires digits == |ds| && digits + 2 <= buf.Length && Reversed(buf[..digits]) == ds
    modifies buf
    ensures n == |UnsignedBody(hash, f, ds)| <= buf.Length && Reversed(buf[..n]) == UnsignedBody(hash, f, ds)
  {
    n := digits;
    if hash && f.X? {
      Printers.Append(buf, n, 'x');
      n := n + 1;
    }
    if hash && f != U {
      Printers.Append(buf, n, '0');
      n := n + 1;
    }
  }

  method EmitUnsigned(stream: Stream, spec: Spec, f: Conversion, ulongval: nat) returns (count: nat)
    requires stream.Valid() && ulongval < TWO32
    modifies stream, stream.str
    ensures stream.Valid() && count == |UnsignedOutput(spec, f, ulongval)|
    ensures stream.emitted == old(stream.emitted) + UnsignedOutput(spec, f, ulongval)
  {
    var buf := new char[BUFFER_SIZE];
    var n := MakeUnsigned(buf, spec.hash, f, ulongval);
    ghost var body := UnsignedBody(spec.hash, f, UnsignedDigits(f, ulongval));
    count := EmitBuffer(stream, buf, n, spec, spec.width - n, body);
  }

  /** What is printed is what should be, exactly when there is no '#', or when the prefix is as it should be: for
      octal numbers other than 0, or 0 with zeros in front anyway; for x, and not X, and numbers other than 0, if the
      prefix need not go in front of zeros. */
  lemma UnsignedIsRight(spec: Spec, f: Conversion, v: nat)
    requires Proper(spec)
    ensures UnsignedOutput(spec, f, v) == UnsignedText(spec, f, v)
            <==> PrefixIsRight(spec, f, v == 0, |UnsignedDigits(f, v)|)
  {
    DigitsDenote(v, Base(f), Table(f));
    NoLeadingZero(v, Base(f), Table(f));
    UnsignedDigitsAreRight(spec, f, v == 0, UnsignedDigits(f, v));
  }

  predicate PrefixIsRight(spec: Spec, f: Conversion, zero: bool, n: nat) {
    var zeros := PadsWithZeros(spec);
    || !spec.hash || f == U
    || (f == O && (!zero || (zeros && spec.width >= 2)))
    || (f == X(false) && !zero && (!zeros || spec.width <= 2 + n))
  }

  /** What is printed in every case: the prefix, always 0 or 0x, is taken for digits. */
  lemma UnsignedOutputIs(spec: Spec, f: Conversion, v: nat)
    requires Proper(spec)
    ensures var prefix := if !spec.hash || f == U then "" else if f == O then "0" else "0x";
            var ds := match f
                      case U => DigitsOf(v, 10, Lower)
                      case O => DigitsOf(v, 8, Lower)
                      case X(upper) => DigitsOf(v, 16, if upper then Upper else Lower);
            UnsignedOutput(spec, f, v) == Padded(spec, "", prefix + ds)
  {
    PrefixedOutput(spec, f, UnsignedDigits(f, v));
  }

  lemma PrefixedOutput(spec: Spec, f: Conversion, ds: string)
    requires Proper(spec)
    ensures var prefix := if !spec.hash || f == U then "" else if f == O then "0" else "0x";
            UnsignedOutputOf(spec, f, ds) == Padded(spec, "", prefix + ds)
  {
    OutputIsPadded(spec, f, ds);
    assert "" + ds == ds;
  }

  lemma UnsignedDigitsAreRight(spec: Spec, f: Conversion, zero: bool, ds: string)
    requires Proper(spec) && ds != [] && AllDigits(ds, 16) && (zero ==> ds == "0")
    ensures UnsignedOutputOf(spec, f, ds) == UnsignedTextOf(spec, f, zero, ds) <==> PrefixIsRight(spec, f, zero, |ds|)
  {
    OutputIsPadded(spec, f, ds);
    if spec.hash && f == O {
      OctalPrefix(spec, zero, ds);
    } else if spec.hash && f.X? {
      HexPrefix(spec, f.upper, !zero, ds);
    }
  }

  lemma OutputIsPadded(spec: Spec, f: Conversion, ds: string)
    requires Proper(spec)
    ensures UnsignedOutputOf(spec, f, ds) == Padded(spec, "", UnsignedBody(spec.hash, f, ds))
  {
    PlainPadding(spec, UnsignedBody(spec.hash, f, ds));
  }

  lemma OctalPrefix(spec: Spec, zero: bool, ds: string)
    requires Proper(spec) && (zero ==> ds == "0")
    ensures Padded(spec, "", "0" + ds) == Padded(spec, "", if zero then ds else "0" + ds)
            <==> !zero || (!spec.flushLeft && spec.pad == '0' && spec.width >= 2)
  {
    if zero {
      assert "0" + ds == "00";
      OctalZero(spec);
    }
  }

  lemma OctalZero(spec: Spec)
    requires Proper(spec)
    ensures Padded(spec, "", "00") == Padded(spec, "", "0") <==> !spec.flushLeft && spec.pad == '0' && spec.width >= 2
  {
    var a, b := Padded(spec, "", "00"), Padded(spec, "", "0");
    if spec.flushLeft {
      assert spec.width >= 2 ==> a[1] != b[1];
    } else if spec.pad == ' ' {
      assert spec.width >= 2 ==> a[spec.width - 2] != b[spec.width - 2];
    } else if spec.width >= 2 {
      assert forall i :: 0 <= i < spec.width ==> a[i] == '0' == b[i];
    }
  }

  /** Padding adds no x. */
  lemma NoXAdded(spec: Spec, prefix: string, ds: string)
    requires Proper(spec) && AllDigits(ds, 16)
    ensures 'x' in Padded(spec, prefix, ds) <==> 'x' in prefix
  {
    forall i | 0 <= i < |ds| ensures ds[i] != 'x' {
      assert DigitValue(ds[i]) < 16;
    }
  }

  lemma HexPrefix(spec: Spec, upper: bool, hasPrefix: bool, ds: string)
    requires Proper(spec) && ds != [] && AllDigits(ds, 16)
    ensures (Padded(spec, "", "0x" + ds) == Padded(spec, if !hasPrefix then "" else if upper then "0X" else "0x", ds))
            <==> !upper && hasPrefix && (spec.flushLeft || spec.pad != '0' || spec.width <= 2 + |ds|)
  {
    if upper || !hasPrefix {
      assert ("0x" + ds)[1] == 'x';
      PaddedHas(spec, "0x" + ds, 1);
      NoXAdded(spec, if !hasPrefix then "" else "0X", ds);
    } else {
      LowerPrefix(spec, ds);
    }
  }

  lemma LowerPrefix(spec: Spec, ds: string)
    requires Proper(spec) && ds != []
    ensures Padded(spec, "", "0x" + ds) == Padded(spec, "0x", ds)
            <==> spec.flushLeft || spec.pad != '0' || spec.width <= 2 + |ds|
  {
    var room := spec.width - 2 - |ds|;
    if spec.flushLeft {
    } else if spec.pad == ' ' {
      Associate(Repeat(' ', room), "0x", ds);
    } else if room > 0 {
      assert Padded(spec, "", "0x" + ds)[1] == '0' && Padded(spec, "0x", ds)[1] == 'x';
    } else {
      assert Repeat('0', room) == [];
    }
  }

  lemma PaddedHas(spec: Spec, body: string, i: nat)
    requires i < |body|
    ensures body[i] in Padded(spec, "", body)
  {
    var out, room := Padded(spec, "", body), spec.width - |body|;
    var k := if spec.flushLeft || room <= 0 then i else room + i;
    assert out[k] == body[i];
  }

  /** With nothing in front, all three ways of padding are what the code does. */
  lemma PlainPadding(spec: Spec, body: string)
    requires Proper(spec)
    ensures (if spec.flushLeft then body + Repeat(' ', spec.width - |body|)
             else Repeat(spec.pad, spec.width - |body|) + body)
         == Padded(spec, "", body)
  {
    assert "" + body == body;
    assert "" + Repeat('0', spec.width - |body|) == Repeat('0', spec.width - |body|);
    assert Repeat(' ', spec.width - |body|) + "" == Repeat(' ', spec.width - |body|);
  }

  // ----- how long it is

  /** The characters that are printed in front of the digits. */
  function PrefixLength(spec: Spec, v: int): nat {
    if v < 0 || (spec.spaceOrSign != '\0' && !PadsWithZeros(spec)) then 1 else 0
  }

  /** What is printed is as long as the number, its sign and its prefix, or as the width, if that is greater. */
  lemma OutputLengths(spec: Spec, v: int, f: Conversion, u: nat)
    requires Proper(spec)
    ensures var n := |DigitsOf(Magnitude(v), 10, Lower)| + PrefixLength(spec, v);
            |SignedOutput(spec, v)| == if n < spec.width then spec.width else n
    ensures var n := |UnsignedDigits(f, u)| + (if !spec.hash || f == U then 0 else if f == O then 1 else 2);
            |UnsignedOutput(spec, f, u)| == if n < spec.width then spec.width else n
  {
  }

  // ----- reading back what is printed

  lemma {:induction false} ZerosInFront(n: int, ds: string, base: int)
    requires base >= 2 && AllDigits(ds, base)
    ensures AllDigits(Repeat('0', n) + ds, base) && Number(Repeat('0', n) + ds, base) == Number(ds, base)
    decreases n
  {
    if n > 0 {
      ZerosInFront(n - 1, "0" + ds, base);
      LeadingZero(ds, base);
      Associate(Repeat('0', n - 1), "0", ds);
    } else {
      assert Repeat('0', n) + ds == ds;
    }
  }

  predicate IsReadAs(s: string, base: int, neg: bool, n: int) {
    var p := Strtoul.Parse(s, base); p.ok && p.neg == neg && p.value == n
  }

  lemma NoBlanks(sign: string, ds: string, rest: string)
    ensures "" + sign + ds + rest == sign + ds + rest
  {
    assert "" + sign == sign;
  }

  lemma NothingBehind(s: string)
    ensures s + "" == s
  {
  }

  /** A field is read as its number, unless it looks like a base prefix: then strtoul refuses it. */
  lemma FieldIsRead(pre: string, neg: bool, ds: string, rest: string, base: int)
    requires 2 <= base <= 36 && Strtoul.AllBlank(pre) && ds != [] && AllDigits(ds, base) && Strtoul.AllBlank(rest)
    requires Strtoul.Prefixed(ds + rest) ==> |ds| >= 2
    ensures IsReadAs(pre + Strtoul.Sign(neg) + ds + rest, base, neg, Number(ds, base)) <==> !Strtoul.Prefixed(ds + rest)
  {
    Associate(pre + Strtoul.Sign(neg), ds, rest);
    assert Strtoul.EndsAt(rest, base);
    if Strtoul.Prefixed(ds + rest) {
      Refused(pre, neg, ds, rest, base);
    } else {
      Strtoul.NumberIsRead(pre, neg, ds, rest, base);
    }
  }

  lemma Refused(pre: string, neg: bool, ds: string, rest: string, base: int)
    requires 2 <= base <= 36 && Strtoul.AllBlank(pre) && |ds| >= 2 && AllDigits(ds, base) && Strtoul.EndsAt(rest, base)
    requires Strtoul.Prefixed(ds + rest)
    ensures !Strtoul.Parse(pre + Strtoul.Sign(neg) + (ds + rest), base).ok
  {
    var front, w := pre + Strtoul.Sign(neg), ds + rest;
    Strtoul.SignFound(pre, neg, w, base);
    Strtoul.DigitsPlaced(front, ds, rest, base);
    assert front + ds + rest == front + w;
    Strtoul.PrefixPlaced(front, w);
    Strtoul.PrefixMisread(front + w, |front|, ds, base);
  }

  /** A padded number is read, unless padding zeros make a prefix of it. */
  lemma PaddedIsRead(spec: Spec, neg: bool, ds: string, base: int)
    requires Proper(spec) && 2 <= base <= 36 && ds != [] && AllDigits(ds, base) && (ds[0] == '0' ==> |ds| == 1)
    ensures IsReadAs(Padded(spec, Strtoul.Sign(neg), ds), base, neg, Number(ds, base))
            <==> !(PadsWithZeros(spec) && spec.width == |Strtoul.Sign(neg)| + |ds| + 1 && LooksLikeLetter(ds[0]))
  {
    var sign := Strtoul.Sign(neg);
    var room := spec.width - |sign| - |ds|;
    if spec.flushLeft {
      FieldIsRead("", neg, ds, Repeat(' ', room), base);
      NoBlanks(sign, ds, Repeat(' ', room));
    } else if spec.pad == '0' {
      ZerosRead(neg, ds, room, base);
    } else {
      FieldIsRead(Repeat(' ', room), neg, ds, "", base);
      NothingBehind(Repeat(' ', room) + sign + ds);
      NothingBehind(ds);
    }
  }

  /** The letters of the base prefixes. */
  predicate LooksLikeLetter(c: char) { Strtoul.IsB(c) || Strtoul.IsX(c) }

  lemma ZerosRead(neg: bool, ds: string, room: int, base: int)
    requires 2 <= base <= 36 && ds != [] && AllDigits(ds, base) && (ds[0] == '0' ==> |ds| == 1)
    ensures IsReadAs(Strtoul.Sign(neg) + Repeat('0', room) + ds, base, neg, Number(ds, base))
            <==> !(room == 1 && LooksLikeLetter(ds[0]))
  {
    ZerosInFront(room, ds, base);
    var sign, zs := Strtoul.Sign(neg), Repeat('0', room) + ds;
    NothingBehind(zs);
    ZerosPrefixed(room, ds);
    FieldIsRead("", neg, zs, "", base);
    NoBlanks(sign, zs, "");
    NothingBehind(sign + zs);
    Associate(sign, Repeat('0', room), ds);
  }

  lemma ZerosPrefixed(room: int, ds: string)
    requires ds != [] && (ds[0] == '0' ==> |ds| == 1)
    ensures Strtoul.Prefixed(Repeat('0', room) + ds) <==> room == 1 && LooksLikeLetter(ds[0])
  {
    var w := Repeat('0', room) + ds;
    if room <= 0 { assert w == ds; }
  }

  /** Without a plus or a space, what %d prints is read back as the number it was given, LONG_MIN included,
      whatever the width and the padding. */
  lemma PrintedIsRead(spec: Spec, v: int)
    requires Proper(spec) && spec.spaceOrSign == '\0'
    ensures var p := Strtoul.Parse(SignedOutput(spec, v), 10); p.ok && Strtoul.Signed(p) == v
  {
    SignedIsRight(spec, v);
    var ds := DigitsOf(Magnitude(v), 10, Lower);
    DigitsDenote(Magnitude(v), 10, Lower);
    NoLeadingZero(Magnitude(v), 10, Lower);
    assert DigitValue(ds[0]) < 10;
    PaddedIsRead(spec, v < 0, ds, 10);
  }

  /** Without '#', what %u, %o, %x and %X print is read back in its base; except for a hexadecimal number that starts
      with b and has one zero in front of it: strtoul takes that for a binary prefix, and refuses it. */
  lemma UnsignedIsRead(spec: Spec, f: Conversion, v: nat)
    requires Proper(spec) && !spec.hash
    ensures var ds := UnsignedDigits(f, v);
            IsReadAs(UnsignedOutput(spec, f, v), Base(f), false, v)
            <==> !(PadsWithZeros(spec) && spec.width == |ds| + 1 && Strtoul.IsB(ds[0]))
  {
    var ds := UnsignedDigits(f, v);
    DigitsDenote(v, Base(f), Table(f));
    NoLeadingZero(v, Base(f), Table(f));
    assert DigitValue(ds[0]) < Base(f);
    OutputIsPadded(spec, f, ds);
    PaddedIsRead(spec, false, ds, Base(f));
  }
}
