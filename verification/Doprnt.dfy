/** doprnt as a whole, for formats of literal text and integer conversions. A format is the characters before its
    NUL; the arguments are the 32-bit words that va_arg takes one after the other. */
module Doprnt {
  import opened Conversions
  import opened Digits
  import opened Machine
  import opened MemStream
  import Printers

  const UNLIMITED := -1
  const DEFAULT := Spec(false, ' ', '\0', false, 0)

  // ----- arguments

  function Word(args: seq<int>): int { if args == [] then 0 else args[0] % TWO32 }

  function Left(args: seq<int>): (r: seq<int>)
    ensures |r| <= |args|
  {
    if args == [] then [] else args[1..]
  }

  function AsInt(w: int): int { if w >= TWO31 then w - TWO32 else w }

  // ----- what stands between the % and the letter

  predicate IsFlag(c: char) { c == '-' || c == '+' || c == ' ' || c == '0' || c == '#' }

  function SetFlag(spec: Spec, c: char): Spec {
    match c
    case '-' => spec.(flushLeft := true)
    case '+' => spec.(spaceOrSign := '+')
    case ' ' => spec.(spaceOrSign := ' ')
    case '0' => spec.(pad := '0')
    case '#' => spec.(hash := true)
    case _ => spec
  }

  function Flags(s: string, spec: Spec): Spec {
    if s != [] && IsFlag(s[0]) then Flags(s[1..], SetFlag(spec, s[0])) else spec
  }

  function AfterFlags(s: string): (r: string)
    ensures |r| <= |s|
  {
    if s != [] && IsFlag(s[0]) then AfterFlags(s[1..]) else s
  }

  predicate IsDecimal(c: char) { '0' <= c <= '9' }

  function WidthFrom(s: string, width: int): int {
    if s != [] && IsDecimal(s[0]) then WidthFrom(s[1..], width * 10 + (Code(s[0]) - Code('0'))) else width
  }

  function AfterDecimals(s: string): (r: string)
    ensures |r| <= |s|
  {
    if s != [] && IsDecimal(s[0]) then AfterDecimals(s[1..]) else s
  }

  predicate Starts(s: string, c: char) { s != [] && s[0] == c }

  /** A field width of * is an argument; a negative one is the flag - and its magnitude. */
  function WithWidth(spec: Spec, s: string, args: seq<int>): Spec {
    if Starts(s, '*') then
      var w := AsInt(Word(args));
      if w < 0 then spec.(flushLeft := true, width := -w) else spec.(width := w)
    else spec.(width := WidthFrom(s, spec.width))
  }

  function AfterWidth(s: string): (r: string)
    ensures |r| <= |s|
  {
    if Starts(s, '*') then s[1..] else AfterDecimals(s)
  }

  function AfterPrecision(s: string): (r: string)
    ensures |r| <= |s|
  {
    if !Starts(s, '.') then s else if Starts(s[1..], '*') then s[2..] else AfterDecimals(s[1..])
  }

  /** A precision is an argument, or what atoi makes of the digits; a full stop alone is taken for none. */
  function PrecisionAt(s: string, args: seq<int>): int {
    if !Starts(s, '.') then UNLIMITED
    else if Starts(s[1..], '*') then AsInt(Word(args))
    else if s[1..] != [] && IsDecimal(s[1]) then Printers.Wrap(Printers.Decimal(s[1..]))
    else UNLIMITED
  }

  /** One l or two make no difference: the build has no long long. */
  function AfterLong(s: string): (r: string)
    ensures |r| <= |s|
  {
    if !Starts(s, 'l') then s else if Starts(s[1..], 'l') then s[2..] else s[1..]
  }

  /** A conversion: its flags and width, its precision, its letter, and what is left of the format and the arguments. */
  datatype Item = Item(spec: Spec, precision: int, letter: char, rest: string, args: seq<int>)

  /** The letter that stands for the conversion: capitals of most conversions mean the same, for a long. */
  function Lowered(c: char): char {
    if 'A' <= c <= 'Z' && c != 'S' && c != 'Q' && c != 'X' && c != 'E' && c != 'G' then (Code(c) + 32) as char else c
  }

  function ArgsAfterWidth(s: string, args: seq<int>): seq<int> {
    if Starts(AfterFlags(s), '*') then Left(args) else args
  }

  function ArgsAfterPrecision(s: string, args: seq<int>): seq<int> {
    var t := AfterWidth(AfterFlags(s));
    if Starts(t, '.') && Starts(t[1..], '*') then Left(ArgsAfterWidth(s, args)) else ArgsAfterWidth(s, args)
  }

  function LetterAt(s: string): (r: string)
    ensures |r| <= |s|
  {
    AfterLong(AfterPrecision(AfterWidth(AfterFlags(s))))
  }

  /** The conversion behind a %. */
  function ItemOf(s: string, args: seq<int>): (i: Item)
    requires LetterAt(s) != []
    ensures |i.rest| < |s|
  {
    Item(WithWidth(Flags(s, DEFAULT), AfterFlags(s), args),
         PrecisionAt(AfterWidth(AfterFlags(s)), ArgsAfterWidth(s, args)),
         Lowered(LetterAt(s)[0]), LetterAt(s)[1..], ArgsAfterPrecision(s, args))
  }

  // ----- what is printed

  predicate TakesWord(letter: char) {
    letter == 'd' || letter == 'i' || letter == 'u' || letter == 'o' || letter == 'x' || letter == 'X' || letter == 'p'
  }

  function ConversionOf(letter: char): Conversion {
    if letter == 'o' then O
    else if letter == 'x' || letter == 'p' then X(false)
    else if letter == 'X' then X(true)
    else U
  }

  /** What one conversion prints; letters that mean nothing print nothing. */
  function ItemText(i: Item): string {
    if i.letter == 'd' || i.letter == 'i' then SignedOutput(i.spec, AsInt(Word(i.args)))
    else if i.letter == 'p' then UnsignedOutput(i.spec.(hash := true), X(false), Word(i.args))
    else if TakesWord(i.letter) then UnsignedOutput(i.spec, ConversionOf(i.letter), Word(i.args))
    else if i.letter == '%' then "%"
    else ""
  }

  function ArgsBehind(i: Item): seq<int> { if TakesWord(i.letter) then Left(i.args) else i.args }

  /** No characters, strings or floating point as doprnt knows them, and no % without a letter. Letters that mean
      nothing to it are included. */
  predicate OnlyIntegers(s: string)
    decreases |s|
  {
    s == [] ||
    (if s[0] != '%' then OnlyIntegers(s[1..])
     else LetterAt(s[1..]) != []
          && Lowered(LetterAt(s[1..])[0]) !in {'c', 's', 'S', 'f', 'e', 'E', 'g', 'G'}
          && OnlyIntegers(LetterAt(s[1..])[1..]))
  }

  /** What a format prints. Each conversion starts from the default flags; nothing of the one before is left. */
  function Rendered(s: string, args: seq<int>): string
    requires OnlyIntegers(s)
    decreases |s|
  {
    if s == [] then ""
    else if s[0] != '%' then [s[0]] + Rendered(s[1..], args)
    else var i := ItemOf(s[1..], args); ItemText(i) + Rendered(i.rest, ArgsBehind(i))
  }

  // ----- the program

  method ReadFlags(f0: string, spec0: Spec) returns (f: string, spec: Spec)
    ensures spec == Flags(f0, spec0) && f == AfterFlags(f0)
  {
    f, spec := f0, spec0;
    while f != [] && IsFlag(f[0])
      invariant Flags(f0, spec0) == Flags(f, spec) && AfterFlags(f0) == AfterFlags(f)
      decreases |f|
    {
      spec := SetFlag(spec, f[0]);
      f := f[1..];
    }
  }

  method SkipDecimals(f0: string) returns (f: string)
    ensures f == AfterDecimals(f0)
  {
    f := f0;
    while f != [] && IsDecimal(f[0])
      invariant AfterDecimals(f0) == AfterDecimals(f)
      decreases |f|
    {
      f := f[1..];
    }
  }

  method ReadWidth(f0: string, spec0: Spec, ap0: seq<int>) returns (f: string, spec: Spec, ap: seq<int>)
    ensures spec == WithWidth(spec0, f0, ap0) && f == AfterWidth(f0)
    ensures ap == if Starts(f0, '*') then Left(ap0) else ap0
  {
    f, spec, ap := f0, spec0, ap0;
    if Starts(f, '*') {
      spec := spec.(width := AsInt(Word(ap)));
      ap := Left(ap);
      if spec.width < 0 {
        spec := spec.(flushLeft := true, width := -spec.width);
      }
      f := f[1..];
    } else {
      while f != [] && IsDecimal(f[0])
        invariant AfterDecimals(f0) == AfterDecimals(f)
        invariant spec == spec0.(width := spec.width) && WidthFrom(f0, spec0.width) == WidthFrom(f, spec.width)
        decreases |f|
      {
        spec := spec.(width := spec.width * 10 + (Code(f[0]) - Code('0')));
        f := f[1..];
      }
    }
  }

  /** The precision is read, and has no effect on integers. */
  method ReadPrecision(f0: string, ap0: seq<int>) returns (f: string, ap: seq<int>, precision: int)
    ensures f == AfterPrecision(f0) && precision == PrecisionAt(f0, ap0)
    ensures ap == if Starts(f0, '.') && Starts(f0[1..], '*') then Left(ap0) else ap0
  {
    f, ap, precision := f0, ap0, UNLIMITED;
    if Starts(f, '.') {
      f := f[1..];
      if Starts(f, '*') {
        precision := AsInt(Word(ap));
        ap := Left(ap);
        f := f[1..];
      } else if f != [] && IsDecimal(f[0]) {
        precision := Printers.Atoi(f);
        f := SkipDecimals(f);
      }
    }
  }

  method ReadItem(f0: string, spec0: Spec, ap0: seq<int>) returns (i: Item)
    requires spec0 == DEFAULT && LetterAt(f0) != []
    ensures i == ItemOf(f0, ap0)
  {
    var f, spec, ap, precision;
    f, spec := ReadFlags(f0, spec0);
    f, spec, ap := ReadWidth(f, spec, ap0);
    f, ap, precision := ReadPrecision(f, ap);
    if Starts(f, 'l') {
      f := f[1..];
      if Starts(f, 'l') { f := f[1..]; }
    }
    return Item(spec, precision, Lowered(f[0]), f[1..], ap);
  }

  method EmitItem(stream: Stream, i: Item) returns (count: nat)
    requires stream.Valid()
    modifies stream, stream.str
    ensures stream.Valid() && stream.emitted == old(stream.emitted) + ItemText(i) && count == |ItemText(i)|
  {
    var w := Word(i.args);
    if i.letter == 'd' || i.letter == 'i' {
      count := EmitSigned(stream, i.spec, AsInt(w));
    } else if i.letter == 'p' {
      count := EmitUnsigned(stream, i.spec.(hash := true), X(false), w);
    } else if TakesWord(i.letter) {
      count := EmitUnsigned(stream, i.spec, ConversionOf(i.letter), w);
    } else if i.letter == '%' {
      count := stream.AddChar('%');
    } else {
      count := 0;
      assert stream.emitted + "" == stream.emitted;
    }
  }

  lemma RenderedStep(done: string, text: string, rest: string)
    ensures done + (text + rest) == done + text + rest && |done + text| == |done| + |text|
  {
  }

  /** doprnt */
  method Doprnt(stream: Stream, sfmt: string, args: seq<int>) returns (count: nat)
    requires stream.Valid() && OnlyIntegers(sfmt)
    modifies stream, stream.str
    ensures stream.Valid() && stream.emitted == old(stream.emitted) + Rendered(sfmt, args)
            && count == |Rendered(sfmt, args)|
  {
    ghost var start, text, done := stream.emitted, Rendered(sfmt, args), "";
    var f, ap, spec := sfmt, args, DEFAULT;
    count := 0;
    assert start + done == start && done + text == text;
    while f != []
      invariant stream.Valid() && spec == DEFAULT && OnlyIntegers(f)
      invariant text == done + Rendered(f, ap) && stream.emitted == start + done && count == |done|
      decreases |f|
    {
      ghost var piece;
      var k;
      if f[0] != '%' {
        piece := [f[0]];
        k := stream.AddChar(f[0]);
        RenderedStep(done, piece, Rendered(f[1..], ap));
        f := f[1..];
      } else {
        var i := ReadItem(f[1..], spec, ap);
        spec := i.spec;
        piece := ItemText(i);
        k := EmitItem(stream, i);
        RenderedStep(done, piece, Rendered(i.rest, ArgsBehind(i)));
        f, ap := i.rest, ArgsBehind(i);
        spec := DEFAULT;
      }
      count := count + k;
      RenderedStep(start, done, piece);
      done := done + piece;
    }
    assert done + "" == done;
  }

  /** vsnprintf: as much of what the format prints as fits, and its whole length. */
  method Vsnprintf(str: array<char>, size: nat, fmt: string, va: seq<int>) returns (r: nat)
    requires size <= str.Length && OnlyIntegers(fmt)
    modifies str
    ensures r == |Rendered(fmt, va)| && Printed(str[..], old(str[..]), size, Rendered(fmt, va))
    ensures size == 0 ==> str[..] == old(str[..])
    ensures size > 0 ==>
              var n := if r < size then r else size - 1;
              str[..n] == Rendered(fmt, va)[..n] && str[n] == '\0' && str[n + 1..] == old(str[n + 1..])
  {
    var stream := new Stream(str, size);
    var count := Doprnt(stream, fmt, va);
    assert stream.emitted == Rendered(fmt, va);
    r := stream.Finish();
  }
}
