/** doprnt against ISO C11: exactly when a conversion, and a format, prints what it should. */
module Conformance {
  import opened Conversions
  import opened Digits
  import opened Doprnt
  import opened IsoFormat
  import opened IsoText
  import opened Machine
  import opened MemStream
  import opened TextValue
  import opened TextWeight
  import Printers

  // ----- flags, width and precision

  lemma {:induction false} SkippedFlags(s: string)
    ensures AfterFlags(s) == WidthText(s)
  {
    if s != [] && IsFlag(s[0]) {
      SkippedFlags(s[1..]);
      assert Behind(s, FlagsIn(s)) == Behind(s[1..], FlagsIn(s[1..]));
    }
  }

  lemma {:induction false} SkippedDecimals(s: string)
    ensures AfterDecimals(s) == Behind(s, DecimalsIn(s))
  {
    if s != [] && IsDecimal(s[0]) {
      SkippedDecimals(s[1..]);
      assert Behind(s, DecimalsIn(s)) == Behind(s[1..], DecimalsIn(s[1..]));
    }
  }

  /** Flags, width and precision end where they should. */
  lemma PartsAreFound(s: string)
    ensures AfterFlags(s) == WidthText(s) && AfterWidth(AfterFlags(s)) == PrecisionText(s)
    ensures AfterPrecision(AfterWidth(AfterFlags(s))) == TailAt(s)
  {
    SkippedFlags(s);
    SkippedDecimals(WidthText(s));
    PrecisionIsFound(s, PrecisionText(s));
  }

  lemma PrecisionIsFound(s: string, t: string)
    requires t == PrecisionText(s)
    ensures AfterPrecision(t) == TailAt(s)
  {
    if t != [] { SkippedDecimals(t[1..]); }
  }

  /** The last of plus and space among some flags, or a if there is neither. */
  function LastSign(flags: string, a: char): char {
    if flags == [] then a else LastSign(flags[1..], if flags[0] == '+' || flags[0] == ' ' then flags[0] else a)
  }

  lemma {:induction false} FlagsAreSet(s: string, spec: Spec)
    ensures var flags := FlagsIn(s);
            Flags(s, spec) == Spec(spec.flushLeft || '-' in flags, if '0' in flags then '0' else spec.pad,
                                   LastSign(flags, spec.spaceOrSign), spec.hash || '#' in flags, spec.width)
  {
    if s != [] && IsFlag(s[0]) {
      FlagsAreSet(s[1..], SetFlag(spec, s[0]));
      assert FlagsIn(s) == [s[0]] + FlagsIn(s[1..]) && FlagsIn(s)[1..] == FlagsIn(s[1..]);
    }
  }

  lemma {:induction false} SomeSign(flags: string, a: char)
    ensures LastSign(flags, a) == if '+' in flags || ' ' in flags then LastSign(flags, ' ') else a
    ensures '+' in flags || ' ' in flags || a == '+' || a == ' ' ==>
              LastSign(flags, a) == '+' || LastSign(flags, a) == ' '
    ensures '+' !in flags && a != '+' ==> LastSign(flags, a) != '+'
  {
    if flags != [] {
      SomeSign(flags[1..], if flags[0] == '+' || flags[0] == ' ' then flags[0] else a);
      SomeSign(flags[1..], if flags[0] == '+' || flags[0] == ' ' then flags[0] else ' ');
      assert flags == [flags[0]] + flags[1..];
    }
  }

  /** A plus is overruled by a space behind it. */
  predicate Misread(s: string) { '+' in FlagsIn(s) && LastSign(FlagsIn(s), '\0') == ' ' }

  lemma {:induction false} WidthIsNumber(s: string, front: string)
    ensures WidthFrom(s, Number(front, 10)) == Number(front + DecimalsIn(s), 10)
    decreases |s|
  {
    if s != [] && IsDecimal(s[0]) {
      WidthIsNumber(s[1..], front + [s[0]]);
      OneDecimalMore(front, s[0], DecimalsIn(s[1..]));
    } else {
      assert front + [] == front;
    }
  }

  lemma OneDecimalMore(front: string, c: char, ds: string)
    requires IsDecimal(c)
    ensures Number(front + [c], 10) == Number(front, 10) * 10 + (Code(c) - Code('0'))
    ensures front + ([c] + ds) == front + [c] + ds
  {
    NumberStep(front, c, 10);
  }

  function CodeSpec(s: string, args: seq<int>): Spec { WithWidth(Flags(s, DEFAULT), AfterFlags(s), args) }

  /** The flags and the width are read as they should be, except that a plus may be overruled by a space. */
  lemma FlagsAreRight(s: string, args: seq<int>)
    ensures CodeSpec(s, args) == IsoSpec(s, args).(spaceOrSign := LastSign(FlagsIn(s), '\0'))
    ensures CodeSpec(s, args) == IsoSpec(s, args) <==> !Misread(s)
    ensures Proper(CodeSpec(s, args)) && Proper(IsoSpec(s, args))
    ensures IsoSpec(s, args).spaceOrSign == if Misread(s) then '+' else CodeSpec(s, args).spaceOrSign
  {
    FlagsAreSet(s, DEFAULT);
    SomeSign(FlagsIn(s), '\0');
    WidthIsRead(s, args, Flags(s, DEFAULT));
  }

  /** The width that is read for some flags. */
  lemma WidthIsRead(s: string, args: seq<int>, spec: Spec)
    requires spec.width == 0
    ensures var w := if WidthStar(s) then IntArg(args, 0) else Number(DecimalsIn(WidthText(s)), 10);
            WithWidth(spec, AfterFlags(s), args)
            == spec.(flushLeft := spec.flushLeft || w < 0, width := if w < 0 then -w else w)
  {
    SkippedFlags(s);
    if !WidthStar(s) {
      WidthIsNumber(WidthText(s), []);
      assert [] + DecimalsIn(WidthText(s)) == DecimalsIn(WidthText(s));
      NumberNotNegative(DecimalsIn(WidthText(s)));
    }
  }

  lemma {:induction false} NumberNotNegative(s: string)
    ensures Number(s, 10) >= 0
    decreases |s|
  {
    if s != [] { NumberNotNegative(s[..|s| - 1]); }
  }

  /** The arguments behind those that the asterisks take. */
  lemma ArgsBehindStars(s: string, args: seq<int>)
    ensures Word(ArgsAfterPrecision(s, args)) == WordArg(args, Stars(s))
    ensures AsInt(Word(ArgsAfterPrecision(s, args))) == IntArg(args, Stars(s))
    ensures |args| >= Stars(s) ==> ArgsAfterPrecision(s, args) == args[Stars(s)..]
  {
    PartsAreFound(s);
  }

  // ----- what doprnt makes of the conversions of ISO C11

  /** The length modifiers that doprnt does not know: it takes the first character for the letter of a conversion
      that means nothing, and the others for text. */
  predicate Unknown(m: Length) { m != Plain && m != L && m != LL }

  /** What it prints for a conversion. */
  function CodeText(s: string, args: seq<int>): string
    requires HasMeaning(s)
  {
    if Unknown(LengthOf(s)) then TailAt(s)[1..Size(LengthOf(s)) + 1]
    else
      ItemText(Item(CodeSpec(s, args), UNLIMITED, LetterOf(s), "", ArgsAfterPrecision(s, args)))
  }

  /** How many words it takes. */
  function CodeTaken(s: string): nat
    requires HasMeaning(s)
  {
    Stars(s) + (if Unknown(LengthOf(s)) || !TakesWord(LetterOf(s)) then 0 else 1)
  }

  /** The arguments it goes on with. */
  function CodeArgs(s: string, args: seq<int>): seq<int>
    requires HasMeaning(s)
  {
    var a := ArgsAfterPrecision(s, args);
    if Unknown(LengthOf(s)) || !TakesWord(LetterOf(s)) then a else Left(a)
  }

  /** It stores nothing. */
  function CodePiece(s: string, args: seq<int>): Piece
    requires HasMeaning(s)
  {
    Piece(CodeText(s, args), [], CodeTaken(s))
  }

  lemma CodeArgsAre(s: string, args: seq<int>)
    requires HasMeaning(s) && |args| >= CodeTaken(s)
    ensures CodeArgs(s, args) == args[CodeTaken(s)..]
  {
    ArgsBehindStars(s, args);
  }

  lemma KnownItem(s: string, args: seq<int>)
    requires HasMeaning(s) && !Unknown(LengthOf(s))
    ensures LetterAt(s) == IsoLetterAt(s) && Lowered(LetterOf(s)) == LetterOf(s)
    ensures var i := ItemOf(s, args);
            && i.letter == LetterOf(s) && i.rest == RestOf(s) && ItemText(i) == CodeText(s, args)
            && ArgsBehind(i) == CodeArgs(s, args)
  {
    PartsAreFound(s);
    assert AfterLong(TailAt(s)) == AfterLength(TailAt(s));
    PrecisionIgnored(ItemOf(s, args), UNLIMITED, "");
  }

  /** What an item prints does not depend on its precision, nor on what is behind it. */
  lemma PrecisionIgnored(i: Item, precision: int, rest: string)
    ensures ItemText(i) == ItemText(i.(precision := precision, rest := rest))
  {
  }

  lemma UnknownItem(s: string, args: seq<int>)
    requires HasMeaning(s) && Unknown(LengthOf(s))
    ensures LetterAt(s) == TailAt(s) != [] && Lowered(TailAt(s)[0]) in {'h', 'j', 'z', 't'}
    ensures TailAt(s)[1..] == CodeText(s, args) + RestOf(s)
    ensures var i := ItemOf(s, args);
            ItemText(i) == "" && i.rest == TailAt(s)[1..] && ArgsBehind(i) == CodeArgs(s, args)
  {
    PartsAreFound(s);
    UnknownTail(TailAt(s), Size(LengthOf(s)));
    assert LetterAt(s) == TailAt(s);
    NothingPrinted(ItemOf(s, args));
  }

  lemma UnknownTail(t: string, n: nat)
    requires n < |t|
    ensures t[1..] == t[1..n + 1] + t[n..][1..]
  {
  }

  lemma NothingPrinted(i: Item)
    ensures i.letter in {'h', 'j', 'z', 't'} ==> ItemText(i) == "" && ArgsBehind(i) == i.args
  {
  }

  lemma {:induction false} TextRendered(text: string, rest: string, args: seq<int>)
    requires '%' !in text && OnlyIntegers(rest)
    ensures OnlyIntegers(text + rest) && Rendered(text + rest, args) == text + Rendered(rest, args)
    decreases |text|
  {
    if text == [] {
      assert text + rest == rest && [] + Rendered(rest, args) == Rendered(rest, args);
    } else {
      TextRendered(text[1..], rest, args);
      assert (text + rest)[1..] == text[1..] + rest;
      assert text == [text[0]] + text[1..];
      Associate([text[0]], text[1..], Rendered(rest, args));
    }
  }

  /** That is how doprnt prints a conversion of ISO C11 at the start of a format. */
  lemma ConversionRendered(s: string, args: seq<int>)
    requires HasMeaning(s) && OnlyIntegers(RestOf(s))
    ensures OnlyIntegers("%" + s)
    ensures Rendered("%" + s, args) == CodeText(s, args) + Rendered(RestOf(s), CodeArgs(s, args))
  {
    var f := "%" + s;
    assert f[1..] == s;
    if Unknown(LengthOf(s)) {
      UnknownItem(s, args);
      NoPercent(s, args);
      TextRendered(CodeText(s, args), RestOf(s), CodeArgs(s, args));
      assert Rendered(f, args) == "" + Rendered(TailAt(s)[1..], CodeArgs(s, args));
    } else {
      KnownItem(s, args);
    }
  }

  lemma NoPercent(s: string, args: seq<int>)
    requires HasMeaning(s) && Unknown(LengthOf(s))
    ensures '%' !in CodeText(s, args)
  {
    var t, n := TailAt(s), Size(LengthOf(s));
    assert t[n] == LetterOf(s);
    if LetterOf(s) == '%' { PercentAlone(s); }
  }

  lemma PercentAlone(s: string)
    requires s != [] && s[0] == '%'
    ensures TailAt(s) == s && LengthOf(s) == Plain
  {
  }

  // ----- texts

  lemma SignedConversion(spec: Spec, sign: char, misread: bool, precision: int, v: int)
    requires Proper(spec) && (misread ==> spec.spaceOrSign == ' ') && sign == if misread then '+' else spec.spaceOrSign
    ensures SignedOutput(spec, v) == SignedIso(spec.(spaceOrSign := sign), precision, v)
            <==> !(misread && v >= 0) && SignedIsExact(spec, precision, v, |DigitsOf(Magnitude(v), 10, Lower)|)
  {
    if misread && v >= 0 {
      SpaceForPlus(spec, precision, v);
    } else {
      SignedExactly(spec, precision, v);
      NegativeSign(spec, sign, precision, v);
    }
  }

  lemma NegativeSign(spec: Spec, sign: char, precision: int, v: int)
    requires v < 0 || sign == spec.spaceOrSign
    ensures SignedIso(spec.(spaceOrSign := sign), precision, v) == SignedIso(spec, precision, v)
  {
  }

  lemma SignDoesNotMatter(spec: Spec, sign: char, precision: int, f: Conversion, v: nat)
    ensures UnsignedIso(spec.(spaceOrSign := sign), precision, f, v) == UnsignedIso(spec, precision, f, v)
  {
    NoSignInUnsigned(spec, sign, precision, f, v == 0, UnsignedDigits(f, v));
  }

  lemma NoSignInUnsigned(spec: Spec, sign: char, precision: int, f: Conversion, zero: bool, ds: string)
    ensures UnsignedIsoOf(spec.(spaceOrSign := sign), precision, f, zero, ds)
            == UnsignedIsoOf(spec, precision, f, zero, ds)
  {
    var padded, digits := IsoPad(spec, precision), IsoDigits(precision, zero, ds);
    assert IsoPad(spec.(spaceOrSign := sign), precision) == padded.(spaceOrSign := sign);
    SamePadding(padded, sign, "", digits);
    SamePadding(padded, sign, "", OctalStart(digits));
    SamePadding(padded, sign, if f == X(true) then "0X" else "0x", digits);
  }

  lemma SamePadding(spec: Spec, sign: char, prefix: string, ds: string)
    ensures Padded(spec.(spaceOrSign := sign), prefix, ds) == Padded(spec, prefix, ds)
  {
  }

  lemma SpaceForPlus(spec: Spec, precision: int, v: nat)
    requires Proper(spec) && spec.spaceOrSign == ' '
    ensures SignedOutput(spec, v) != SignedIso(spec.(spaceOrSign := '+'), precision, v)
  {
    var ds := DigitsOf(v, 10, Lower);
    DigitsDenote(v, 10, Lower);
    PlusShown(IsoPad(spec.(spaceOrSign := '+'), precision), IsoDigits(precision, v == 0, ds));
    NoPlusShown(spec, ds);
  }

  lemma PlusShown(spec: Spec, digits: string)
    ensures '+' in Padded(spec, "+", digits)
  {
    var room := spec.width - 1 - |digits|;
    var k := if spec.flushLeft || spec.pad == '0' || room <= 0 then 0 else room;
    assert Padded(spec, "+", digits)[k] == '+';
  }

  lemma NoPlusShown(spec: Spec, ds: string)
    requires Proper(spec) && spec.spaceOrSign == ' ' && AllDigits(ds, 10)
    ensures '+' !in SignedOutputOf(spec, false, ds)
  {
    forall i | 0 <= i < |ds| ensures ds[i] != '+' { assert DigitValue(ds[i]) < 10; }
  }

  // ----- one conversion

  /** Whether a long long is its high long: for 0, and for -1. */
  predicate HighIsAll(isSigned: bool, args: seq<int>, k: nat) {
    WordArg(args, k) == WordArg(args, k + 1)
    && (WordArg(args, k) == 0 || (isSigned && WordArg(args, k) == 0xffff_ffff))
  }

  lemma ShortValues(m: Length, args: seq<int>, k: nat)
    requires m == Plain || m == L
    ensures UnsignedValue(m, args, k) == WordArg(args, k) && SignedValue(m, args, k) == IntArg(args, k)
  {
  }

  lemma LongLongValues(args: seq<int>, k: nat)
    ensures UnsignedValue(LL, args, k) == WordArg(args, k) <==> HighIsAll(false, args, k)
    ensures SignedValue(LL, args, k) == IntArg(args, k) <==> HighIsAll(true, args, k)
  {
    var hi, lo := WordArg(args, k), WordArg(args, k + 1);
    assert 0 <= hi * TWO32 + lo < TWO32 * TWO32;
    assert UnsignedValue(LL, args, k) == hi * TWO32 + lo;
  }

  /** An integer of 32 bits is right: its sign flags are read right or do not matter, and with its width, its precision
      and its number it is none of the cases in which the text comes out wrong. */
  predicate IntegerIsRight(s: string, args: seq<int>)
    requires HasMeaning(s)
  {
    var spec, p, v, w := IsoSpec(s, args), IsoPrecision(s, args), IntArg(args, Stars(s)), WordArg(args, Stars(s));
    var f := IsoConversion(LetterOf(s));
    if IsSigned(LetterOf(s)) then
      !(Misread(s) && v >= 0) && SignedIsExact(spec, p, v, |DigitsOf(Magnitude(v), 10, Lower)|)
    else UnsignedIsExact(spec, p, f, w == 0, |UnsignedDigits(f, w)|)
  }

  /** The text of a conversion is right: never with h, hh, j, z or t; that of an integer without a length modifier or
      with l, if it is none of those cases; with ll, if moreover its high long is all of it. */
  predicate TextIsRight(s: string, args: seq<int>)
    requires HasMeaning(s)
  {
    && !Unknown(LengthOf(s))
    && (IsSigned(LetterOf(s)) || IsUnsigned(LetterOf(s)) ==>
          (LengthOf(s) == LL ==> HighIsAll(IsSigned(LetterOf(s)), args, Stars(s)))
          && IntegerIsRight(s, args))
  }

  /** A conversion is right in all it does: it is %, or p, or an integer that is right, without a length modifier or
      with l. Never n, which stores nothing. */
  predicate ConversionIsRight(s: string, args: seq<int>)
    requires HasMeaning(s)
  {
    && LetterOf(s) != 'n'
    && (IsSigned(LetterOf(s)) || IsUnsigned(LetterOf(s)) ==>
          (LengthOf(s) == Plain || LengthOf(s) == L) && IntegerIsRight(s, args))
  }

  /** Exactly when the text of a conversion, as it is written, is what it should be. */
  lemma ConversionPrintsRight(s: string, args: seq<int>)
    requires HasMeaning(s)
    ensures CodeText(s, args) == TextOf(s, args) <==> TextIsRight(s, args)
  {
    if Unknown(LengthOf(s)) {
      UnknownText(s, args);
    } else if IsSigned(LetterOf(s)) {
      SignedText64(s, args);
    } else if IsUnsigned(LetterOf(s)) {
      UnsignedText64(s, args);
    } else if LetterOf(s) == 'p' {
      FlagsAreRight(s, args);
      ArgsBehindStars(s, args);
    }
  }

  lemma PlainPercent(s: string)
    requires HasMeaning(s) && LetterOf(s) == '%'
    ensures LengthOf(s) == Plain
  {
    PercentAlone(s);
  }

  /** The letter that doprnt prints for such a conversion cannot end the text that should be printed. */
  lemma UnknownText(s: string, args: seq<int>)
    requires HasMeaning(s) && Unknown(LengthOf(s))
    ensures CodeText(s, args) != TextOf(s, args)
  {
    FlagsAreRight(s, args);
    var c, m, p, k := LetterOf(s), LengthOf(s), IsoPrecision(s, args), Stars(s);
    EndsWithLetter(s, args);
    if IsSigned(c) {
      SignedIsoEnds(IsoSpec(s, args), p, SignedValue(m, args, k));
    } else if IsUnsigned(c) {
      UnsignedIsoEnds(IsoSpec(s, args), p, IsoConversion(c), UnsignedValue(m, args, k));
    } else if c == '%' {
      PlainPercent(s);
    }
  }

  lemma EndsWithLetter(s: string, args: seq<int>)
    requires HasMeaning(s) && Unknown(LengthOf(s))
    ensures var out, c := CodeText(s, args), LetterOf(s);
            out != [] && (IsSigned(c) ==> !MayEnd(out, 10)) && (IsUnsigned(c) ==> !MayEnd(out, Base(IsoConversion(c))))
  {
    EndOfPart(TailAt(s), Size(LengthOf(s)));
    NoEnd(CodeText(s, args), LetterOf(s));
  }

  lemma EndOfPart(t: string, n: nat)
    requires 0 < n < |t|
    ensures var out := t[1..n + 1]; out != [] && out[|out| - 1] == t[n..][0]
  {
  }

  lemma NoEnd(out: string, c: char)
    requires out != [] && out[|out| - 1] == c
    ensures IsSigned(c) ==> !MayEnd(out, 10)
    ensures IsUnsigned(c) ==> !MayEnd(out, Base(IsoConversion(c)))
  {
  }

  lemma SignedTexts(s: string, args: seq<int>)
    requires HasMeaning(s) && IsSigned(LetterOf(s)) && !Unknown(LengthOf(s))
    ensures CodeText(s, args) == SignedOutput(CodeSpec(s, args), IntArg(args, Stars(s)))
    ensures TextOf(s, args)
            == SignedIso(IsoSpec(s, args), IsoPrecision(s, args), SignedValue(LengthOf(s), args, Stars(s)))
  {
    ArgsBehindStars(s, args);
  }

  lemma UnsignedTexts(s: string, args: seq<int>)
    requires HasMeaning(s) && IsUnsigned(LetterOf(s)) && !Unknown(LengthOf(s))
    ensures var f := IsoConversion(LetterOf(s));
            && CodeText(s, args) == UnsignedOutput(CodeSpec(s, args), f, WordArg(args, Stars(s)))
            && TextOf(s, args)
               == UnsignedIso(IsoSpec(s, args), IsoPrecision(s, args), f, UnsignedValue(LengthOf(s), args, Stars(s)))
  {
    ArgsBehindStars(s, args);
    SameConversion(LetterOf(s));
  }

  lemma SameConversion(c: char)
    requires IsUnsigned(c)
    ensures ConversionOf(c) == IsoConversion(c)
  {
  }

  lemma SignedText64(s: string, args: seq<int>)
    requires HasMeaning(s) && IsSigned(LetterOf(s)) && !Unknown(LengthOf(s))
    ensures CodeText(s, args) == TextOf(s, args) <==> TextIsRight(s, args)
  {
    FlagsAreRight(s, args);
    SignedTexts(s, args);
    var m, k := LengthOf(s), Stars(s);
    if m == LL { LongLongValues(args, k); } else { ShortValues(m, args, k); }
    var spec, sign := CodeSpec(s, args), IsoSpec(s, args).spaceOrSign;
    SignedEither(spec, sign, Misread(s), IsoPrecision(s, args), IntArg(args, k), SignedValue(m, args, k));
    SignedConditions(spec, sign, Misread(s), IsoPrecision(s, args), IntArg(args, k));
  }

  lemma SignedEither(spec: Spec, sign: char, misread: bool, p: int, v: int, right: int)
    requires Proper(spec) && (misread ==> spec.spaceOrSign == ' ') && sign == if misread then '+' else spec.spaceOrSign
    ensures SignedOutput(spec, v) == SignedIso(spec.(spaceOrSign := sign), p, right)
            <==> v == right && !(misread && v >= 0)
                 && SignedIsExact(spec, p, v, |DigitsOf(Magnitude(v), 10, Lower)|)
  {
    if v == right {
      SignedConversion(spec, sign, misread, p, v);
    } else if SignedOutput(spec, v) == SignedIso(spec.(spaceOrSign := sign), p, right) {
      SameSigned(spec, sign, p, v, right);
    }
  }

  /** The sign character that is printed does not matter for the condition. */
  lemma SignedConditions(spec: Spec, sign: char, misread: bool, precision: int, v: int)
    requires (misread ==> spec.spaceOrSign == ' ') && sign == if misread then '+' else spec.spaceOrSign
    ensures var n := |DigitsOf(Magnitude(v), 10, Lower)|;
            SignedIsExact(spec.(spaceOrSign := sign), precision, v, n) <==> SignedIsExact(spec, precision, v, n)
  {
  }

  lemma UnsignedText64(s: string, args: seq<int>)
    requires HasMeaning(s) && IsUnsigned(LetterOf(s)) && !Unknown(LengthOf(s))
    ensures CodeText(s, args) == TextOf(s, args) <==> TextIsRight(s, args)
  {
    FlagsAreRight(s, args);
    UnsignedTexts(s, args);
    var m, k := LengthOf(s), Stars(s);
    if m == LL { LongLongValues(args, k); } else { ShortValues(m, args, k); }
    UnsignedEither(CodeSpec(s, args), IsoSpec(s, args).spaceOrSign, IsoPrecision(s, args), IsoConversion(LetterOf(s)),
                   WordArg(args, k), UnsignedValue(m, args, k));
  }

  lemma UnsignedEither(spec: Spec, sign: char, p: int, f: Conversion, w: nat, right: nat)
    requires Proper(spec)
    ensures var n := |UnsignedDigits(f, w)|;
            && (UnsignedOutput(spec, f, w) == UnsignedIso(spec.(spaceOrSign := sign), p, f, right)
                <==> w == right && UnsignedIsExact(spec, p, f, w == 0, n))
            && (UnsignedIsExact(spec.(spaceOrSign := sign), p, f, w == 0, n)
                <==> UnsignedIsExact(spec, p, f, w == 0, n))
  {
    SignDoesNotMatter(spec, sign, p, f, right);
    if w == right {
      UnsignedExactly(spec, p, f, w);
    } else if UnsignedOutput(spec, f, w) == UnsignedIso(spec, p, f, right) {
      SameUnsigned(spec, p, f, w, right);
    }
  }

  /** Exactly when a conversion prints, stores and takes what it should. */
  lemma ConversionDoesRight(s: string, args: seq<int>)
    requires HasMeaning(s)
    ensures CodePiece(s, args) == IsoPiece(s, args) <==> ConversionIsRight(s, args)
  {
    ConversionPrintsRight(s, args);
    if LetterOf(s) == '%' { PlainPercent(s); }
  }

  // ----- whole formats

  /** Each of its conversions is right. */
  predicate Conforms(s: string, args: seq<int>)
    requires IsDefined(s, args)
    decreases |s|
  {
    s == [] ||
    (if s[0] != '%' then Conforms(s[1..], args)
     else ConversionIsRight(s[1..], args) && Conforms(RestOf(s[1..]), args[Taken(s[1..])..]))
  }

  /** The pieces that doprnt makes of a format. */
  function Pieces(s: string, args: seq<int>): seq<Piece>
    requires Readable(s)
    decreases |s|
  {
    if s == [] then []
    else if s[0] != '%' then [Piece([s[0]], [], 0)] + Pieces(s[1..], args)
    else [CodePiece(s[1..], args)] + Pieces(RestOf(s[1..]), CodeArgs(s[1..], args))
  }

  /** Every conversion has a meaning, whatever its arguments. */
  predicate Readable(s: string)
    decreases |s|
  {
    s == [] || (if s[0] != '%' then Readable(s[1..]) else HasMeaning(s[1..]) && Readable(RestOf(s[1..])))
  }

  lemma {:induction false} DefinedIsReadable(s: string, args: seq<int>)
    requires IsDefined(s, args)
    ensures Readable(s)
    decreases |s|
  {
    if s == [] {
    } else if s[0] != '%' {
      DefinedIsReadable(s[1..], args);
    } else {
      DefinedIsReadable(RestOf(s[1..]), args[Taken(s[1..])..]);
    }
  }

  /** What doprnt prints is the texts of these pieces one after the other. */
  lemma {:induction false} RenderedInPieces(s: string, args: seq<int>)
    requires Readable(s)
    ensures OnlyIntegers(s) && Rendered(s, args) == Texts(Pieces(s, args)) && Stores(Pieces(s, args)) == []
    decreases |s|
  {
    if s == [] {
    } else if s[0] != '%' {
      RenderedInPieces(s[1..], args);
      OnePieceMore(Piece([s[0]], [], 0), Pieces(s[1..], args));
    } else {
      var t := s[1..];
      assert s == "%" + t;
      RenderedInPieces(RestOf(t), CodeArgs(t, args));
      ConversionRendered(t, args);
      OnePieceMore(CodePiece(t, args), Pieces(RestOf(t), CodeArgs(t, args)));
    }
  }

  lemma SameHeads<T>(a: T, b: T, x: seq<T>, y: seq<T>)
    ensures [a] + x == [b] + y <==> a == b && x == y
  {
    assert ([a] + x)[0] == a && ([b] + y)[0] == b;
    assert ([a] + x)[1..] == x && ([b] + y)[1..] == y;
  }

  /** Every piece of a format is what ISO C11 says it should be if and only if every conversion is right. */
  lemma {:induction false} PiecesAreRight(s: string, args: seq<int>)
    requires IsDefined(s, args)
    ensures Readable(s) && (Pieces(s, args) == IsoPieces(s, args) <==> Conforms(s, args))
    decreases |s|
  {
    DefinedIsReadable(s, args);
    if s == [] {
    } else if s[0] != '%' {
      PiecesAreRight(s[1..], args);
      SameHeads(Piece([s[0]], [], 0), Piece([s[0]], [], 0), Pieces(s[1..], args), IsoPieces(s[1..], args));
    } else {
      var t := s[1..];
      var left := args[Taken(t)..];
      ConversionDoesRight(t, args);
      PiecesAreRight(RestOf(t), left);
      SameHeads(CodePiece(t, args), IsoPiece(t, args),
                Pieces(RestOf(t), CodeArgs(t, args)), IsoPieces(RestOf(t), left));
      if ConversionIsRight(t, args) { CodeArgsAre(t, args); }
    }
  }

  /** The output is right: the text as a whole, and where a number is stored. */
  predicate PrintsRight(s: string, args: seq<int>)
    requires IsDefined(s, args) && OnlyIntegers(s)
  {
    Rendered(s, args) == Texts(IsoPieces(s, args)) && Stores(IsoPieces(s, args)) == []
  }

  /** Of the conversions with a precision, or with a length modifier other than l, none is wrong. */
  predicate LengthsAreMet(s: string, args: seq<int>)
    requires IsDefined(s, args)
    decreases |s|
  {
    s == [] ||
    (if s[0] != '%' then LengthsAreMet(s[1..], args)
     else
       && (IsoPrecision(s[1..], args) >= 0 || LengthOf(s[1..]) !in {Plain, L} ==> ConversionIsRight(s[1..], args))
       && LengthsAreMet(RestOf(s[1..]), args[Taken(s[1..])..]))
  }

  /** Without a precision and such a length modifier, no error makes a conversion lighter. */
  lemma ConversionNotLighter(s: string, args: seq<int>)
    requires HasMeaning(s) && LetterOf(s) != 'n'
    requires IsoPrecision(s, args) >= 0 || LengthOf(s) !in {Plain, L} ==> ConversionIsRight(s, args)
    ensures NotLighter(CodeText(s, args), TextOf(s, args)) && CodeTaken(s) == Taken(s)
  {
    ConversionDoesRight(s, args);
    if !ConversionIsRight(s, args) {
      FlagsAreRight(s, args);
      ShortValues(LengthOf(s), args, Stars(s));
      var spec, sign, p, k := CodeSpec(s, args), IsoSpec(s, args).spaceOrSign, IsoPrecision(s, args), Stars(s);
      if IsSigned(LetterOf(s)) {
        SignedTexts(s, args);
        SignedNotLighter(spec, sign, IntArg(args, k));
      } else {
        UnsignedTexts(s, args);
        UnsignedConversionNotLighter(spec, sign, p, IsoConversion(LetterOf(s)), WordArg(args, k));
      }
    }
  }

  lemma UnsignedConversionNotLighter(spec: Spec, sign: char, precision: int, f: Conversion, w: nat)
    requires Proper(spec) && precision < 0
    ensures NotLighter(UnsignedOutput(spec, f, w), UnsignedIso(spec.(spaceOrSign := sign), precision, f, w))
  {
    UnsignedNotLighter(spec, f, w);
    SignDoesNotMatter(spec, sign, precision, f, w);
    NoLeadingZero(w, Base(f), Table(f));
    NoPrecision(spec, precision, f, w == 0, UnsignedDigits(f, w));
  }

  lemma {:induction false} FormatNotLighter(s: string, args: seq<int>)
    requires IsDefined(s, args) && Readable(s) && LengthsAreMet(s, args) && Stores(IsoPieces(s, args)) == []
    ensures Weight(Texts(Pieces(s, args))) >= Weight(Texts(IsoPieces(s, args)))
    decreases |s|
  {
    if s == [] {
    } else if s[0] != '%' {
      var p, out, right := Piece([s[0]], [], 0), Pieces(s[1..], args), IsoPieces(s[1..], args);
      OnePieceMore(p, out);
      OnePieceMore(p, right);
      FormatNotLighter(s[1..], args);
      WeightConcat([s[0]], Texts(out));
      WeightConcat([s[0]], Texts(right));
    } else {
      var t := s[1..];
      var out, right := Pieces(RestOf(t), CodeArgs(t, args)), IsoPieces(RestOf(t), args[Taken(t)..]);
      OnePieceMore(CodePiece(t, args), out);
      OnePieceMore(IsoPiece(t, args), right);
      ConversionNotLighter(t, args);
      CodeArgsAre(t, args);
      FormatNotLighter(RestOf(t), args[Taken(t)..]);
      WeightConcat(CodeText(t, args), Texts(out));
      WeightConcat(TextOf(t, args), Texts(right));
    }
  }

  /** Texts that are equal as a whole, the front not lighter than it should be, and neither the back, are equal in
      both parts. */
  lemma EqualInParts(a: string, x: string, b: string, y: string)
    requires a + x == b + y && NotLighter(a, b) && Weight(x) >= Weight(y)
    ensures a == b && x == y
  {
    WeightConcat(a, x);
    WeightConcat(b, y);
    assert |a| == |b|;
    assert (a + x)[..|a|] == a && (b + y)[..|b|] == b && (a + x)[|a|..] == x && (b + y)[|b|..] == y;
  }

  lemma {:induction false} RightInParts(s: string, args: seq<int>)
    requires IsDefined(s, args) && Readable(s) && LengthsAreMet(s, args) && Stores(IsoPieces(s, args)) == []
    requires Texts(Pieces(s, args)) == Texts(IsoPieces(s, args))
    ensures Conforms(s, args)
    decreases |s|
  {
    if s == [] {
    } else if s[0] != '%' {
      var p, out, right := Piece([s[0]], [], 0), Pieces(s[1..], args), IsoPieces(s[1..], args);
      OnePieceMore(p, out);
      OnePieceMore(p, right);
      SameHeads(s[0], s[0], Texts(out), Texts(right));
      RightInParts(s[1..], args);
    } else {
      var t := s[1..];
      var out, right := Pieces(RestOf(t), CodeArgs(t, args)), IsoPieces(RestOf(t), args[Taken(t)..]);
      OnePieceMore(CodePiece(t, args), out);
      OnePieceMore(IsoPiece(t, args), right);
      ConversionNotLighter(t, args);
      CodeArgsAre(t, args);
      FormatNotLighter(RestOf(t), args[Taken(t)..]);
      EqualInParts(CodeText(t, args), Texts(out), TextOf(t, args), Texts(right));
      ConversionDoesRight(t, args);
      RightInParts(RestOf(t), args[Taken(t)..]);
    }
  }

  /** A format in which no conversion with a precision, or with a length modifier other than l, is wrong, prints what
      ISO C11 says it should if and only if each of its conversions is right: no two errors make up for each other.
      A format in which each conversion is right prints it in any case. */
  lemma FormatPrintsRight(s: string, args: seq<int>)
    requires IsDefined(s, args)
    ensures OnlyIntegers(s)
    ensures Conforms(s, args) ==> PrintsRight(s, args)
    ensures LengthsAreMet(s, args) ==> (PrintsRight(s, args) <==> Conforms(s, args))
  {
    PiecesAreRight(s, args);
    RenderedInPieces(s, args);
    if LengthsAreMet(s, args) && PrintsRight(s, args) {
      RightInParts(s, args);
    }
  }
}
