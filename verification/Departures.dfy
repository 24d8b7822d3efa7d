/** Formats at which doprnt departs from ISO C11, and formats at which two of its errors make up for each other. */
module Departures {
  import opened Conformance
  import opened Conversions
  import opened Digits
  import opened Doprnt
  import opened IsoFormat
  import opened IsoText
  import opened Machine
  import opened MemStream
  import Printers

  // ----- formats in parts

  /** A conversion in front of a format. */
  lemma InFront(t: string, args: seq<int>)
    requires HasMeaning(t) && |args| >= Taken(t) && IsDefined(RestOf(t), args[Taken(t)..])
    ensures var s, rest, left := "%" + t, RestOf(t), args[Taken(t)..];
            && IsDefined(s, args) && OnlyIntegers(s) && OnlyIntegers(rest)
            && Rendered(s, args) == CodeText(t, args) + Rendered(rest, CodeArgs(t, args))
            && Texts(IsoPieces(s, args)) == TextOf(t, args) + Texts(IsoPieces(rest, left))
            && Stores(IsoPieces(s, args)) == IsoPiece(t, args).stores + Stores(IsoPieces(rest, left))
            && (Conforms(s, args) <==> ConversionIsRight(t, args) && Conforms(rest, left))
  {
    var s, rest, left := "%" + t, RestOf(t), args[Taken(t)..];
    assert s[1..] == t;
    DefinedIsReadable(rest, left);
    RenderedInPieces(rest, left);
    ConversionRendered(t, args);
    OnePieceMore(IsoPiece(t, args), IsoPieces(rest, left));
  }

  /** At the end of a format. */
  lemma Alone(t: string, args: seq<int>)
    requires HasMeaning(t) && |args| >= Taken(t) && RestOf(t) == ""
    ensures var s := "%" + t;
            && IsDefined(s, args) && OnlyIntegers(s)
            && Rendered(s, args) == CodeText(t, args) && Texts(IsoPieces(s, args)) == TextOf(t, args)
            && Stores(IsoPieces(s, args)) == IsoPiece(t, args).stores
            && (Conforms(s, args) <==> ConversionIsRight(t, args))
            && (CodeText(t, args) != TextOf(t, args) ==> !Conforms(s, args))
  {
    InFront(t, args);
    ConversionDoesRight(t, args);
    assert CodeText(t, args) + "" == CodeText(t, args) && TextOf(t, args) + "" == TextOf(t, args);
  }

  // ----- length modifiers and unknown letters

  /** Letters that mean something in ISO C11, or begin a length modifier, and mean nothing to doprnt. */
  predicate Meaningless(c: char) {
    c == 'a' || c == 'A' || c == 'n' || c == 'h' || c == 'j' || c == 'z' || c == 't' || c == 'L'
  }

  /** Such a letter takes no argument and prints nothing, and what is behind it is the rest of the format. */
  lemma LetterIgnored(c: char, rest: string, args: seq<int>)
    requires Meaningless(c) && OnlyIntegers(rest)
    ensures OnlyIntegers("%" + ([c] + rest)) && Rendered("%" + ([c] + rest), args) == Rendered(rest, args)
  {
    var s := [c] + rest;
    assert ("%" + s)[1..] == s && s[1..] == rest;
    IgnoredItem(c, rest, args);
    assert "" + Rendered(rest, args) == Rendered(rest, args);
  }

  lemma IgnoredItem(c: char, rest: string, args: seq<int>)
    requires Meaningless(c)
    ensures var s := [c] + rest;
            && LetterAt(s) == s && Lowered(c) !in {'c', 's', 'S', 'f', 'e', 'E', 'g', 'G'} && !TakesWord(Lowered(c))
            && (var i := ItemOf(s, args); ItemText(i) == "" && i.rest == rest && i.args == args)
  {
  }

  /** D, I, U, O and P, which mean nothing in ISO C11, are the small letters; X is not. */
  lemma CapitalLetter(c: char, small: char, rest: string, args: seq<int>)
    requires (c, small) in {('D', 'd'), ('I', 'i'), ('U', 'u'), ('O', 'o'), ('P', 'p')}
    ensures LetterAt([c] + rest) == [c] + rest && LetterAt([small] + rest) == [small] + rest
    ensures ItemOf([c] + rest, args) == ItemOf([small] + rest, args)
    ensures ItemOf([c] + rest, args).letter == small
  {
  }

  /** A conversion without asterisks and plus is read as that. */
  predicate Reads(t: string, flags: string, m: Length, c: char, rest: string, precision: int) {
    && HasMeaning(t) && FlagsIn(t) == flags && LengthOf(t) == m && LetterOf(t) == c && RestOf(t) == rest
    && Stars(t) == 0 && '+' !in flags && ' ' !in flags && DecimalsIn(WidthText(t)) == []
    && IsoPrecision(t, []) == precision
  }

  function SpecOf(flags: string): Spec {
    Spec('-' in flags, if '0' in flags then '0' else ' ', '\0', '#' in flags, 0)
  }

  lemma SpecIsRead(t: string, flags: string, m: Length, c: char, rest: string, precision: int, args: seq<int>)
    requires Reads(t, flags, m, c, rest, precision)
    ensures IsoSpec(t, args) == SpecOf(flags) == CodeSpec(t, args) && IsoPrecision(t, args) == precision
  {
    FlagsAreRight(t, args);
  }

  /** The text that a signed conversion should print, once it is read, and the arguments it takes. */
  lemma SignedReads(t: string, m: Length, c: char, rest: string, precision: int, v: int, args: seq<int>)
    requires Reads(t, "", m, c, rest, precision) && IsSigned(c) && args != [] && m != LL && m != J
    requires v == SignedValue(m, args, 0)
    ensures Taken(t) == 1 && IsoPiece(t, args).stores == []
    ensures TextOf(t, args) == SignedIso(DEFAULT, precision, v)
  {
    SpecIsRead(t, "", m, c, rest, precision, args);
    NoFlags();
  }

  /** And the text that it prints. */
  lemma SignedPrints(t: string, c: char, rest: string, precision: int, v: int, args: seq<int>)
    requires Reads(t, "", Plain, c, rest, precision) && IsSigned(c) && args != [] && v == IntArg(args, 0)
    ensures CodeText(t, args) == SignedOutput(DEFAULT, v) && CodeArgs(t, args) == args[1..]
  {
    SpecIsRead(t, "", Plain, c, rest, precision, args);
    NoFlags();
    SignedTexts(t, args);
    CodeArgsAre(t, args);
  }

  /** Those of an unsigned one. */
  lemma UnsignedReads(t: string, flags: string, spec: Spec, c: char, f: Conversion, rest: string, v: nat,
                      args: seq<int>)
    requires Reads(t, flags, Plain, c, rest, -1) && IsUnsigned(c) && args != []
    requires spec == SpecOf(flags) && f == IsoConversion(c) && v == WordArg(args, 0)
    ensures Taken(t) == 1 && IsoPiece(t, args).stores == [] && CodeArgs(t, args) == args[1..]
    ensures CodeText(t, args) == UnsignedOutput(spec, f, v) && TextOf(t, args) == UnsignedIso(spec, -1, f, v)
  {
    SpecIsRead(t, flags, Plain, c, rest, -1, args);
    UnsignedTexts(t, args);
    ShortValues(Plain, args, 0);
    CodeArgsAre(t, args);
  }

  lemma NoFlags()
    ensures SpecOf("") == DEFAULT
  {
  }

  /** A letter without flags, width, precision and length modifier. */
  lemma BareLetter(c: char, rest: string)
    requires IsSigned(c) || IsUnsigned(c)
    ensures Reads([c] + rest, "", Plain, c, rest, -1) && TailAt([c] + rest) == [c] + rest
  {
    BareParts([c] + rest);
    assert ([c] + rest)[1..] == rest;
  }

  lemma BareParts(t: string)
    requires t != [] && !FlagChar(t[0]) && !('0' <= t[0] <= '9') && t[0] != '*' && t[0] != '.'
    ensures FlagsIn(t) == "" && WidthText(t) == PrecisionText(t) == TailAt(t) == t && DecimalsIn(t) == ""
    ensures Stars(t) == 0 && IsoPrecision(t, []) == -1
  {
    assert Behind(t, "") == t;
  }

  /** And with h in front of it. */
  lemma ShortLetter(c: char, rest: string)
    requires IsSigned(c) || IsUnsigned(c)
    ensures Reads("h" + ([c] + rest), "", H, c, rest, -1) && TailAt("h" + ([c] + rest)) == "h" + ([c] + rest)
  {
    var t := "h" + ([c] + rest);
    BareParts(t);
    assert t[1..] == [c] + rest && t[1..][1..] == rest;
  }

  /** There the letter is printed, and no argument is taken. */
  lemma ShortItem(c: char, rest: string, args: seq<int>)
    requires IsSigned(c)
    ensures var t := "h" + ([c] + rest);
            Reads(t, "", H, c, rest, -1) && CodeText(t, args) == [c] && CodeArgs(t, args) == args
  {
    var t := "h" + ([c] + rest);
    ShortLetter(c, rest);
    ArgsBehindStars(t, args);
    assert t[1..2] == [c];
    assert args[0..] == args;
  }

  /** "%hd" prints d where it should print the number. */
  lemma ShortIsNotPrinted(v: nat)
    requires v < 10
    ensures var s := "%" + ("h" + (['d'] + ""));
            && IsDefined(s, [v]) && OnlyIntegers(s) && !Conforms(s, [v])
            && Rendered(s, [v]) == "d" && Texts(IsoPieces(s, [v])) == [Numeral(v, Lower)]
  {
    ShortItem('d', "", [v]);
    ShortAlone("h" + (['d'] + ""), v);
  }

  lemma ShortAlone(t: string, v: nat)
    requires v < 10 && Reads(t, "", H, 'd', "", -1) && CodeText(t, [v]) == "d"
    ensures var s := "%" + t;
            && IsDefined(s, [v]) && OnlyIntegers(s) && !Conforms(s, [v])
            && Rendered(s, [v]) == "d" && Texts(IsoPieces(s, [v])) == [Numeral(v, Lower)]
  {
    assert SignedValue(H, [v], 0) == v;
    SignedReads(t, H, 'd', "", -1, v, [v]);
    OneDigitTexts(v, -1);
    assert Repeat('0', -2) + [Numeral(v, Lower)] == [Numeral(v, Lower)];
    Alone(t, [v]);
  }

  lemma OneDigitTexts(v: nat, n: int)
    requires v < 10 && n != 0
    ensures SignedOutput(DEFAULT, v) == [Numeral(v, Lower)]
    ensures SignedIso(DEFAULT, n, v) == Repeat('0', n - 1) + [Numeral(v, Lower)]
  {
    var ds := DigitsOf(v, 10, Lower);
    assert ds == [Numeral(v, Lower)];
    Plainly(ds);
    Plainly(Repeat('0', n - 1) + ds);
    if n < 0 { assert Repeat('0', n - 1) + ds == ds; }
  }

  lemma Plainly(ds: string)
    requires ds != []
    ensures SignedOutputOf(DEFAULT, false, ds) == ds && Padded(DEFAULT, "", ds) == ds
  {
    assert Repeat(' ', 0 - |ds|) == [] && [] + ds == ds && "" + ds == ds;
  }

  // ----- precision

  /** A conversion with a precision of one digit. */
  function Short(c: char): string { "." + [c] + "d" }

  lemma ReadShort(c: char)
    requires '0' <= c <= '9'
    ensures Reads(Short(c), "", Plain, 'd', "", Code(c) - Code('0'))
  {
    var u := [c] + "d";
    assert Short(c)[1..] == u && u[1..] == "d";
    DotParts(Short(c));
    assert DecimalsIn(u) == [c] + DecimalsIn("d") == [c] + "" == [c];
    assert Behind(u, [c]) == "d" && [] + [c] == [c];
    NumberStep([], c, 10);
  }

  /** A precision without anything in front of it. */
  lemma DotParts(t: string)
    requires t != [] && t[0] == '.' && (|t| > 1 ==> t[1] != '*')
    ensures FlagsIn(t) == "" && WidthText(t) == PrecisionText(t) == t && DecimalsIn(t) == "" && Stars(t) == 0
    ensures TailAt(t) == Behind(t[1..], DecimalsIn(t[1..])) && IsoPrecision(t, []) == Number(DecimalsIn(t[1..]), 10)
  {
    assert Behind(t, "") == t;
  }

  /** One digit, with a precision: the precision is ignored. */
  lemma ShortTexts(c: char, v: nat)
    requires '1' <= c <= '9' && v < 10
    ensures var t, digit, n := Short(c), Numeral(v, Lower), Code(c) - Code('0');
            && HasMeaning(t) && Taken(t) == 1 && RestOf(t) == ""
            && CodeText(t, [v]) == [digit] && TextOf(t, [v]) == Repeat('0', n - 1) + [digit]
            && IsoPiece(t, [v]).stores == []
  {
    ReadShort(c);
    OneDigitItem(Short(c), Code(c) - Code('0'), v);
  }

  lemma OneDigitItem(t: string, n: int, v: nat)
    requires v < 10 && n != 0 && Reads(t, "", Plain, 'd', "", n)
    ensures Taken(t) == 1 && IsoPiece(t, [v]).stores == [] && CodeText(t, [v]) == [Numeral(v, Lower)]
    ensures TextOf(t, [v]) == Repeat('0', n - 1) + [Numeral(v, Lower)]
  {
    ShortValues(Plain, [v], 0);
    SignedReads(t, Plain, 'd', "", n, v, [v]);
    SignedPrints(t, 'd', "", n, v, [v]);
    OneDigitTexts(v, n);
  }

  /** For 5, "%.3d" prints 5 where it should print 005. */
  lemma PrecisionIsIgnored()
    ensures var s := "%" + Short('3');
            && IsDefined(s, [5]) && OnlyIntegers(s) && !Conforms(s, [5])
            && Rendered(s, [5]) == "5" && Texts(IsoPieces(s, [5])) == "005"
  {
    ShortTexts('3', 5);
    RepeatStep('0', 2);
    RepeatStep('0', 1);
    assert Repeat('0', 2) + ['5'] == "005";
    ZerosMissing(Short('3'));
  }

  lemma ZerosMissing(t: string)
    requires HasMeaning(t) && Taken(t) == 1 && RestOf(t) == "" && CodeText(t, [5]) == "5" && TextOf(t, [5]) == "005"
    ensures var s := "%" + t;
            && IsDefined(s, [5]) && OnlyIntegers(s) && !Conforms(s, [5])
            && Rendered(s, [5]) == "5" && Texts(IsoPieces(s, [5])) == "005"
  {
    Alone(t, [5]);
  }

  // ----- errors that cancel

  const HASH := DEFAULT.(hash := true)

  lemma OctalZeroTexts()
    ensures UnsignedOutput(HASH, O, 0) == "00" && UnsignedIso(HASH, -1, O, 0) == "0"
  {
    assert UnsignedDigits(O, 0) == "0" && "0" + "0" == "00";
    assert [] + "00" == "00" && [] + "" + "0" == "0";
  }

  lemma HashLetter(rest: string)
    ensures Reads("#" + (['o'] + rest), "#", Plain, 'o', rest, -1)
  {
    var t, u := "#" + (['o'] + rest), ['o'] + rest;
    assert t[1..] == u;
    BareLetter('o', rest);
    assert FlagsIn(t) == ['#'] + FlagsIn(u) == ['#'] + [] == "#";
    assert WidthText(t) == Behind(t, "#") == u == WidthText(u);
    assert PrecisionText(t) == PrecisionText(u) && TailAt(t) == TailAt(u);
  }

  /** "%#o" of 0 prints 00 where it should print 0. */
  lemma OctalOfZero(rest: string, args: seq<int>)
    requires args != [] && args[0] == 0
    ensures var t := "#" + (['o'] + rest);
            && HasMeaning(t) && Taken(t) == 1 && RestOf(t) == rest && CodeArgs(t, args) == args[1..]
            && CodeText(t, args) == "00" && TextOf(t, args) == "0" && IsoPiece(t, args).stores == []
            && !ConversionIsRight(t, args)
  {
    HashLetter(rest);
    OctalItem("#" + (['o'] + rest), rest, args);
  }

  lemma OctalItem(t: string, rest: string, args: seq<int>)
    requires Reads(t, "#", Plain, 'o', rest, -1) && args != [] && args[0] == 0
    ensures Taken(t) == 1 && CodeArgs(t, args) == args[1..] && IsoPiece(t, args).stores == []
    ensures CodeText(t, args) == "00" && TextOf(t, args) == "0" && !ConversionIsRight(t, args)
  {
    UnsignedReads(t, "#", HASH, 'o', O, rest, 0, args);
    OctalZeroTexts();
    ConversionDoesRight(t, args);
  }

  /** A conversion and a format behind it whose texts are right together, and the conversion wrong. */
  lemma RightTogether(t: string, f: string, args: seq<int>, left: seq<int>)
    requires HasMeaning(t) && Taken(t) == 1 && RestOf(t) == f && args != [] && args[1..] == left
    requires IsDefined(f, left) && OnlyIntegers(f) && CodeArgs(t, args) == left && !ConversionIsRight(t, args)
    requires IsoPiece(t, args).stores == [] && Stores(IsoPieces(f, left)) == []
    requires CodeText(t, args) + Rendered(f, left) == TextOf(t, args) + Texts(IsoPieces(f, left))
    ensures IsDefined("%" + t, args) && OnlyIntegers("%" + t)
    ensures PrintsRight("%" + t, args) && !Conforms("%" + t, args)
  {
    InFront(t, args);
  }

  function OctalThen(f: string): string { "#" + (['o'] + f) }

  /** The zero that "%#o" of 0 prints too much makes up for one that is missing behind it. */
  lemma ZeroTooMuch(f: string, left: seq<int>)
    requires IsDefined(f, left) && OnlyIntegers(f) && Stores(IsoPieces(f, left)) == []
    requires Texts(IsoPieces(f, left)) == "0" + Rendered(f, left)
    ensures var s, args := "%" + OctalThen(f), [0] + left;
            && IsDefined(s, args) && OnlyIntegers(s)
            && PrintsRight(s, args) && !Conforms(s, args)
  {
    var args := [0] + left;
    OctalOfZero(f, args);
    assert args[1..] == left;
    ZeroInFront(OctalThen(f), f, args, left);
  }

  lemma ZeroInFront(t: string, f: string, args: seq<int>, left: seq<int>)
    requires HasMeaning(t) && Taken(t) == 1 && RestOf(t) == f && args != [] && args[1..] == left
    requires IsDefined(f, left) && OnlyIntegers(f) && CodeArgs(t, args) == left && !ConversionIsRight(t, args)
    requires IsoPiece(t, args).stores == [] && Stores(IsoPieces(f, left)) == []
    requires CodeText(t, args) == "00" && TextOf(t, args) == "0" && Texts(IsoPieces(f, left)) == "0" + Rendered(f, left)
    ensures IsDefined("%" + t, args) && OnlyIntegers("%" + t)
    ensures PrintsRight("%" + t, args) && !Conforms("%" + t, args)
  {
    Associate("0", "0", Rendered(f, left));
    assert "0" + "0" == "00";
    RightTogether(t, f, args, left);
  }

  /** With precisions, two errors may make up for each other: for 0 and 0, "%#o%.2d" prints 000, as it should,
      but made of 00 and 0 instead of 0 and 00. */
  lemma ErrorsCancel()
    ensures var s := "%" + OctalThen("%" + Short('2'));
            && IsDefined(s, [0, 0]) && OnlyIntegers(s)
            && PrintsRight(s, [0, 0]) && !Conforms(s, [0, 0])
  {
    ShortTexts('2', 0);
    RepeatStep('0', 1);
    ZeroMissing(Short('2'));
  }

  lemma ZeroMissing(u: string)
    requires HasMeaning(u) && Taken(u) == 1 && RestOf(u) == "" && IsoPiece(u, [0]).stores == []
    requires CodeText(u, [0]) == ['0'] && TextOf(u, [0]) == Repeat('0', 1) + ['0'] && Repeat('0', 1) == ['0']
    ensures var s := "%" + OctalThen("%" + u);
            && IsDefined(s, [0, 0]) && OnlyIntegers(s)
            && PrintsRight(s, [0, 0]) && !Conforms(s, [0, 0])
  {
    Alone(u, [0]);
    ZeroTooMuch("%" + u, [0]);
    assert [0] + [0] == [0, 0];
  }

  lemma HexTexts(v: nat, args: seq<int>)
    requires v < TWO32 && args != [] && args[0] == v
    ensures var t := ['x'] + "";
            && HasMeaning(t) && Taken(t) == 1 && RestOf(t) == "" && IsoPiece(t, args).stores == []
            && CodeText(t, args) == TextOf(t, args) == UnsignedDigits(X(false), v)
  {
    BareLetter('x', "");
    HexItem(['x'] + "", v, args);
  }

  lemma HexItem(t: string, v: nat, args: seq<int>)
    requires v < TWO32 && args != [] && args[0] == v && Reads(t, "", Plain, 'x', "", -1)
    ensures Taken(t) == 1 && IsoPiece(t, args).stores == []
    ensures CodeText(t, args) == TextOf(t, args) == UnsignedDigits(X(false), v)
  {
    NoFlags();
    UnsignedReads(t, "", DEFAULT, 'x', X(false), "", v, args);
    HexOutput(v);
  }

  lemma HexOutput(v: nat)
    ensures UnsignedOutput(DEFAULT, X(false), v) == UnsignedDigits(X(false), v) == UnsignedIso(DEFAULT, -1, X(false), v)
  {
    var ds := UnsignedDigits(X(false), v);
    OutputIsPadded(DEFAULT, X(false), ds);
    Plainly(ds);
  }

  /** A short of 0 in front of a hexadecimal number: d is printed, and then the argument that should have been the
      short; where 0 should be printed, and the number. */
  lemma ShortThenHex(t: string, f: string, v: nat)
    requires HasMeaning(t) && Taken(t) == 1 && RestOf(t) == f && IsoPiece(t, [0, v]).stores == []
    requires CodeText(t, [0, v]) == "d" && CodeArgs(t, [0, v]) == [0, v] && TextOf(t, [0, v]) == "0"
    requires f == "%" + (['x'] + "") && v < TWO32
    ensures IsDefined("%" + t, [0, v]) && OnlyIntegers("%" + t) && Stores(IsoPieces("%" + t, [0, v])) == []
    ensures Rendered("%" + t, [0, v]) == "d" + "0"
    ensures Texts(IsoPieces("%" + t, [0, v])) == "0" + UnsignedDigits(X(false), v)
  {
    HexTexts(0, [0, v]);
    HexTexts(v, [v]);
    Alone(['x'] + "", [0, v]);
    Alone(['x'] + "", [v]);
    assert [0, v][1..] == [v];
    InFront(t, [0, v]);
  }

  lemma ShortOfZero(f: string, args: seq<int>)
    requires args != [] && args[0] == 0
    ensures var t := "h" + (['d'] + f);
            && HasMeaning(t) && Taken(t) == 1 && RestOf(t) == f && IsoPiece(t, args).stores == []
            && CodeText(t, args) == "d" && CodeArgs(t, args) == args && TextOf(t, args) == "0"
  {
    ShortItem('d', f, args);
    ShortZero("h" + (['d'] + f), f, args);
  }

  lemma ShortZero(t: string, f: string, args: seq<int>)
    requires args != [] && args[0] == 0 && Reads(t, "", H, 'd', f, -1)
    ensures Taken(t) == 1 && IsoPiece(t, args).stores == [] && TextOf(t, args) == "0"
  {
    assert SignedValue(H, args, 0) == 0;
    SignedReads(t, H, 'd', f, -1, 0, args);
    OneDigitTexts(0, -1);
    assert Repeat('0', -2) + ['0'] == "0";
  }

  function ShortThen(f: string): string { "h" + (['d'] + f) }

  function HexAlone(): string { "%" + (['x'] + "") }

  lemma ShortOfZeroThenHex(v: nat)
    requires v < TWO32
    ensures var s := "%" + ShortThen(HexAlone());
            && IsDefined(s, [0, v]) && OnlyIntegers(s) && Stores(IsoPieces(s, [0, v])) == []
            && Rendered(s, [0, v]) == "d" + "0" && Texts(IsoPieces(s, [0, v])) == "0" + UnsignedDigits(X(false), v)
  {
    ShortOfZero(HexAlone(), [0, v]);
    ShortThenHex(ShortThen(HexAlone()), HexAlone(), v);
  }

  /** So it is with length modifiers: for 0, 0 and 0xd0, "%#o%hd%x" prints 00d0, as it should, but made of 00, d and 0
      instead of 0, 0 and d0. */
  lemma ModifiersCancel()
    ensures var s := "%" + OctalThen("%" + ShortThen(HexAlone()));
            && IsDefined(s, [0, 0, 0xd0]) && OnlyIntegers(s)
            && PrintsRight(s, [0, 0, 0xd0]) && !Conforms(s, [0, 0, 0xd0])
  {
    ShortOfZeroThenHex(0xd0);
    HexDigits();
    CancelWith("%" + ShortThen(HexAlone()), 0xd0);
  }

  lemma CancelWith(f: string, v: int)
    requires IsDefined(f, [0, v]) && OnlyIntegers(f) && Stores(IsoPieces(f, [0, v])) == []
    requires Rendered(f, [0, v]) == "d" + "0" && Texts(IsoPieces(f, [0, v])) == "0" + "d0"
    ensures var s := "%" + OctalThen(f);
            && IsDefined(s, [0, 0, v]) && OnlyIntegers(s)
            && PrintsRight(s, [0, 0, v]) && !Conforms(s, [0, 0, v])
  {
    assert "d" + "0" == "d0";
    ZeroTooMuch(f, [0, v]);
    assert [0] + [0, v] == [0, 0, v];
  }

  lemma HexDigits()
    ensures UnsignedDigits(X(false), 0xd0) == "d0"
  {
    assert DigitsOf(0xd, 16, Lower) == "d";
    assert "d" + "0" == "d0";
  }
}
