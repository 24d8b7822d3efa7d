/** Formats as section 7.21.6.1 of ISO C11 reads them, as far as they convert integers: flags, field width,
    precision, length modifier and letter of a conversion, the arguments it takes, the text it prints, and where it
    stores something. An int, a long, a size_t and a pointer have 32 bits, a long long and an intmax_t have 64, the
    high ones first. */
module IsoFormat {
  import opened Conversions
  import opened Digits
  import opened IsoText

  // ----- flags, width and precision

  predicate FlagChar(c: char) { c == '-' || c == '+' || c == ' ' || c == '#' || c == '0' }

  /** The flags at the start. */
  function FlagsIn(s: string): (r: string)
    ensures r <= s
  {
    if s != [] && FlagChar(s[0]) then [s[0]] + FlagsIn(s[1..]) else []
  }

  /** The decimal digits at the start. */
  function DecimalsIn(s: string): (r: string)
    ensures r <= s
  {
    if s != [] && '0' <= s[0] <= '9' then [s[0]] + DecimalsIn(s[1..]) else []
  }

  function Behind(s: string, front: string): string
    requires front <= s
  {
    s[|front|..]
  }

  /** The width, an asterisk or digits, begins behind the flags. */
  function WidthText(s: string): (r: string)
    ensures |r| <= |s|
  {
    Behind(s, FlagsIn(s))
  }

  /** The precision, a full stop and an asterisk or digits or nothing, begins behind the width. */
  function PrecisionText(s: string): (r: string)
    ensures |r| <= |s|
  {
    var t := WidthText(s); if t != [] && t[0] == '*' then t[1..] else Behind(t, DecimalsIn(t))
  }

  /** What is behind flags, width and precision of a conversion. */
  function TailAt(s: string): (r: string)
    ensures |r| <= |s|
  {
    var t := PrecisionText(s);
    if t == [] || t[0] != '.' then t
    else if |t| > 1 && t[1] == '*' then t[2..]
    else Behind(t[1..], DecimalsIn(t[1..]))
  }

  predicate WidthStar(s: string) { WidthText(s) != [] && WidthText(s)[0] == '*' }

  predicate PrecisionStar(s: string) {
    var t := PrecisionText(s); |t| > 1 && t[0] == '.' && t[1] == '*'
  }

  /** The argument with that number, as an int. */
  function IntArg(args: seq<int>, k: nat): int {
    if k >= |args| then 0
    else var w := args[k] % 0x1_0000_0000; if w >= 0x8000_0000 then w - 0x1_0000_0000 else w
  }

  /** What the flags and the width ask for: a plus overrules a space, and a negative width argument is a flag '-' and
      its magnitude. */
  function IsoSpec(s: string, args: seq<int>): Spec {
    var flags, w := FlagsIn(s), if WidthStar(s) then IntArg(args, 0) else Number(DecimalsIn(WidthText(s)), 10);
    Spec('-' in flags || w < 0, if '0' in flags then '0' else ' ',
         if '+' in flags then '+' else if ' ' in flags then ' ' else '\0',
         '#' in flags, if w < 0 then -w else w)
  }

  /** A full stop alone is a precision of 0, and a negative argument is none; so is no full stop. */
  function IsoPrecision(s: string, args: seq<int>): int {
    var t := PrecisionText(s);
    if t == [] || t[0] != '.' then -1
    else if PrecisionStar(s) then IntArg(args, if WidthStar(s) then 1 else 0)
    else Number(DecimalsIn(t[1..]), 10)
  }

  // ----- length modifier and letter

  datatype Length = Plain | HH | H | L | LL | J | Z | T

  function LengthAt(t: string): Length {
    if t == [] then Plain
    else
      var double := |t| > 1 && t[1] == t[0];
      match t[0]
      case 'h' => if double then HH else H
      case 'l' => if double then LL else L
      case 'j' => J
      case 'z' => Z
      case 't' => T
      case _ => Plain
  }

  function Size(m: Length): nat { match m case Plain => 0 case HH => 2 case LL => 2 case _ => 1 }

  function AfterLength(t: string): (r: string)
    ensures |r| <= |t|
  {
    t[Size(LengthAt(t))..]
  }

  function LengthOf(s: string): Length { LengthAt(TailAt(s)) }

  function IsoLetterAt(s: string): (r: string)
    ensures |r| <= |s|
  {
    AfterLength(TailAt(s))
  }

  predicate IsSigned(letter: char) { letter == 'd' || letter == 'i' }

  predicate IsUnsigned(letter: char) { letter == 'u' || letter == 'o' || letter == 'x' || letter == 'X' }

  /** The conversion behind a % has a meaning: it is d, i, u, o, x or X with any length modifier, and # with the last
      three alone; or p, without a length modifier, a precision, # and 0; or n, with nothing but a length modifier;
      or %, with nothing. All else is undefined, or is a conversion of something other than integers. */
  predicate HasMeaning(s: string) {
    IsoLetterAt(s) != [] &&
    (var flags, c := FlagsIn(s), IsoLetterAt(s)[0];
     if c == '%' then s[0] == '%'
     else if c == 'n' then TailAt(s) == s
     else if c == 'p' then
       && LengthOf(s) == Plain && '#' !in flags && '0' !in flags
       && (PrecisionText(s) == [] || PrecisionText(s)[0] != '.')
     else (IsSigned(c) || IsUnsigned(c)) && ('#' in flags ==> c == 'o' || c == 'x' || c == 'X'))
  }

  function LetterOf(s: string): char
    requires HasMeaning(s)
  {
    IsoLetterAt(s)[0]
  }

  function RestOf(s: string): (r: string)
    requires HasMeaning(s)
    ensures |r| < |s|
  {
    IsoLetterAt(s)[1..]
  }

  // ----- arguments

  /** How many words the asterisks of a conversion take. */
  function Stars(s: string): nat {
    (if WidthStar(s) then 1 else 0) + (if PrecisionStar(s) then 1 else 0)
  }

  /** How many words an integer is. */
  function Words(m: Length): nat { if m == LL || m == J then 2 else 1 }

  /** How many words a conversion takes. */
  function Taken(s: string): nat
    requires HasMeaning(s)
  {
    Stars(s) + (if LetterOf(s) == '%' then 0 else if LetterOf(s) in {'p', 'n'} then 1 else Words(LengthOf(s)))
  }

  /** One more than the greatest unsigned number of that length. */
  function Range(m: Length): int {
    match m
    case HH => 0x100
    case H => 0x1_0000
    case LL => 0x1_0000_0000_0000_0000
    case J => 0x1_0000_0000_0000_0000
    case _ => 0x1_0000_0000
  }

  /** The word with that number. */
  function WordArg(args: seq<int>, k: nat): nat { if k >= |args| then 0 else args[k] % 0x1_0000_0000 }

  function UnsignedValue(m: Length, args: seq<int>, k: nat): (v: nat)
    ensures v < Range(m)
  {
    (if Words(m) == 2 then WordArg(args, k) * 0x1_0000_0000 + WordArg(args, k + 1) else WordArg(args, k)) % Range(m)
  }

  function SignedValue(m: Length, args: seq<int>, k: nat): int {
    var v := UnsignedValue(m, args, k); if v >= Range(m) / 2 then v - Range(m) else v
  }

  // ----- what is printed

  /** What one piece of a format comes to: its text, the addresses at which it stores a number, and how many words
      it takes. */
  datatype Piece = Piece(text: string, stores: seq<int>, taken: nat)

  /** The base of a letter, and its digits: octal, hexadecimal with small or with capital letters, or decimal. */
  function IsoConversion(letter: char): Conversion {
    match letter case 'o' => O case 'x' => X(false) case 'X' => X(true) case _ => U
  }

  /** The text of a conversion. That of %p is up to the implementation, and is what doprnt prints. */
  function TextOf(s: string, args: seq<int>): string
    requires HasMeaning(s)
  {
    var spec, p, c, m, k := IsoSpec(s, args), IsoPrecision(s, args), LetterOf(s), LengthOf(s), Stars(s);
    if IsSigned(c) then SignedIso(spec, p, SignedValue(m, args, k))
    else if IsUnsigned(c) then UnsignedIso(spec, p, IsoConversion(c), UnsignedValue(m, args, k))
    else if c == 'p' then UnsignedOutput(spec.(hash := true), X(false), WordArg(args, k))
    else if c == '%' then "%"
    else ""
  }

  function IsoPiece(s: string, args: seq<int>): Piece
    requires HasMeaning(s)
  {
    Piece(TextOf(s, args), if LetterOf(s) == 'n' then [WordArg(args, Stars(s))] else [], Taken(s))
  }

  /** Every conversion of the format has a meaning, and its arguments are there. */
  predicate IsDefined(s: string, args: seq<int>)
    decreases |s|
  {
    s == [] ||
    (if s[0] != '%' then IsDefined(s[1..], args)
     else HasMeaning(s[1..]) && |args| >= Taken(s[1..]) && IsDefined(RestOf(s[1..]), args[Taken(s[1..])..]))
  }

  /** The pieces of a format: characters that are printed as they are, and conversions. */
  function IsoPieces(s: string, args: seq<int>): seq<Piece>
    requires IsDefined(s, args)
    decreases |s|
  {
    if s == [] then []
    else if s[0] != '%' then [Piece([s[0]], [], 0)] + IsoPieces(s[1..], args)
    else [IsoPiece(s[1..], args)] + IsoPieces(RestOf(s[1..]), args[Taken(s[1..])..])
  }

  function Texts(ps: seq<Piece>): string { if ps == [] then "" else ps[0].text + Texts(ps[1..]) }

  function Stores(ps: seq<Piece>): seq<int> { if ps == [] then [] else ps[0].stores + Stores(ps[1..]) }

  lemma OnePieceMore(p: Piece, ps: seq<Piece>)
    ensures Texts([p] + ps) == p.text + Texts(ps) && Stores([p] + ps) == p.stores + Stores(ps)
  {
    assert ([p] + ps)[1..] == ps;
  }
}
