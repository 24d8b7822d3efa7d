/** Digits, and the numbers they denote. */
module Digits {
  import opened Machine

  function Code(c: char): int { c as int }

  /** The value of a letter or decimal digit as a digit, in either case; 99 for any other character. */
  function DigitValue(c: char): int {
    if '0' <= c <= '9' then Code(c) - Code('0')
    else if 'a' <= c <= 'z' then 10 + Code(c) - Code('a')
    else if 'A' <= c <= 'Z' then 10 + Code(c) - Code('A')
    else 99
  }

  predicate AllDigits(s: string, base: int) {
    forall i :: 0 <= i < |s| ==> DigitValue(s[i]) < base
  }

  /** The number that digits denote, the last one counting least. */
  function Number(s: string, base: int): int {
    if s == [] then 0 else Number(s[..|s| - 1], base) * base + DigitValue(s[|s| - 1])
  }

  lemma NumberStep(s: string, c: char, base: int)
    ensures Number(s + [c], base) == Number(s, base) * base + DigitValue(c)
  {
    assert (s + [c])[..|s|] == s;
  }

  /** A leading zero makes no difference. */
  lemma {:induction false} LeadingZero(s: string, base: int)
    ensures Number("0" + s, base) == Number(s, base)
    decreases |s|
  {
    if s == [] {
      assert "0" + s == [] + ['0'];
      NumberStep([], '0', base);
    } else {
      var n := |s| - 1;
      LeadingZero(s[..n], base);
      assert "0" + s == ("0" + s[..n]) + [s[n]];
      NumberStep("0" + s[..n], s[n], base);
    }
  }

  // ----- writing numbers

  /** What digits are taken from: the table of small letters or that of capitals, or what lies in front of the table
      when a remainder is negative: there, -1 finds the last of the characters. */
  datatype Numerals = Lower | Upper | InFront(chars: string)

  predicate Usable(t: Numerals) { t.InFront? ==> |t.chars| == 15 }

  function Numeral(d: int, t: Numerals): char
    requires 0 <= d < 16 && Usable(t)
  {
    if t.InFront? && d > 0 then t.chars[15 - d]
    else if d < 10 then '0' + d as char
    else (if t == Upper then 'A' else 'a') + (d - 10) as char
  }

  /** The tables, in full. */
  lemma NumeralsAre(d: int)
    requires 0 <= d < 16
    ensures Numeral(d, Lower) == "0123456789abcdef"[d] && Numeral(d, Upper) == "0123456789ABCDEF"[d]
  {
  }

  /** The digits, in full: no other character is a digit of a base up to 36. */
  lemma DigitValuesAre(c: char)
    ensures '0' <= c <= '9' ==> DigitValue(c) == c as int - 48
    ensures 'a' <= c <= 'z' ==> DigitValue(c) == c as int - 87
    ensures 'A' <= c <= 'Z' ==> DigitValue(c) == c as int - 55
    ensures !('0' <= c <= '9') && !('a' <= c <= 'z') && !('A' <= c <= 'Z') ==> DigitValue(c) > 36
  {
  }

  /** The digits of v, without leading zeros. */
  function DigitsOf(v: nat, radix: int, t: Numerals): (s: string)
    requires 2 <= radix <= 16 && Usable(t)
    ensures s != []
  {
    if v < radix then [Numeral(v, t)] else DigitsOf(v / radix, radix, t) + [Numeral(v % radix, t)]
  }

  lemma NumeralValue(d: int, t: Numerals)
    requires 0 <= d < 16 && !t.InFront?
    ensures DigitValue(Numeral(d, t)) == d
  {
  }

  /** Which digits a number has. */
  function DigitSet(v: nat, radix: int): (r: set<int>)
    requires 2 <= radix <= 16
    ensures forall d :: d in r ==> 0 <= d < radix
  {
    if v < radix then {v} else DigitSet(v / radix, radix) + {v % radix}
  }

  /** In front of the table there is the numeral of the digit, as far from it as the digit is behind its start. */
  predicate Mirrored(chars: string, d: int)
    requires |chars| == 15 && 0 <= d < 16
  {
    d > 0 ==> chars[15 - d] == Numeral(d, Lower)
  }

  predicate AllMirrored(chars: string, ds: set<int>)
    requires |chars| == 15 && forall d :: d in ds ==> 0 <= d < 16
  {
    forall d :: d in ds ==> Mirrored(chars, d)
  }

  /** What lies in front of the table does as well exactly if all digits of the number are mirrored there. */
  lemma {:induction false} DigitsInFront(v: nat, radix: int, chars: string)
    requires 2 <= radix <= 16 && |chars| == 15
    ensures DigitsOf(v, radix, InFront(chars)) == DigitsOf(v, radix, Lower) <==> AllMirrored(chars, DigitSet(v, radix))
  {
    if v >= radix {
      var q, d := v / radix, v % radix;
      DigitsInFront(q, radix, chars);
      OneMore(DigitsOf(q, radix, InFront(chars)), DigitsOf(q, radix, Lower), chars, DigitSet(q, radix), d);
    } else {
      OneMore("", "", chars, {}, v);
    }
  }

  lemma OneMore(s: string, t: string, chars: string, ds: set<int>, d: int)
    requires |chars| == 15 && 0 <= d < 16 && forall e :: e in ds ==> 0 <= e < 16
    requires s == t <==> AllMirrored(chars, ds)
    ensures s + [Numeral(d, InFront(chars))] == t + [Numeral(d, Lower)] <==> AllMirrored(chars, ds + {d})
  {
    SameLast(s, t, Numeral(d, InFront(chars)), Numeral(d, Lower));
    OneMirrored(chars, ds, d);
  }

  lemma OneMirrored(chars: string, ds: set<int>, d: int)
    requires |chars| == 15 && 0 <= d < 16 && forall e :: e in ds ==> 0 <= e < 16
    ensures AllMirrored(chars, ds + {d}) <==> AllMirrored(chars, ds) && Mirrored(chars, d)
  {
    assert d in ds + {d};
    assert forall e :: e in ds ==> e in ds + {d};
  }

  lemma SameLast(s: string, t: string, c: char, d: char)
    ensures s + [c] == t + [d] <==> s == t && c == d
  {
    if s + [c] == t + [d] {
      assert (s + [c])[..|s|] == s && (t + [d])[..|t|] == t;
      assert (s + [c])[|s|] == c && (t + [d])[|t|] == d;
    }
  }

  lemma DivSmaller(v: nat, radix: int)
    requires 2 <= radix <= v
    ensures 1 <= v / radix < v && v == v / radix * radix + v % radix
  {
  }

  lemma OneDigit(v: nat, radix: int)
    requires v < radix
    ensures v / radix == 0 && v % radix == v
  {
  }

  /** The digits of v denote v, and are digits of the radix. */
  lemma {:induction false} DigitsDenote(v: nat, radix: int, t: Numerals)
    requires 2 <= radix <= 16 && !t.InFront?
    ensures AllDigits(DigitsOf(v, radix, t), radix) && Number(DigitsOf(v, radix, t), radix) == v
  {
    if v < radix {
      NumeralValue(v, t);
      assert DigitsOf(v, radix, t) == [] + [Numeral(v, t)];
      NumberStep([], Numeral(v, t), radix);
    } else {
      var q, d := v / radix, v % radix;
      DivSmaller(v, radix);
      DigitsDenote(q, radix, t);
      NumeralValue(d, t);
      NumberStep(DigitsOf(q, radix, t), Numeral(d, t), radix);
    }
  }

  /** Only 0 is written with a zero in front. */
  lemma {:induction false} NoLeadingZero(v: nat, radix: int, t: Numerals)
    requires 2 <= radix <= 16 && !t.InFront?
    ensures DigitsOf(v, radix, t)[0] == '0' <==> v == 0
    ensures v == 0 ==> DigitsOf(v, radix, t) == "0"
  {
    if v >= radix {
      DivSmaller(v, radix);
      NoLeadingZero(v / radix, radix, t);
    }
  }

  /** A number of n bits has at most n digits. */
  lemma {:induction false} DigitCount(v: nat, radix: int, t: Numerals, n: nat)
    requires 2 <= radix <= 16 && Usable(t) && n >= 1 && v < Pow2(n)
    ensures |DigitsOf(v, radix, t)| <= n
  {
    if v >= radix {
      DivSmaller(v, radix);
      HalfAtMost(v, radix);
      assert n > 1 && v / radix < Pow2(n - 1);
      DigitCount(v / radix, radix, t, n - 1);
    }
  }

  lemma HalfAtMost(v: nat, radix: int)
    requires radix >= 2
    ensures 2 * (v / radix) <= v
  {
    assert v / radix * radix <= v;
    assert 2 * (v / radix) <= radix * (v / radix);
  }

  lemma Bits32(v: nat)
    requires v < TWO32
    ensures v < Pow2(32)
  {
    assert Pow2(8) == 0x100;
    assert Pow2(16) == 0x1_0000;
    assert Pow2(24) == 0x100_0000;
  }

  lemma AtMost32Digits(v: nat, radix: int, t: Numerals)
    requires 2 <= radix <= 16 && Usable(t) && v < TWO32
    ensures |DigitsOf(v, radix, t)| <= 32
  {
    Bits32(v);
    DigitCount(v, radix, t, 32);
  }

  function Reversed(s: string): (r: string)
    ensures |r| == |s| && forall i :: 0 <= i < |s| ==> r[i] == s[|s| - 1 - i]
  {
    if s == [] then [] else Reversed(s[1..]) + [s[0]]
  }

  lemma ReversedStep(s: string, c: char)
    ensures Reversed(s + [c]) == [c] + Reversed(s)
  {
  }

  /** The text of an integer. */
  function IntText(v: int, radix: int): string
    requires 2 <= radix <= 16
  {
    if v < 0 then "-" + DigitsOf(-v, radix, Lower) else DigitsOf(v, radix, Lower)
  }
}
