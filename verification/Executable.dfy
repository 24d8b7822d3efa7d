/** GEMDOS executables: header, text and data, symbols, relocation table, and what the loader makes of them. */
module Executable {
  import opened Machine
  import opened Memory

  type Bytes = seq<Byte>

  const SIZEOF_AEXEC := 28
  const SIZEOF_BINUTILS_AEXEC := 228
  const SIZEOF_LONG := 4
  const CMAGIC := 0x601A

  // ----- big-endian fields

  function ReadWord(s: Bytes, i: nat): int
    requires i + 2 <= |s|
  {
    (s[i] as int) * 0x100 + s[i + 1] as int
  }

  function ReadLong(s: Bytes, i: nat): (v: int)
    requires i + 4 <= |s|
    ensures 0 <= v < TWO32
  {
    Compose(0, s[i..i + 4])
  }

  function EncWord(v: int): Bytes {
    [Digit(v, 2), Digit(v, 3)]
  }

  function EncLong(v: int): (s: Bytes)
    ensures |s| == 4
  {
    [Digit(v, 0), Digit(v, 1), Digit(v, 2), Digit(v, 3)]
  }

  lemma LongRoundTrip(v: int)
    ensures ReadLong(EncLong(v), 0) == v % TWO32
  {
    var top, b := Decompose(v);
    assert EncLong(v)[0..4] == b;
    assert v == top * TWO32 + Compose(0, b);
    ModUnique(v, top, Compose(0, b));
  }

  lemma ModUnique(v: int, q: int, r: int)
    requires v == q * TWO32 + r && 0 <= r < TWO32
    ensures v % TWO32 == r
  {
  }

  lemma WordRoundTrip(v: int)
    requires 0 <= v < 0x1_0000
    ensures ReadWord(EncWord(v), 0) == v
  {
  }

  // ----- relocation

  /** Adds d to the long at offset o. */
  function FixOne(img: Bytes, o: int, d: int): (r: Bytes)
    requires 0 <= o && o + 4 <= |img|
    ensures |r| == |img|
  {
    img[..o] + EncLong(ReadLong(img, o) + d) + img[o + 4..]
  }

  ghost predicate Inside(offs: seq<int>, lo: int, hi: int) {
    forall i {:trigger offs[i]} :: 0 <= i < |offs| ==> lo <= offs[i] && offs[i] + 4 <= hi
  }

  ghost predicate NoOverlap(offs: seq<int>) {
    forall i, j {:trigger offs[i], offs[j]} :: 0 <= i < j < |offs| ==> offs[i] + 4 <= offs[j]
  }

  /** Adds d to the long at each of the offsets, in their order. */
  ghost function Fix(img: Bytes, offs: seq<int>, d: int): (r: Bytes)
    requires Inside(offs, 0, |img|)
    ensures |r| == |img|
    decreases |offs|
  {
    if offs == [] then img else Fix(FixOne(img, offs[0], d), offs[1..], d)
  }

  function Shift(offs: seq<int>, d: int): (r: seq<int>)
    ensures |r| == |offs| && forall i :: 0 <= i < |offs| ==> r[i] == offs[i] + d
  {
    seq(|offs|, i requires 0 <= i < |offs| => offs[i] + d)
  }

  /** The bytes of a relocation table after its first long: the fixups they add behind the one at p. */
  function Steps(s: Bytes, p: int): seq<int> {
    if s == [] || s[0] == 0 then []
    else if s[0] == 1 then Steps(s[1..], p + 254)
    else [p + s[0] as int] + Steps(s[1..], p + s[0] as int)
  }

  /** A distance of 254 k + b is k bytes 1 and a byte b that is neither 0 nor 1. */
  lemma {:induction false} StepsAreDistances(ones: Bytes, b: Byte, rest: Bytes, p: int)
    requires b > 1 && forall i :: 0 <= i < |ones| ==> ones[i] == 1
    ensures var q := p + 254 * |ones| + b as int;
            Steps(ones + [b] + rest, p) == [q] + Steps(rest, q)
    decreases |ones|
  {
    var s := ones + [b] + rest;
    if ones == [] {
      assert s == [b] + rest;
    } else {
      StepsAreDistances(ones[1..], b, rest, p + 254);
      assert s[1..] == ones[1..] + [b] + rest;
    }
  }

  /** All fixups of a relocation table; none if its first long is 0 or it is missing. */
  function Fixups(s: Bytes): seq<int> {
    if |s| < 4 || ReadLong(s, 0) == 0 then [] else [ReadLong(s, 0)] + Steps(s[4..], ReadLong(s, 0))
  }

  /** How much of the steps is read: up to the terminating 0, or everything. */
  function Consumed(s: Bytes): (n: nat)
    ensures n <= |s|
  {
    if s == [] then 0 else if s[0] == 0 then 1 else 1 + Consumed(s[1..])
  }

  /** The first k bytes end with the first 0, or are all there are and have none. */
  predicate EndsAtZero(s: Bytes, k: int) {
    && 0 <= k <= |s| && (forall i :: 0 <= i < k - 1 ==> s[i] != 0)
    && (if k > 0 && s[k - 1] == 0 then true else k == |s|)
  }

  lemma {:induction false} ConsumedToZero(s: Bytes, k: int)
    requires EndsAtZero(s, k)
    ensures Consumed(s) == k
  {
    if k > 1 {
      var t := s[1..];
      assert t[k - 2] == s[k - 1] && forall i :: 0 <= i < k - 2 ==> t[i] == s[i + 1];
      ConsumedToZero(t, k - 1);
    } else if k == 1 && s[0] != 0 {
      assert s[1..] == [];
    }
  }

  lemma ShiftFirst(x: int, offs: seq<int>, d: int)
    ensures Shift([x] + offs, d) == [x + d] + Shift(offs, d)
  {
  }

  lemma {:induction false} StepsShift(s: Bytes, p: int, d: int)
    ensures Steps(s, p + d) == Shift(Steps(s, p), d)
  {
    if s == [] || s[0] == 0 {
    } else if s[0] == 1 {
      StepsShift(s[1..], p + 254, d);
      assert p + d + 254 == p + 254 + d;
    } else {
      var q, rest := p + s[0] as int, s[1..];
      StepsShift(rest, q, d);
      ShiftFirst(q, Steps(rest, q), d);
      assert Steps(s, p + d) == [q + d] + Steps(rest, q + d);
    }
  }

  /** Only what is read of the table matters. */
  lemma {:induction false} StepsOfConsumed(s: Bytes, p: int)
    ensures Steps(s[..Consumed(s)], p) == Steps(s, p)
  {
    if s != [] {
      var c := s[..Consumed(s)];
      assert c[0] == s[0];
      if s[0] != 0 {
        assert c[1..] == s[1..][..Consumed(s[1..])];
        StepsOfConsumed(s[1..], if s[0] == 1 then p + 254 else p + s[0] as int);
      }
    }
  }

  // ----- what fixups do to an image

  lemma ReadSlice(img: Bytes, k: int, o: int)
    requires 0 <= k <= o && o + 4 <= |img|
    ensures ReadLong(img[k..], o - k) == ReadLong(img, o)
  {
    assert img[k..][o - k..o - k + 4] == img[o..o + 4];
  }

  lemma FixOneShift(img: Bytes, k: int, o: int, d: int)
    requires 0 <= k <= o && o + 4 <= |img|
    ensures FixOne(img, o, d)[k..] == FixOne(img[k..], o - k, d)
  {
    ReadSlice(img, k, o);
  }

  lemma ShiftInside(offs: seq<int>, k: int, n: int)
    requires Inside(offs, k, n)
    ensures Inside(Shift(offs, -k), 0, n - k)
  {
    var r := Shift(offs, -k);
    forall i | 0 <= i < |r| ensures 0 <= r[i] && r[i] + 4 <= n - k { assert k <= offs[i]; }
  }

  lemma TailInside(offs: seq<int>, lo: int, hi: int)
    requires Inside(offs, lo, hi) && offs != []
    ensures Inside(offs[1..], lo, hi)
  {
    var rest := offs[1..];
    forall i | 0 <= i < |rest| ensures lo <= rest[i] && rest[i] + 4 <= hi { assert rest[i] == offs[i + 1]; }
  }

  /** Fixing up and cutting the front off can change places. */
  lemma {:induction false} FixShift(img: Bytes, k: int, offs: seq<int>, d: int)
    requires 0 <= k <= |img| && Inside(offs, k, |img|)
    ensures Inside(Shift(offs, -k), 0, |img[k..]|)
    ensures Fix(img, offs, d)[k..] == Fix(img[k..], Shift(offs, -k), d)
    decreases |offs|
  {
    ShiftInside(offs, k, |img|);
    if offs != [] {
      TailInside(offs, k, |img|);
      FixOneShift(img, k, offs[0], d);
      FixShift(FixOne(img, offs[0], d), k, offs[1..], d);
      assert Shift(offs, -k)[1..] == Shift(offs[1..], -k);
      assert Shift(offs, -k)[0] == offs[0] - k;
    }
  }

  lemma FixOneReads(img: Bytes, o: int, d: int, p: int)
    requires 0 <= o && o + 4 <= |img| && 0 <= p && p + 4 <= |img| && (o + 4 <= p || p + 4 <= o || p == o)
    ensures ReadLong(FixOne(img, o, d), p) == if p == o then (ReadLong(img, o) + d) % TWO32 else ReadLong(img, p)
  {
    var r := FixOne(img, o, d);
    if p == o {
      LongRoundTrip(ReadLong(img, o) + d);
      assert r[o..o + 4] == EncLong(ReadLong(img, o) + d) == EncLong(ReadLong(img, o) + d)[0..4];
    } else {
      assert r[p..p + 4] == img[p..p + 4];
    }
  }

  lemma EncLongMod(v: int, w: int)
    requires v % TWO32 == w % TWO32
    ensures EncLong(v) == EncLong(w)
  {
    var q := v / TWO32 - w / TWO32;
    assert v == w + q * TWO32;
    var top, b := Decompose(w);
    forall k | 0 <= k < 4 ensures Digit(v, k) == Digit(w, k) {
      assert v == Compose(top + q, b);
      ComposedDigit(top + q, b, k);
    }
  }

  lemma FixOneTwice(img: Bytes, o: int, a: int, b: int)
    requires 0 <= o && o + 4 <= |img|
    ensures FixOne(FixOne(img, o, a), o, b) == FixOne(img, o, a + b)
  {
    FixOneReads(img, o, a, o);
    var v := ReadLong(img, o);
    EncLongMod((v + a) % TWO32 + b, v + (a + b));
  }

  lemma FixOneCommutes(img: Bytes, o: int, a: int, p: int, b: int)
    requires 0 <= o && o + 4 <= p && p + 4 <= |img|
    ensures FixOne(FixOne(img, o, a), p, b) == FixOne(FixOne(img, p, b), o, a)
  {
    FixOneReads(img, o, a, p);
    FixOneReads(img, p, b, o);
    PatchesCommute(img, o, EncLong(ReadLong(img, o) + a), p, EncLong(ReadLong(img, p) + b));
  }

  lemma PatchesCommute(img: Bytes, o: int, u: Bytes, p: int, w: Bytes)
    requires 0 <= o && o + 4 <= p && p + 4 <= |img| && |u| == 4 && |w| == 4
    ensures var x, y := img[..o] + u + img[o + 4..], img[..p] + w + img[p + 4..];
            x[..p] + w + x[p + 4..] == y[..o] + u + y[o + 4..]
  {
    var x, y := img[..o] + u + img[o + 4..], img[..p] + w + img[p + 4..];
    assert x[..p] == img[..o] + u + img[o + 4..p];
    assert x[p + 4..] == img[p + 4..];
    assert y[..o] == img[..o];
    assert y[o + 4..] == img[o + 4..p] + w + img[p + 4..];
  }

  lemma {:induction false} FixCommutes(img: Bytes, o: int, a: int, offs: seq<int>, b: int)
    requires 0 <= o && o + 4 <= |img| && Inside(offs, o + 4, |img|)
    ensures Fix(FixOne(img, o, a), offs, b) == FixOne(Fix(img, offs, b), o, a)
    decreases |offs|
  {
    if offs != [] {
      FixOneCommutes(img, o, a, offs[0], b);
      FixCommutes(FixOne(img, offs[0], b), o, a, offs[1..], b);
    }
  }

  /** Fixing up by a, then by b, is fixing up by a + b, modulo 2^32, as long as no two fixups overlap. */
  lemma {:induction false} FixTwice(img: Bytes, offs: seq<int>, a: int, b: int)
    requires Inside(offs, 0, |img|) && NoOverlap(offs)
    ensures Fix(Fix(img, offs, a), offs, b) == Fix(img, offs, a + b)
    decreases |offs|
  {
    if offs != [] {
      var o, rest := offs[0], offs[1..];
      var img1 := FixOne(img, o, a);
      assert Inside(rest, o + 4, |img|) by {
        forall i | 0 <= i < |rest| ensures o + 4 <= rest[i] && rest[i] + 4 <= |img| { assert rest[i] == offs[i + 1]; }
      }
      FixCommutes(img1, o, b, rest, a);
      FixOneTwice(img, o, a, b);
      FixTwice(FixOne(img1, o, b), rest, a, b);
    }
  }

  lemma FixNothing(img: Bytes, d: int)
    ensures Inside([], 0, |img|) && Fix(img, [], d) == img
  {
  }

  /** Fixups may as well be made one at a time, as a stream of them comes in. */
  lemma {:induction false} FixOneMore(img: Bytes, offs: seq<int>, o: int, d: int)
    requires Inside(offs, 0, |img|) && 0 <= o && o + 4 <= |img|
    ensures Inside(offs + [o], 0, |img|)
    ensures Fix(img, offs + [o], d) == FixOne(Fix(img, offs, d), o, d)
    decreases |offs|
  {
    assert Inside(offs + [o], 0, |img|);
    if offs == [] {
      assert [] + [o] == [o];
      FixNothing(FixOne(img, o, d), d);
      assert [o][1..] == [];
    } else {
      TailInside(offs, 0, |img|);
      FixOneMore(FixOne(img, offs[0], d), offs[1..], o, d);
      assert (offs + [o])[1..] == offs[1..] + [o];
    }
  }

  /** A fixup in the middle of a file. */
  lemma FixOneEmbedded(front: Bytes, img: Bytes, back: Bytes, o: int, d: int)
    requires 0 <= o && o + 4 <= |img|
    ensures FixOne(front + img + back, |front| + o, d) == front + FixOne(img, o, d) + back
  {
    var f, p := front + img + back, |front| + o;
    assert f[p..p + 4] == img[o..o + 4];
    assert f[..p] == front + img[..o];
    assert f[p + 4..] == img[o + 4..] + back;
  }

  // ----- the file as a whole

  datatype Head = Head(magic: int, text: int, data: int, bss: int, syms: int, zero1: int, zero2: int, isreloc: int)

  function ParseHead(f: Bytes): Head
    requires |f| >= SIZEOF_AEXEC
  {
    Head(ReadWord(f, 0), ReadLong(f, 2), ReadLong(f, 6), ReadLong(f, 10), ReadLong(f, 14),
         ReadLong(f, 18), ReadLong(f, 22), ReadWord(f, 26))
  }

  function EncHead(h: Head): (s: Bytes)
    ensures |s| == SIZEOF_AEXEC
  {
    EncWord(h.magic) + EncLong(h.text) + EncLong(h.data) + EncLong(h.bss) + EncLong(h.syms)
    + EncLong(h.zero1) + EncLong(h.zero2) + EncWord(h.isreloc)
  }

  function BigEndian(a: Byte, b: Byte, c: Byte, d: Byte): int {
    a as int * 0x100_0000 + b as int * 0x1_0000 + c as int * 0x100 + d as int
  }

  /** Where the fields are: words at 0 and 26, longs at 2, 6, 10, 14, 18 and 22, the high byte first. */
  lemma HeadLayout(f: Bytes)
    requires |f| >= 28
    ensures var h := ParseHead(f);
            && h.magic == f[0] as int * 0x100 + f[1] as int
            && h.text == BigEndian(f[2], f[3], f[4], f[5]) && h.data == BigEndian(f[6], f[7], f[8], f[9])
            && h.bss == BigEndian(f[10], f[11], f[12], f[13]) && h.syms == BigEndian(f[14], f[15], f[16], f[17])
            && h.zero1 == BigEndian(f[18], f[19], f[20], f[21]) && h.zero2 == BigEndian(f[22], f[23], f[24], f[25])
            && h.isreloc == f[26] as int * 0x100 + f[27] as int
  {
    LongLayout(f, 2);
    LongLayout(f, 6);
    LongLayout(f, 10);
    LongLayout(f, 14);
    LongLayout(f, 18);
    LongLayout(f, 22);
  }

  lemma LongLayout(f: Bytes, i: nat)
    requires i + 4 <= |f|
    ensures ReadLong(f, i) == BigEndian(f[i], f[i + 1], f[i + 2], f[i + 3])
  {
    var s := f[i..i + 4];
    assert s[0] == f[i] && s[1] == f[i + 1] && s[2] == f[i + 2] && s[3] == f[i + 3];
  }

  predicate InRange(h: Head) {
    && 0 <= h.magic < 0x1_0000 && 0 <= h.isreloc < 0x1_0000
    && 0 <= h.text < TWO32 && 0 <= h.data < TWO32 && 0 <= h.bss < TWO32 && 0 <= h.syms < TWO32
    && 0 <= h.zero1 < TWO32 && 0 <= h.zero2 < TWO32
  }

  lemma HeadInRange(f: Bytes)
    requires |f| >= SIZEOF_AEXEC
    ensures InRange(ParseHead(f))
  {
  }

  lemma ReadAt(f: Bytes, i: nat, v: int)
    requires i + 4 <= |f| && f[i..i + 4] == EncLong(v) && 0 <= v < TWO32
    ensures ReadLong(f, i) == v
  {
    LongRoundTrip(v);
    assert EncLong(v)[0..4] == EncLong(v);
  }

  lemma HeadRoundTrip(h: Head, rest: Bytes)
    requires InRange(h)
    ensures ParseHead(EncHead(h) + rest) == h
  {
    var f := EncHead(h) + rest;
    assert f[2..6] == EncLong(h.text);
    assert f[6..10] == EncLong(h.data);
    assert f[10..14] == EncLong(h.bss);
    assert f[14..18] == EncLong(h.syms);
    assert f[18..22] == EncLong(h.zero1);
    assert f[22..26] == EncLong(h.zero2);
    ReadAt(f, 2, h.text);
    ReadAt(f, 6, h.data);
    ReadAt(f, 10, h.bss);
    ReadAt(f, 14, h.syms);
    ReadAt(f, 18, h.zero1);
    ReadAt(f, 22, h.zero2);
    assert f[0] == EncWord(h.magic)[0] && f[1] == EncWord(h.magic)[1];
    assert f[26] == EncWord(h.isreloc)[0] && f[27] == EncWord(h.isreloc)[1];
    WordRoundTrip(h.magic);
    WordRoundTrip(h.isreloc);
  }

  predicate HasSegments(f: Bytes) {
    |f| >= SIZEOF_AEXEC && var h := ParseHead(f); SIZEOF_AEXEC + h.text + h.data + h.syms <= |f|
  }

  /** Text and data, as they are in the file. */
  function ImageOf(f: Bytes): Bytes
    requires HasSegments(f)
  {
    var h := ParseHead(f); f[SIZEOF_AEXEC..SIZEOF_AEXEC + h.text + h.data]
  }

  /** A file put together from a header, an image of the size the header says, no symbols, and a table. */
  lemma AssembledFile(h: Head, img: Bytes, table: Bytes)
    requires InRange(h) && |img| == h.text + h.data && h.syms == 0
    ensures var f := EncHead(h) + img + table;
            HasSegments(f) && ParseHead(f) == h && ImageOf(f) == img
            && TableOf(f) == if h.isreloc == 0 then table else []
  {
    var f := EncHead(h) + img + table;
    HeadRoundTrip(h, img + table);
    assert f == EncHead(h) + (img + table);
    assert f[SIZEOF_AEXEC..SIZEOF_AEXEC + |img|] == img;
    assert f[SIZEOF_AEXEC + |img|..] == table;
  }

  /** The relocation table, with whatever follows it. */
  function TableOf(f: Bytes): Bytes
    requires HasSegments(f)
  {
    var h := ParseHead(f); if h.isreloc == 0 then f[SIZEOF_AEXEC + h.text + h.data + h.syms..] else []
  }

  function FixupsOf(f: Bytes): seq<int>
    requires HasSegments(f)
  {
    Fixups(TableOf(f))
  }

  /** The magic number is right, fixups lie within text and data, and no two of them overlap. */
  ghost predicate Loadable(f: Bytes) {
    HasSegments(f) && ParseHead(f).magic == 0x601A && Inside(FixupsOf(f), 0, |ImageOf(f)|) && NoOverlap(FixupsOf(f))
  }

  /** What GEMDOS leaves in memory when it loads f with its text segment at address t. */
  ghost function LoadAt(f: Bytes, t: int): Bytes
    requires Loadable(f)
  {
    Fix(ImageOf(f), FixupsOf(f), t)
  }
}
