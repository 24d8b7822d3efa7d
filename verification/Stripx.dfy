/** stripx: takes the 228-byte binutils header, and the symbols, out of an executable. */
module Stripx {
  import opened Executable
  import opened Machine
  import opened Memory

  const NEWBUFSIZ := 16384
  const MINT_MAGIC := 0x4d694e54
  const JUMP_SIZE := 32      // the part of the binutils header that is looked at

  // ----- what the program makes of a file

  function OutHead(h: Head): Head {
    h.(text := (h.text - SIZEOF_BINUTILS_AEXEC) % TWO32, syms := 0,
       zero1 := if h.zero1 == MINT_MAGIC then 0 else h.zero1)
  }

  /** The fixups that are carried over: none when the first one is at the very start of the new text. */
  function CarriedOver(table: Bytes): seq<int> {
    if |table| < 4 || ReadLong(table, 0) == SIZEOF_BINUTILS_AEXEC then []
    else Shift(Fixups(table), -SIZEOF_BINUTILS_AEXEC)
  }

  function OutTable(table: Bytes): Bytes {
    if |table| < 4 then []
    else
      var first := ReadLong(table, 0);
      if first == 0 || first == SIZEOF_BINUTILS_AEXEC then EncLong(0)
      else EncLong(first - SIZEOF_BINUTILS_AEXEC) + table[4..4 + Consumed(table[4..])]
  }

  /** A table that stripx can carry over: fixups in what remains of the text, or in the data. */
  ghost predicate TableFits(table: Bytes, size: int) {
    && (table == [] || |table| >= 4)
    && Inside(Fixups(table), SIZEOF_BINUTILS_AEXEC, size)
  }

  /** The tests that strip makes on the start of the file. */
  predicate HasAexecHeader(f: Bytes) {
    && |f| >= SIZEOF_AEXEC + JUMP_SIZE
    && ParseHead(f).magic == CMAGIC
    && (var m1, m2 := ReadLong(f, SIZEOF_AEXEC), ReadLong(f, SIZEOF_AEXEC + 4);
        (m1 == 0x283a001a && m2 == 0x4efb48fa) || (m1 == 0x203a001a && m2 == 0x4efb08fa))
    && ReadLong(f, SIZEOF_AEXEC + 28) == SIZEOF_BINUTILS_AEXEC
  }

  /** A valid executable with such a header. */
  ghost predicate Strippable(f: Bytes) {
    && HasAexecHeader(f) && Loadable(f)
    && ParseHead(f).text >= SIZEOF_BINUTILS_AEXEC
    && (ParseHead(f).isreloc == 0 ==> TableFits(TableOf(f), |ImageOf(f)|))
  }

  ghost function Stripped(f: Bytes): Bytes
    requires Strippable(f)
  {
    var img := ImageOf(f)[SIZEOF_BINUTILS_AEXEC..];
    CarriedInside(TableOf(f), |ImageOf(f)|);
    EncHead(OutHead(ParseHead(f))) + Fix(img, CarriedOver(TableOf(f)), -SIZEOF_BINUTILS_AEXEC) + OutTable(TableOf(f))
  }

  lemma CarriedInside(table: Bytes, size: int)
    requires TableFits(table, size)
    ensures Inside(CarriedOver(table), 0, size - SIZEOF_BINUTILS_AEXEC)
  {
    ShiftInside(Fixups(table), SIZEOF_BINUTILS_AEXEC, size);
  }

  // ----- the relocation table

  /** The output table lists exactly the fixups carried over. */
  lemma OutTableFixups(table: Bytes, size: int)
    requires TableFits(table, size)
    ensures Fixups(OutTable(table)) == CarriedOver(table)
  {
    if |table| >= 4 {
      var first := ReadLong(table, 0);
      if first == 0 || first == SIZEOF_BINUTILS_AEXEC {
        LongRoundTrip(0);
        assert EncLong(0)[0..4] == EncLong(0);
      } else {
        assert Fixups(table)[0] == first;
        FixupsOfTail(table[4..], first);
        assert OutTable(table) == EncLong(first - SIZEOF_BINUTILS_AEXEC) + table[4..][..Consumed(table[4..])];
      }
    }
  }

  lemma FixupsOfTail(rest: Bytes, first: int)
    requires SIZEOF_BINUTILS_AEXEC < first < TWO32
    ensures Fixups(EncLong(first - SIZEOF_BINUTILS_AEXEC) + rest[..Consumed(rest)])
         == Shift([first] + Steps(rest, first), -SIZEOF_BINUTILS_AEXEC)
  {
    var at := first - SIZEOF_BINUTILS_AEXEC;
    var c := rest[..Consumed(rest)];
    FixupsOfParts(c, at);
    StepsOfConsumed(rest, at);
    StepsShift(rest, first, -SIZEOF_BINUTILS_AEXEC);
    ShiftFirst(first, Steps(rest, first), -SIZEOF_BINUTILS_AEXEC);
  }

  lemma FixupsOfParts(c: Bytes, at: int)
    requires 0 < at < TWO32
    ensures Fixups(EncLong(at) + c) == [at] + Steps(c, at)
  {
    var s := EncLong(at) + c;
    assert s[0..4] == EncLong(at);
    ReadAt(s, 0, at);
    assert s[4..] == c;
  }

  // ----- meaning

  lemma StrippedSegments(f: Bytes)
    requires Strippable(f)
    ensures HasSegments(Stripped(f)) && ParseHead(Stripped(f)) == OutHead(ParseHead(f))
    ensures Inside(CarriedOver(TableOf(f)), 0, |ImageOf(f)| - SIZEOF_BINUTILS_AEXEC)
    ensures ImageOf(Stripped(f))
            == Fix(ImageOf(f)[SIZEOF_BINUTILS_AEXEC..], CarriedOver(TableOf(f)), -SIZEOF_BINUTILS_AEXEC)
    ensures TableOf(Stripped(f)) == if ParseHead(f).isreloc == 0 then OutTable(TableOf(f)) else []
  {
    var table, o := TableOf(f), OutHead(ParseHead(f));
    CarriedInside(table, |ImageOf(f)|);
    HeadInRange(f);
    StrippedText(f);
    AssembledFile(o, Fix(ImageOf(f)[SIZEOF_BINUTILS_AEXEC..], CarriedOver(table), -SIZEOF_BINUTILS_AEXEC),
                  OutTable(table));
  }

  /** The new text is the old one less the binutils header; the data and the size of the bss stay. */
  lemma StrippedText(f: Bytes)
    requires Strippable(f)
    ensures var h, o := ParseHead(f), OutHead(ParseHead(f));
            && InRange(o) && o.text == h.text - SIZEOF_BINUTILS_AEXEC && o.data == h.data && o.bss == h.bss
            && |ImageOf(f)| == h.text + h.data
  {
    HeadInRange(f);
    OutHeadSizes(ParseHead(f));
  }

  lemma OutHeadSizes(h: Head)
    requires InRange(h) && h.text >= SIZEOF_BINUTILS_AEXEC
    ensures var o := OutHead(h);
            InRange(o) && o.text == h.text - SIZEOF_BINUTILS_AEXEC && o.data == h.data && o.bss == h.bss
  {
  }

  /** The header of the stripped file, field by field. */
  lemma StrippedHead(f: Bytes)
    requires Strippable(f)
    ensures HasSegments(Stripped(f))
    ensures var h, o := ParseHead(f), ParseHead(Stripped(f));
            && o.magic == h.magic == 0x601A && o.text == h.text - 228 && o.data == h.data && o.bss == h.bss
            && o.syms == 0 && o.zero1 == (if h.zero1 == 0x4d694e54 then 0 else h.zero1)
            && o.zero2 == h.zero2 && o.isreloc == h.isreloc
  {
    HeadInRange(f);
    StrippedText(f);
    StrippedSegments(f);
  }

  /** Its table is that of the original up to the first 0 byte behind the first long, which is 228 less. */
  lemma StrippedTable(table: Bytes, k: int)
    requires |table| >= 4 && ReadLong(table, 0) !in {0, 228} && EndsAtZero(table[4..], k)
    ensures OutTable(table) == EncLong(ReadLong(table, 0) - 228) + table[4..4 + k]
  {
    ConsumedToZero(table[4..], k);
  }

  lemma {:induction false} ShiftNoOverlap(offs: seq<int>, d: int)
    requires NoOverlap(offs)
    ensures NoOverlap(Shift(offs, d))
  {
    var r := Shift(offs, d);
    forall i, j | 0 <= i < j < |r| ensures r[i] + 4 <= r[j] { assert offs[i] + 4 <= offs[j]; }
  }

  /** The stripped file is an executable again; its fixups are those carried over. */
  lemma StrippedIsLoadable(f: Bytes)
    requires Strippable(f)
    ensures Loadable(Stripped(f))
    ensures FixupsOf(Stripped(f)) == CarriedOver(TableOf(f))
  {
    StrippedSegments(f);
    if ParseHead(f).isreloc == 0 {
      OutTableFixups(TableOf(f), |ImageOf(f)|);
      CarriedInside(TableOf(f), |ImageOf(f)|);
      ShiftNoOverlap(Fixups(TableOf(f)), -SIZEOF_BINUTILS_AEXEC);
    }
  }

  /** Unless the first fixup is at the first byte of the new text, the fixups are the old ones, shifted. */
  lemma FixupsAreShifted(f: Bytes)
    requires Strippable(f) && (FixupsOf(f) != [] ==> FixupsOf(f)[0] != SIZEOF_BINUTILS_AEXEC)
    ensures Loadable(Stripped(f))
    ensures FixupsOf(Stripped(f)) == Shift(FixupsOf(f), -SIZEOF_BINUTILS_AEXEC)
  {
    StrippedIsLoadable(f);
  }

  /** Then the program loads to the same image, wherever its text goes: the stripped file at t + 228 gives what
      the original at t gives behind its first 228 bytes. */
  lemma StripPreservesMeaning(f: Bytes, t: int)
    requires Strippable(f) && (FixupsOf(f) != [] ==> FixupsOf(f)[0] != SIZEOF_BINUTILS_AEXEC)
    ensures Loadable(Stripped(f))
    ensures LoadAt(Stripped(f), t + SIZEOF_BINUTILS_AEXEC) == LoadAt(f, t)[SIZEOF_BINUTILS_AEXEC..]
  {
    var k := SIZEOF_BINUTILS_AEXEC;
    var img, offs := ImageOf(f), FixupsOf(f);
    StrippedSegments(f);
    StrippedIsLoadable(f);
    FixupsAreShifted(f);
    FixupsInside(f);
    ShiftInside(offs, k, |img|);
    ShiftNoOverlap(offs, -k);
    FixTwice(img[k..], Shift(offs, -k), -k, t + k);
    FixShift(img, k, offs, t);
  }

  lemma FixupsInside(f: Bytes)
    requires Strippable(f)
    ensures Inside(FixupsOf(f), SIZEOF_BINUTILS_AEXEC, |ImageOf(f)|)
  {
  }

  lemma {:induction false} FixFirst(img: Bytes, offs: seq<int>, d: int)
    requires Inside(offs, 0, |img|) && NoOverlap(offs) && offs != []
    ensures ReadLong(Fix(img, offs, d), offs[0]) == (ReadLong(img, offs[0]) + d) % TWO32
  {
    var o, rest := offs[0], offs[1..];
    assert Inside(rest, o + 4, |img|) by {
      forall i | 0 <= i < |rest| ensures o + 4 <= rest[i] && rest[i] + 4 <= |img| { assert rest[i] == offs[i + 1]; }
    }
    FixCommutes(img, o, d, rest, d);
    FixKeepsBefore(img, rest, d, o);
    FixOneReads(Fix(img, rest, d), o, d, o);
  }

  lemma {:induction false} FixKeepsBefore(img: Bytes, offs: seq<int>, d: int, o: int)
    requires 0 <= o && o + 4 <= |img| && Inside(offs, o + 4, |img|)
    ensures ReadLong(Fix(img, offs, d), o) == ReadLong(img, o)
    decreases |offs|
  {
    if offs != [] {
      TailInside(offs, o + 4, |img|);
      FixOneReads(img, offs[0], d, o);
      FixKeepsBefore(FixOne(img, offs[0], d), offs[1..], d, o);
    }
  }

  /** The exact condition: a valid executable keeps its meaning at every load address if and only if its first
      fixup is not at offset 228. There the new first fixup would be 0, which says "no fixups". */
  lemma MeaningKeptIff(f: Bytes)
    requires Strippable(f)
    ensures Loadable(Stripped(f))
    ensures (forall t :: LoadAt(Stripped(f), t + SIZEOF_BINUTILS_AEXEC) == LoadAt(f, t)[SIZEOF_BINUTILS_AEXEC..])
            <==> (FixupsOf(f) != [] ==> FixupsOf(f)[0] != SIZEOF_BINUTILS_AEXEC)
  {
    StrippedIsLoadable(f);
    if FixupsOf(f) != [] && FixupsOf(f)[0] == SIZEOF_BINUTILS_AEXEC {
      LostFixups(f);
      assert LoadAt(Stripped(f), 1 + SIZEOF_BINUTILS_AEXEC) != LoadAt(f, 1)[SIZEOF_BINUTILS_AEXEC..];
    } else {
      forall t ensures LoadAt(Stripped(f), t + SIZEOF_BINUTILS_AEXEC) == LoadAt(f, t)[SIZEOF_BINUTILS_AEXEC..] {
        StripPreservesMeaning(f, t);
      }
    }
  }

  lemma LostFixups(f: Bytes)
    requires Strippable(f) && FixupsOf(f) != [] && FixupsOf(f)[0] == SIZEOF_BINUTILS_AEXEC
    ensures Loadable(Stripped(f))
    ensures LoadAt(Stripped(f), 1 + SIZEOF_BINUTILS_AEXEC) != LoadAt(f, 1)[SIZEOF_BINUTILS_AEXEC..]
  {
    NothingCarried(f, 1 + SIZEOF_BINUTILS_AEXEC);
    FixupsInside(f);
    FirstLongDiffers(ImageOf(f), FixupsOf(f));
  }

  lemma NothingCarried(f: Bytes, t: int)
    requires Strippable(f) && CarriedOver(TableOf(f)) == []
    ensures Loadable(Stripped(f)) && LoadAt(Stripped(f), t) == ImageOf(f)[SIZEOF_BINUTILS_AEXEC..]
  {
    StrippedIsLoadable(f);
    StrippedSegments(f);
    FixNothing(ImageOf(f)[SIZEOF_BINUTILS_AEXEC..], -SIZEOF_BINUTILS_AEXEC);
    FixNothing(ImageOf(f)[SIZEOF_BINUTILS_AEXEC..], t);
  }

  lemma FirstLongDiffers(img: Bytes, offs: seq<int>)
    requires offs != [] && offs[0] == SIZEOF_BINUTILS_AEXEC && Inside(offs, SIZEOF_BINUTILS_AEXEC, |img|)
             && NoOverlap(offs)
    ensures img[SIZEOF_BINUTILS_AEXEC..] != Fix(img, offs, 1)[SIZEOF_BINUTILS_AEXEC..]
  {
    var k := SIZEOF_BINUTILS_AEXEC;
    FixFirst(img, offs, 1);
    ReadSlice(img, k, k);
    ReadSlice(Fix(img, offs, 1), k, k);
  }

  // ----- two files

  function Zeros(n: nat): (s: Bytes)
    ensures |s| == n && forall i :: 0 <= i < n ==> s[i] == 0
  {
    seq(n, i => 0)
  }

  const SAMPLE_HEAD := Head(CMAGIC, 240, 0, 0, 0, 0, 0, 0)

  /** A binutils header, as far as it is looked at, and three longs of text behind it. */
  function SampleImage(): (s: Bytes)
    ensures |s| == 240
  {
    EncLong(0x283a001a) + EncLong(0x4efb48fa) + Zeros(20) + EncLong(SIZEOF_BINUTILS_AEXEC) + Zeros(208)
  }

  /** An executable with one fixup. */
  function Sample(fixup: int): Bytes {
    EncHead(SAMPLE_HEAD) + SampleImage() + (EncLong(fixup) + [0])
  }

  lemma SampleHasHeader(fixup: int)
    ensures HasAexecHeader(Sample(fixup))
  {
    var f, img := Sample(fixup), SampleImage();
    HeadRoundTrip(SAMPLE_HEAD, img + (EncLong(fixup) + [0]));
    assert f == EncHead(SAMPLE_HEAD) + (img + (EncLong(fixup) + [0]));
    assert f[28..32] == img[0..4] == EncLong(0x283a001a);
    assert f[32..36] == img[4..8] == EncLong(0x4efb48fa);
    assert f[56..60] == img[28..32] == EncLong(SIZEOF_BINUTILS_AEXEC);
    ReadAt(f, 28, 0x283a001a);
    ReadAt(f, 32, 0x4efb48fa);
    ReadAt(f, 56, SIZEOF_BINUTILS_AEXEC);
  }

  /** Each of the three longs may be the one that is fixed up. */
  lemma SampleIsStrippable(fixup: int)
    requires SIZEOF_BINUTILS_AEXEC <= fixup <= 236
    ensures Strippable(Sample(fixup)) && FixupsOf(Sample(fixup)) == [fixup]
  {
    var table := EncLong(fixup) + [0];
    SampleHasHeader(fixup);
    AssembledFile(SAMPLE_HEAD, SampleImage(), table);
    FixupsOfParts([0], fixup);
    assert Fixups(table) == [fixup];
  }

  /** With the fixup at the first of them, it is lost. */
  lemma SampleLoses()
    ensures Strippable(Sample(228)) && Loadable(Stripped(Sample(228))) && FixupsOf(Stripped(Sample(228))) == []
    ensures LoadAt(Stripped(Sample(228)), 1 + SIZEOF_BINUTILS_AEXEC) != LoadAt(Sample(228), 1)[SIZEOF_BINUTILS_AEXEC..]
  {
    SampleIsStrippable(228);
    LostFixups(Sample(228));
    StrippedIsLoadable(Sample(228));
  }

  /** With the fixup at the second, it is carried over. */
  lemma SampleKeeps()
    ensures Strippable(Sample(232)) && Loadable(Stripped(Sample(232))) && FixupsOf(Stripped(Sample(232))) == [4]
  {
    SampleIsStrippable(232);
    FixupsAreShifted(Sample(232));
  }

  // ----- the program

  function Overwritten(c: Bytes, p: nat, s: Bytes): Bytes {
    var d := if p > |c| then c + seq(p - |c|, i => 0) else c;
    d[..p] + s + (if p + |s| <= |d| then d[p + |s|..] else [])
  }

  /** An open file. */
  class File {
    var content: Bytes
    var pos: nat

    constructor (content: Bytes)
      ensures this.content == content && pos == 0
    {
      this.content, pos := content, 0;
    }

    /** What is left to read. */
    ghost function Rest(): Bytes
      reads this
    {
      if pos <= |content| then content[pos..] else []
    }

    /** read: up to n bytes, fewer only at the end of the file. */
    method Read(n: nat) returns (s: Bytes)
      modifies this`pos
      ensures s == old(Rest())[..if n <= |old(Rest())| then n else |old(Rest())|]
      ensures Rest() == old(Rest())[|s|..] && pos == old(pos) + |s|
    {
      var left := if pos <= |content| then |content| - pos else 0;
      var k := if n <= left then n else left;
      s := if k > 0 then content[pos..pos + k] else [];
      pos := pos + k;
    }

    /** write; behind the end of the file, the gap is filled with zeros. */
    method Write(s: Bytes)
      modifies this
      ensures content == Overwritten(old(content), old(pos), s) && pos == old(pos) + |s|
      ensures old(pos) == old(|content|) ==> content == old(content) + s
    {
      if pos > |content| {
        content := content + seq(pos - |content|, i => 0);
      }
      content := content[..pos] + s + (if pos + |s| <= |content| then content[pos + |s|..] else []);
      pos := pos + |s|;
    }

    /** lseek to an absolute position; negative ones are refused. */
    method Seek(p: int) returns (ok: bool)
      modifies this`pos
      ensures ok == (p >= 0)
      ensures (ok ==> pos == p) && (!ok ==> pos == old(pos))
    {
      ok := p >= 0;
      if ok { pos := p; }
    }
  }

  /** Copies `bytes` bytes, in pieces, or what there is. */
  method Copy(from: File, to: File, bytes: nat) returns (done: nat)
    requires from != to && to.pos == |to.content|
    modifies from, to
    ensures from.content == old(from.content) && to.pos == |to.content|
    ensures done == if bytes <= |old(from.Rest())| then bytes else |old(from.Rest())|
    ensures to.content == old(to.content) + old(from.Rest())[..done] && from.Rest() == old(from.Rest())[done..]
    ensures from.pos == old(from.pos) + done
  {
    ghost var rest, start := from.Rest(), to.content;
    done := 0;
    var remaining := bytes;
    while done != bytes
      invariant done + remaining == bytes && remaining >= 0 && done <= |rest|
      invariant from.content == old(from.content) && from.Rest() == rest[done..] && from.pos == old(from.pos) + done
      invariant to.content == start + rest[..done] && to.pos == |to.content|
      decreases remaining
    {
      var todo := if remaining > NEWBUFSIZ then NEWBUFSIZ else remaining;
      var buf := from.Read(todo);
      assert rest[..done] + buf == rest[..done + |buf|];
      to.Write(buf);
      done := done + |buf|;
      if |buf| != todo {
        return;
      }
      remaining := remaining - |buf|;
    }
  }

  /** Takes the length of the binutils header off the long at reloc_pos. */
  method Relocate(fd: File, relocPos: int) returns (ok: bool)
    modifies fd
    ensures ok <==> 0 <= relocPos && relocPos + 4 <= old(|fd.content|)
    ensures ok ==> fd.content == FixOne(old(fd.content), relocPos, -SIZEOF_BINUTILS_AEXEC)
  {
    ok := fd.Seek(relocPos);
    if !ok {
      return;
    }
    var buf := fd.Read(SIZEOF_LONG);
    if |buf| != SIZEOF_LONG {
      return false;
    }
    ghost var c := fd.content;
    assert buf == c[relocPos..relocPos + 4] == buf[0..4];
    buf := EncLong(ReadLong(buf, 0) - SIZEOF_BINUTILS_AEXEC);
    ok := fd.Seek(relocPos);
    fd.Write(buf);
  }

  /** The output file while its relocation table is being written: header and image, the image fixed up at
      the offsets met so far, then the part of the table written so far. */
  ghost predicate Underway(c: Bytes, front: Bytes, img: Bytes, offs: seq<int>, table: Bytes) {
    && Inside(offs, 0, |img|)
    && c == front + Fix(img, offs, -SIZEOF_BINUTILS_AEXEC) + table
  }

  lemma UnderwayFixup(c: Bytes, front: Bytes, img: Bytes, offs: seq<int>, table: Bytes, o: int)
    requires Underway(c, front, img, offs, table) && 0 <= o && o + 4 <= |img|
    ensures Underway(FixOne(c, |front| + o, -SIZEOF_BINUTILS_AEXEC), front, img, offs + [o], table)
  {
    FixOneMore(img, offs, o, -SIZEOF_BINUTILS_AEXEC);
    FixOneEmbedded(front, Fix(img, offs, -SIZEOF_BINUTILS_AEXEC), table, o, -SIZEOF_BINUTILS_AEXEC);
  }

  lemma UnderwayByte(c: Bytes, front: Bytes, img: Bytes, offs: seq<int>, table: Bytes, b: Bytes)
    requires Underway(c, front, img, offs, table)
    ensures Underway(c + b, front, img, offs, table + b)
  {
  }

  method Append(to: File, buf: Bytes, ghost front: Bytes, ghost img: Bytes, ghost offs: seq<int>, ghost table: Bytes)
    requires to.pos == |to.content|
    modifies to
    ensures to.content == old(to.content) + buf
    ensures Underway(old(to.content), front, img, offs, table) ==> Underway(to.content, front, img, offs, table + buf)
  {
    ghost var before := to.content;
    to.Write(buf);
    if Underway(before, front, img, offs, table) {
      UnderwayByte(before, front, img, offs, table, buf);
    }
  }

  method RelocateImage(to: File, relocPos: int, ghost front: Bytes, ghost img: Bytes, ghost offs: seq<int>,
                       ghost table: Bytes)
    returns (ok: bool)
    requires |front| == SIZEOF_AEXEC
    modifies to
    ensures var o := relocPos - SIZEOF_AEXEC;
            Underway(old(to.content), front, img, offs, table) && 0 <= o && o + 4 <= |img| ==>
              ok && Underway(to.content, front, img, offs + [o], table)
  {
    if Underway(to.content, front, img, offs, table)
       && SIZEOF_AEXEC <= relocPos && relocPos - SIZEOF_AEXEC + 4 <= |img| {
      UnderwayFixup(to.content, front, img, offs, table, relocPos - SIZEOF_AEXEC);
    }
    ok := Relocate(to, relocPos);
  }

  lemma OneInside(offs: seq<int>, lo: int, hi: int, i: nat)
    requires Inside(offs, lo, hi) && i < |offs|
    ensures lo <= offs[i] && offs[i] + 4 <= hi
  {
  }

  /** One more byte of the table: what it does to the fixups met so far, and to what is still to be read. */
  lemma StepRead(s: Bytes, done: nat, p: int, offs: seq<int>, head: Bytes)
    requires done < |s|
    ensures var b := s[done] as int;
            && s[done..][1..] == s[done + 1..] && head + s[..done] + [s[done]] == head + s[..done + 1]
            && Consumed(s[done..]) == 1 + (if b == 0 then 0 else Consumed(s[done + 1..]))
            && offs + Steps(s[done..], p) == (if b == 0 then offs
                                              else if b == 1 then offs + Steps(s[done + 1..], p + 254)
                                              else offs + [p + b] + Steps(s[done + 1..], p + b))
            && (b > 1 ==> |offs| < |offs + Steps(s[done..], p)| && (offs + Steps(s[done..], p))[|offs|] == p + b)
  {
    assert s[done..][1..] == s[done + 1..];
    var b := s[done] as int;
    if b > 1 {
      assert offs + ([p + b] + Steps(s[done + 1..], p + b)) == offs + [p + b] + Steps(s[done + 1..], p + b);
    }
  }

  /** Where the copying of the steps stands after `done` bytes of them. */
  ghost predicate StepsCopied(c: Bytes, front: Bytes, img: Bytes, offs: seq<int>, head: Bytes, s: Bytes, done: nat) {
    done <= |s| && Underway(c, front, img, offs, head + s[..done])
  }

  /** The fixup that the byte b of the table stands for, if any, is in an image of n bytes. */
  predicate StepInside(b: Byte, p: int, n: int) {
    b > 1 ==> 0 <= p + b as int && p + b as int + 4 <= n
  }

  /** Copies one byte of the table that has been read, and makes the fixup it stands for, if any. `done` bytes of the
      steps `s` were copied before, and the fixups `offs` made. */
  method CopyStep(to: File, b: Byte, relocPos: int, ghost front: Bytes, ghost img: Bytes, ghost head: Bytes,
                  ghost s: Bytes, ghost done: nat, ghost offs: seq<int>)
    returns (pos: int, ok: bool, ghost made: seq<int>)
    requires |front| == SIZEOF_AEXEC && done < |s| && b == s[done]
    modifies to
    ensures offs + Steps(s[done..], relocPos - SIZEOF_AEXEC)
         == if b == 0 then made else made + Steps(s[done + 1..], pos - SIZEOF_AEXEC)
    ensures StepsCopied(old(to.content), front, img, offs, head, s, done)
            && StepInside(b, relocPos - SIZEOF_AEXEC, |img|)
            ==> ok && StepsCopied(to.content, front, img, made, head, s, done + 1)
    ensures b == 0 ==> ok
  {
    StepRead(s, done, relocPos - SIZEOF_AEXEC, offs, head);
    var end := to.Seek(|to.content|);
    Append(to, [b], front, img, offs, head + s[..done]);
    pos, ok, made := relocPos, true, offs;
    if b == 1 {
      pos := pos + 254;
    } else if b != 0 {
      pos := pos + b as int;
      made := offs + [pos - SIZEOF_AEXEC];
      ok := RelocateImage(to, pos, front, img, offs, head + s[..done + 1]);
    }
  }

  /** The steps of the table behind its first long, one byte at a time. The header `front` and the image `img` are
      at the start of `to`, behind them is `head`, the first long of the new table; the fixups met so far
      are `offs0`. */
  method CopySteps(from: File, to: File, firstPos: int, ghost front: Bytes, ghost img: Bytes, ghost head: Bytes,
                   ghost offs0: seq<int>)
    returns (rbytes: int)
    requires from != to && |front| == SIZEOF_AEXEC
    modifies from, to
    ensures from.content == old(from.content)
    ensures var s := old(from.Rest());
            var offs := offs0 + Steps(s, firstPos - SIZEOF_AEXEC);
            StepsCopied(old(to.content), front, img, offs0, head, s, 0) && Inside(offs, 0, |img|) ==>
              && rbytes == SIZEOF_LONG + Consumed(s)
              && StepsCopied(to.content, front, img, offs, head, s, Consumed(s))
  {
    ghost var s := from.Rest();
    ghost var all := offs0 + Steps(s, firstPos - SIZEOF_AEXEC);
    ghost var valid := StepsCopied(to.content, front, img, offs0, head, s, 0) && Inside(all, 0, |img|);
    ghost var offs, done: nat := offs0, 0;   // fixups made, bytes read
    var relocPos := firstPos;
    rbytes := SIZEOF_LONG;
    assert s[0..] == s;
    while true
      invariant done <= |s| && from.Rest() == s[done..] && from.content == old(from.content)
      invariant rbytes == SIZEOF_LONG + done && Consumed(s) == done + Consumed(s[done..])
      invariant all == offs + Steps(s[done..], relocPos - SIZEOF_AEXEC)
      invariant valid ==> StepsCopied(to.content, front, img, offs, head, s, done)
      decreases |s| - done
    {
      var buf := from.Read(1);
      if buf == [] {
        assert s[done..] == [] && offs + [] == offs;
        return;
      }
      StepRead(s, done, relocPos - SIZEOF_AEXEC, offs, head);
      if valid && buf[0] > 1 { OneInside(all, 0, |img|, |offs|); }
      var ok;
      relocPos, ok, offs := CopyStep(to, buf[0], relocPos, front, img, head, s, done, offs);
      rbytes := rbytes + 1;
      done := done + 1;
      if buf[0] == 0 {
        return;
      }
      if !ok {
        return -1;
      }
    }
  }

  /** What copy_relocs makes of a table it can carry over. */
  ghost predicate RelocsCopied(c: Bytes, front: Bytes, img: Bytes, table: Bytes, res: int) {
    TableFits(table, SIZEOF_BINUTILS_AEXEC + |img|) ==>
      res == |OutTable(table)| && Underway(c, front, img, CarriedOver(table), OutTable(table))
  }

  /** Carries the relocation table over to the end of `to`, and fixes up the image that is already there. */
  method CopyRelocs(from: File, to: File, ghost front: Bytes, ghost img: Bytes) returns (res: int)
    requires from != to && |front| == SIZEOF_AEXEC && to.content == front + img && to.pos == |to.content|
    modifies from, to
    ensures from.content == old(from.content)
    ensures 0 < |old(from.Rest())| < SIZEOF_LONG ==> res == -1 && to.content == old(to.content)
    ensures RelocsCopied(to.content, front, img, old(from.Rest()), res)
  {
    ghost var s := from.Rest();
    FixNothing(img, -SIZEOF_BINUTILS_AEXEC);
    assert Underway(to.content, front, img, [], []);
    var buf := from.Read(SIZEOF_LONG);
    if buf == [] {
      NothingCopied(to.content, front, img, s);
      return 0;
    }
    if |buf| != SIZEOF_LONG {
      return -1;
    }
    FirstLong(s, buf);
    var first := ReadLong(buf, 0);
    if first == 0 || first == SIZEOF_BINUTILS_AEXEC {
      Append(to, EncLong(0), front, img, [], []);
      NothingCopied(to.content, front, img, s);
      return SIZEOF_LONG;
    }
    Append(to, EncLong(first - SIZEOF_BINUTILS_AEXEC), front, img, [], []);
    res := CopyFixups(from, to, first - SIZEOF_BINUTILS_AEXEC, front, img);
    FixupsCopied(to.content, front, img, s, first - SIZEOF_BINUTILS_AEXEC, res);
  }

  /** A table without fixups to carry over. */
  lemma NothingCopied(c: Bytes, front: Bytes, img: Bytes, s: Bytes)
    requires |s| < SIZEOF_LONG || ReadLong(s, 0) in {0, SIZEOF_BINUTILS_AEXEC}
    requires Underway(c, front, img, [], OutTable(s))
    ensures RelocsCopied(c, front, img, s, |OutTable(s)|)
  {
    assert CarriedOver(s) == [];
  }

  lemma HeadAlone(head: Bytes, rest: Bytes)
    ensures head + rest[..0] == head
  {
  }

  /** Behind the first long of a table that has fixups, which is written already. */
  method CopyFixups(from: File, to: File, firstRelo: int, ghost front: Bytes, ghost img: Bytes) returns (res: int)
    requires from != to && |front| == SIZEOF_AEXEC && Underway(to.content, front, img, [], EncLong(firstRelo))
    modifies from, to
    ensures from.content == old(from.content)
    ensures var rest := old(from.Rest());
            var offs := [firstRelo] + Steps(rest, firstRelo);
            Inside(offs, 0, |img|) ==>
              && res == SIZEOF_LONG + Consumed(rest)
              && StepsCopied(to.content, front, img, offs, EncLong(firstRelo), rest, Consumed(rest))
  {
    ghost var head, rest := EncLong(firstRelo), from.Rest();
    ghost var offs := [firstRelo] + Steps(rest, firstRelo);
    if Inside(offs, 0, |img|) { OneInside(offs, 0, |img|, 0); }
    var ok := RelocateImage(to, SIZEOF_AEXEC + firstRelo, front, img, [], head);
    if !ok {
      return -1;
    }
    HeadAlone(head, rest);
    assert [] + [firstRelo] == [firstRelo];
    res := CopySteps(from, to, SIZEOF_AEXEC + firstRelo, front, img, head, [firstRelo]);
  }

  lemma FixupsCopied(c: Bytes, front: Bytes, img: Bytes, s: Bytes, at: int, res: int)
    requires |s| >= SIZEOF_LONG && ReadLong(s, 0) !in {0, SIZEOF_BINUTILS_AEXEC}
             && at == ReadLong(s, 0) - SIZEOF_BINUTILS_AEXEC
    requires var offs := [at] + Steps(s[4..], at);
             Inside(offs, 0, |img|) ==>
               res == SIZEOF_LONG + Consumed(s[4..])
               && StepsCopied(c, front, img, offs, EncLong(at), s[4..], Consumed(s[4..]))
    ensures RelocsCopied(c, front, img, s, res)
  {
    CarriedParts(s);
    if TableFits(s, SIZEOF_BINUTILS_AEXEC + |img|) {
      CarriedInside(s, SIZEOF_BINUTILS_AEXEC + |img|);
      assert Underway(c, front, img, CarriedOver(s), OutTable(s));
    }
  }

  lemma FirstLong(s: Bytes, buf: Bytes)
    requires |s| >= 4 && buf == s[..4]
    ensures ReadLong(buf, 0) == ReadLong(s, 0)
    ensures ReadLong(buf, 0) == 0 ==> buf == EncLong(0)
  {
    assert buf[0..4] == buf == s[0..4];
  }

  /** A table with fixups to carry over: what becomes of its first long, and of the rest. */
  lemma CarriedParts(table: Bytes)
    requires |table| >= 4 && ReadLong(table, 0) !in {0, SIZEOF_BINUTILS_AEXEC}
    ensures var at := ReadLong(table, 0) - SIZEOF_BINUTILS_AEXEC;
            && CarriedOver(table) == [at] + Steps(table[4..], at)
            && OutTable(table) == EncLong(at) + table[4..][..Consumed(table[4..])]
  {
    var first, rest := ReadLong(table, 0), table[4..];
    StepsShift(rest, first, -SIZEOF_BINUTILS_AEXEC);
    ShiftFirst(first, Steps(rest, first), -SIZEOF_BINUTILS_AEXEC);
    assert table[4..4 + Consumed(rest)] == rest[..Consumed(rest)];
  }

  method ReadHead(fd: File) returns (r: int, a: Head)
    modifies fd`pos
    ensures r == SIZEOF_AEXEC || r == -1
    ensures r == SIZEOF_AEXEC <==> |old(fd.Rest())| >= SIZEOF_AEXEC
    ensures r == SIZEOF_AEXEC ==> a == ParseHead(old(fd.Rest())) && fd.pos == old(fd.pos) + SIZEOF_AEXEC
  {
    ghost var s := fd.Rest();
    a := Head(0, 0, 0, 0, 0, 0, 0, 0);
    var buf := fd.Read(SIZEOF_AEXEC);
    if |buf| != SIZEOF_AEXEC {
      return -1, a;
    }
    a := ParseHead(buf);
    SameHead(s);
    return SIZEOF_AEXEC, a;
  }

  lemma SameHead(s: Bytes)
    requires |s| >= SIZEOF_AEXEC
    ensures ParseHead(s[..SIZEOF_AEXEC]) == ParseHead(s)
  {
    var b := s[..SIZEOF_AEXEC];
    assert b[2..6] == s[2..6] && b[6..10] == s[6..10] && b[10..14] == s[10..14] && b[14..18] == s[14..18]
           && b[18..22] == s[18..22] && b[22..26] == s[22..26];
  }

  /** The tests that strip makes before it writes anything. */
  method Accepts(fd: File) returns (ok: bool, ahead: Head)
    requires fd.pos == 0
    modifies fd`pos
    ensures ok == HasAexecHeader(fd.content)
    ensures ok ==> ahead == ParseHead(fd.content) && fd.pos == SIZEOF_AEXEC + JUMP_SIZE
  {
    ghost var f := fd.content;
    var r;
    r, ahead := ReadHead(fd);
    if r < 0 {
      return false, ahead;
    }
    var buf := fd.Read(JUMP_SIZE);
    if |buf| != JUMP_SIZE || ahead.magic != CMAGIC {
      return false, ahead;
    }
    assert buf == f[28..60];
    assert buf[0..4] == f[28..32] && buf[4..8] == f[32..36] && buf[28..32] == f[56..60];
    var magic1, magic2 := ReadLong(buf, 0), ReadLong(buf, SIZEOF_LONG);
    if !((magic1 == 0x283a001a && magic2 == 0x4efb48fa) || (magic1 == 0x203a001a && magic2 == 0x4efb08fa)) {
      return false, ahead;
    }
    return ReadLong(buf, 7 * SIZEOF_LONG) == SIZEOF_BINUTILS_AEXEC, ahead;
  }

  /** What remains of text and data, and the symbols, are short enough for signed longs. */
  predicate SizesFit(f: Bytes) {
    HasAexecHeader(f) ==>
      var h := ParseHead(f);
      0 <= (h.text - SIZEOF_BINUTILS_AEXEC) % TWO32 + h.data < 0x8000_0000 && h.syms < 0x8000_0000
  }

  /** The file is long enough for what its header says of text and data, or there is nothing to copy. */
  predicate TextThere(f: Bytes)
    requires HasAexecHeader(f)
  {
    var n := (ParseHead(f).text - 228) % TWO32 + ParseHead(f).data;
    n == 0 || 28 + 228 + n <= |f|
  }

  /** Behind text, data and symbols there is a relocation table, of less than a long. */
  predicate TableCutOff(f: Bytes)
    requires HasAexecHeader(f)
  {
    var h := ParseHead(f);
    h.isreloc == 0 && 0 < |f| - (28 + 228 + (h.text - 228) % TWO32 + h.data + h.syms) < 4
  }

  /** Where the parts of a valid executable are. */
  lemma Layout(f: Bytes, h: Head, o: Head)
    requires Strippable(f) && h == ParseHead(f) && o == OutHead(h)
    ensures SIZEOF_AEXEC + SIZEOF_BINUTILS_AEXEC + o.text + o.data + h.syms <= |f|
    ensures o.text + o.data >= 0 && o.isreloc == h.isreloc
    ensures f[SIZEOF_AEXEC + SIZEOF_BINUTILS_AEXEC..][..o.text + o.data] == ImageOf(f)[SIZEOF_BINUTILS_AEXEC..]
    ensures h.isreloc == 0 ==> f[SIZEOF_AEXEC + SIZEOF_BINUTILS_AEXEC + o.text + o.data + h.syms..] == TableOf(f)
  {
    StrippedText(f);
    var n := o.text + o.data;
    assert SIZEOF_BINUTILS_AEXEC + n == |ImageOf(f)|;
    assert f[SIZEOF_AEXEC + SIZEOF_BINUTILS_AEXEC..][..n]
           == f[SIZEOF_AEXEC..SIZEOF_AEXEC + |ImageOf(f)|][SIZEOF_BINUTILS_AEXEC..];
  }

  /** Copies the rest of text and data behind the new header, and skips the symbols. */
  method CopySegments(fd: File, tfd: File, sbytes: nat, count: nat) returns (ok: bool, ghost img: Bytes)
    requires fd != tfd && tfd.pos == |tfd.content| && fd.pos == SIZEOF_AEXEC + JUMP_SIZE
    modifies fd, tfd
    ensures fd.content == old(fd.content) && tfd.pos == |tfd.content| && tfd.content == old(tfd.content) + img
    ensures ok <==> count == 0 || SIZEOF_AEXEC + SIZEOF_BINUTILS_AEXEC + count <= |fd.content|
    ensures SIZEOF_AEXEC + SIZEOF_BINUTILS_AEXEC + count <= |fd.content| ==>
              && ok && fd.pos == SIZEOF_AEXEC + SIZEOF_BINUTILS_AEXEC + count + sbytes
              && img == fd.content[SIZEOF_AEXEC + SIZEOF_BINUTILS_AEXEC..][..count]
  {
    ok := fd.Seek(fd.pos + SIZEOF_BINUTILS_AEXEC - JUMP_SIZE);
    img := fd.Rest();
    var copied := Copy(fd, tfd, count);
    img := img[..copied];
    if copied != count {
      return false, img;
    }
    ok := fd.Seek(fd.pos + sbytes);
  }

  /** Strips the file open as fd into the empty file tfd. */
  method Strip(fd: File, tfd: File) returns (status: int)
    requires fd != tfd && fd.pos == 0 && tfd.content == [] && tfd.pos == 0 && SizesFit(fd.content)
    modifies fd, tfd
    ensures fd.content == old(fd.content) && status in {0, 1}
    ensures !HasAexecHeader(fd.content) ==> status == 1 && tfd.content == []
    ensures HasAexecHeader(fd.content) && (!TextThere(fd.content) || TableCutOff(fd.content)) ==> status == 1
    ensures Strippable(fd.content) ==> status == 0 && tfd.content == Stripped(fd.content)
  {
    var ok, ahead := Accepts(fd);
    if !ok {
      return 1;
    }
    status := StripAccepted(fd, tfd, ahead);
  }

  method StripAccepted(fd: File, tfd: File, head: Head) returns (status: int)
    requires fd != tfd && fd.pos == SIZEOF_AEXEC + JUMP_SIZE && tfd.content == [] && tfd.pos == 0
    requires HasAexecHeader(fd.content) && head == ParseHead(fd.content) && SizesFit(fd.content)
    modifies fd, tfd
    ensures fd.content == old(fd.content) && status in {0, 1}
    ensures !TextThere(fd.content) || TableCutOff(fd.content) ==> status == 1
    ensures Strippable(fd.content) ==> status == 0 && tfd.content == Stripped(fd.content)
  {
    ghost var f := fd.content;
    var sbytes := head.syms;
    var ahead := OutHead(head);
    if Strippable(f) { Layout(f, head, ahead); }
    SizesAre(f, head);
    WriteHead(tfd, ahead);
    var ok, img := CopySegments(fd, tfd, sbytes, ahead.text + ahead.data);
    if !ok {
      return 1;
    }
    if ahead.isreloc == 0 {
      ghost var table := fd.Rest();
      ghost var rbytes;
      status, rbytes := CarryTable(fd, tfd, EncHead(ahead), img);
      if Strippable(f) { WithTable(f, ahead, tfd.content, img, table, rbytes); }
    } else {
      if Strippable(f) { NoTable(f, tfd.content); }
      status := 0;
    }
  }

  lemma SizesAre(f: Bytes, h: Head)
    requires HasAexecHeader(f) && h == ParseHead(f)
    ensures var o := OutHead(h);
            && (TextThere(f) <==> o.text + o.data == 0 || 256 + (o.text + o.data) <= |f|)
            && (TableCutOff(f) <==> o.isreloc == 0 && 0 < |f| - (256 + (o.text + o.data) + h.syms) < 4)
  {
  }

  method CarryTable(fd: File, tfd: File, ghost front: Bytes, ghost img: Bytes) returns (status: int, ghost rbytes: int)
    requires fd != tfd && |front| == SIZEOF_AEXEC && tfd.content == front + img && tfd.pos == |tfd.content|
    modifies fd, tfd
    ensures fd.content == old(fd.content) && status == if rbytes < 0 then 1 else 0
    ensures 0 < |old(fd.Rest())| < SIZEOF_LONG ==> status == 1
    ensures RelocsCopied(tfd.content, front, img, old(fd.Rest()), rbytes)
  {
    var r := CopyRelocs(fd, tfd, front, img);
    rbytes := r;
    status := if r < 0 then 1 else 0;
  }

  method WriteHead(fd: File, a: Head)
    requires fd.content == [] && fd.pos == 0
    modifies fd
    ensures fd.content == EncHead(a) && fd.pos == |fd.content|
  {
    fd.Write(EncHead(a));
    assert [] + EncHead(a) == EncHead(a);
  }

  lemma NoTable(f: Bytes, c: Bytes)
    requires Strippable(f) && ParseHead(f).isreloc != 0
    requires c == EncHead(OutHead(ParseHead(f))) + ImageOf(f)[SIZEOF_BINUTILS_AEXEC..]
    ensures c == Stripped(f)
  {
    FixNothing(ImageOf(f)[SIZEOF_BINUTILS_AEXEC..], -SIZEOF_BINUTILS_AEXEC);
  }

  lemma WithTable(f: Bytes, o: Head, c: Bytes, img: Bytes, table: Bytes, res: int)
    requires Strippable(f) && ParseHead(f).isreloc == 0 && img == ImageOf(f)[SIZEOF_BINUTILS_AEXEC..]
    requires o == OutHead(ParseHead(f)) && table == TableOf(f) && RelocsCopied(c, EncHead(o), img, table, res)
    ensures c == Stripped(f) && res >= 0
  {
  }
}
