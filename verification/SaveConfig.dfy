/** Saving the resolution: one line of MAGX.INF or of fvdi.sys is replaced, and nothing else. */
module SaveConfig {
  import opened Digits
  import opened ConfigLines

  // ----- edits of a list of lines

  function Inserted(lines: seq<string>, k: nat, l: string): seq<string>
    requires k <= |lines|
  {
    lines[..k] + [l] + lines[k..]
  }

  /** The line l goes in place of the line with the tag; or behind the one that opens the section; or in front of
      everything. Lines that are the last one are not seen. */
  function Edited(lines: seq<string>, tag: string, section: string, l: string): seq<string> {
    if FoundInside(lines, tag) then lines[Found(lines, tag) := l]
    else if FoundInside(lines, section) then Inserted(lines, Found(lines, section) + 1, l)
    else [l] + lines
  }

  /** In full: if a line with the tag is there, and is not the last, the first of them is replaced; otherwise the line
      goes behind the first line with the section, if that is there and not the last; and otherwise in front. */
  ghost predicate EditedInFull(lines: seq<string>, now: seq<string>, tag: string, section: string, l: string) {
    && (forall k :: FirstMatch(lines, k, tag) && k + 1 < |lines| ==> now == lines[..k] + [l] + lines[k + 1..])
    && ((forall k :: FirstMatch(lines, k, tag) ==> k + 1 == |lines|) ==>
          && (forall k :: FirstMatch(lines, k, section) && k + 1 < |lines| ==>
                            now == lines[..k + 1] + [l] + lines[k + 1..])
          && ((forall k :: FirstMatch(lines, k, section) ==> k + 1 == |lines|) ==> now == [l] + lines))
  }

  ghost predicate FirstMatch(lines: seq<string>, k: int, tag: string) {
    0 <= k < |lines| && Matches(lines[k], tag) && forall i :: 0 <= i < k ==> !Matches(lines[i], tag)
  }

  lemma FirstIsFound(lines: seq<string>, tag: string)
    ensures forall k :: FirstMatch(lines, k, tag) <==> k == Found(lines, tag) && k < |lines|
  {
    forall k | FirstMatch(lines, k, tag) ensures k == Found(lines, tag) { FoundAt(lines, tag, k); }
  }

  lemma EditedIs(lines: seq<string>, tag: string, section: string, l: string)
    ensures EditedInFull(lines, Edited(lines, tag, section, l), tag, section, l)
  {
    FirstIsFound(lines, tag);
    FirstIsFound(lines, section);
    var k, j := Found(lines, tag), Found(lines, section);
    if k + 1 < |lines| {
      assert FirstMatch(lines, k, tag);
      assert lines[k := l] == lines[..k] + [l] + lines[k + 1..];
    } else if j + 1 < |lines| {
      assert FirstMatch(lines, j, section);
    }
  }

  /** MAGX.INF, with the line l for the device. */
  function MagxLines(lines: seq<string>, l: string): seq<string> {
    Edited(lines, "#_DEV", "#[aes]", l)
  }

  function DeviceLine(rez: int, vmode: int): string {
    "#_DEV " + IntText(rez, 10) + " " + IntText(vmode, 10) + [CR, LF]
  }

  // ----- lines that are written

  /** Text without line ends and without what starts a comment. */
  predicate Plain(s: string) { forall i :: 0 <= i < |s| ==> !Stops(s[i]) }

  lemma {:induction false} PlainAhead(s: string, rest: string)
    requires Plain(s) && rest != [] && Stops(rest[0])
    ensures ValidLen(s + rest) == |s|
  {
    if s == [] {
      assert s + rest == rest;
    } else {
      PlainAhead(s[1..], rest);
      assert (s + rest)[1..] == s[1..] + rest;
    }
  }

  /** Text without line ends. */
  predicate OneLine(s: string) { forall i :: 0 <= i < |s| ==> s[i] != CR && s[i] != LF }

  lemma {:induction false} LineOf(s: string)
    requires OneLine(s)
    ensures LineLen(s + [CR, LF]) == |s| + 2
  {
    if s == [] {
      assert s + [CR, LF] == [CR, LF];
    } else {
      LineOf(s[1..]);
      assert (s + [CR, LF])[1..] == s[1..] + [CR, LF];
    }
  }

  lemma LineCanBeInserted(s: string)
    requires OneLine(s)
    ensures Insertable(s + [CR, LF])
  {
    LineOf(s);
  }

  /** A line is found by a plain tag at its start. */
  lemma TagMatches(tag: string, more: string)
    requires Plain(tag) && tag != [] && tag[0] != ' ' && tag[0] != '\t' && |tag| <= LINEBUF
    ensures Matches(tag + more, tag)
  {
    var s := tag + more;
    TagIsValid(tag, more);
    var n := if ValidLen(s) > LINEBUF then LINEBUF else ValidLen(s);
    assert s[..n][0] == tag[0];
    assert s[..n][..|tag|] == tag;
  }

  lemma {:induction false} TagIsValid(tag: string, more: string)
    requires Plain(tag)
    ensures ValidLen(tag + more) >= |tag|
  {
    if tag != [] {
      TagIsValid(tag[1..], more);
      assert (tag + more)[1..] == tag[1..] + more;
    }
  }

  lemma IntIsPlain(v: int)
    ensures Plain(IntText(v, 10))
  {
    var n := if v < 0 then -v else v;
    DigitsDenote(n, 10, Lower);
    var ds, s := DigitsOf(n, 10, Lower), IntText(v, 10);
    forall i | 0 <= i < |s| ensures !Stops(s[i]) {
      var d := if v < 0 then i - 1 else i;
      assert d >= 0 ==> s[i] == ds[d] && DigitValue(ds[d]) < 10;
    }
  }

  /** A plain tag and a rest without line ends make a line that is found by the tag. */
  lemma TaggedLine(tag: string, more: string)
    requires Plain(tag) && tag != [] && tag[0] != ' ' && tag[0] != '\t' && |tag| <= LINEBUF && OneLine(more)
    ensures Insertable(tag + more + [CR, LF]) && Matches(tag + more + [CR, LF], tag)
  {
    PlainIsOneLine(tag);
    LineCanBeInserted(tag + more);
    TagMatches(tag, more + [CR, LF]);
    assert tag + (more + [CR, LF]) == tag + more + [CR, LF];
  }

  lemma DeviceLineIsFound(rez: int, vmode: int)
    ensures Insertable(DeviceLine(rez, vmode)) && Matches(DeviceLine(rez, vmode), "#_DEV")
  {
    IntIsPlain(rez);
    IntIsPlain(vmode);
    var more := " " + IntText(rez, 10) + " " + IntText(vmode, 10);
    assert DeviceLine(rez, vmode) == "#_DEV" + more + [CR, LF];
    TaggedLine("#_DEV", more);
  }

  // ----- saving twice

  /** Where the new line is, nothing in front of it matches, and something is behind it. */
  lemma Placed(lines: seq<string>, tag: string, k: nat, l: string)
    requires Matches(l, tag) && k + 1 < |lines| && lines[k] == l && forall i :: 0 <= i < k ==> !Matches(lines[i], tag)
    ensures FoundInside(lines, tag) && Found(lines, tag) == k
  {
    FoundAt(lines, tag, k);
  }

  lemma InsertedTwice(lines: seq<string>, tag: string, j: nat, a: string, b: string)
    requires Matches(a, tag) && !FoundInside(lines, tag) && j < |lines|
    ensures var now := Inserted(lines, j, a);
            FoundInside(now, tag) && Found(now, tag) == j && now[j := b] == Inserted(lines, j, b)
  {
    Placed(Inserted(lines, j, a), tag, j, a);
  }

  /** The last save counts, whatever the first one did, for every file that is not empty. */
  lemma LastEditCounts(lines: seq<string>, tag: string, section: string, a: string, b: string)
    requires lines != [] && Matches(a, tag)
    ensures Edited(Edited(lines, tag, section, a), tag, section, b) == Edited(lines, tag, section, b)
  {
    var k := Found(lines, tag);
    if FoundInside(lines, tag) {
      Placed(lines[k := a], tag, k, a);
    } else if FoundInside(lines, section) {
      InsertedTwice(lines, tag, Found(lines, section) + 1, a, b);
    } else {
      Placed([a] + lines, tag, 0, a);
      assert ([a] + lines)[0 := b] == [b] + lines;
    }
  }

  lemma LastSaveCounts(lines: seq<string>, a: string, b: string)
    requires lines != [] && Matches(a, "#_DEV")
    ensures MagxLines(MagxLines(lines, a), b) == MagxLines(lines, b)
  {
    LastEditCounts(lines, "#_DEV", "#[aes]", a, b);
  }

  /** Saving the same mode twice is saving it once, exactly for the files that are not empty. */
  lemma SavingTwice(lines: seq<string>, a: string)
    requires Matches(a, "#_DEV")
    ensures MagxLines(MagxLines(lines, a), a) == MagxLines(lines, a) <==> lines != []
  {
    if lines == [] {
      assert |MagxLines(MagxLines([], a), a)| == 2;
    } else {
      LastSaveCounts(lines, a, a);
    }
  }

  // ----- save_magx_inf

  lemma SplitAt(lines: seq<string>, k: nat)
    requires k <= |lines|
    ensures Join(lines) == Join(lines[..k]) + Join(lines[k..])
  {
    var a, b := lines[..k], lines[k..];
    assert a + b == lines;
    JoinAppend(a, b);
  }

  /** A file is cut at a line. */
  lemma CutAt(s: string, k: nat)
    requires k <= |Lines(s)|
    ensures var p := |Join(Lines(s)[..k])|;
            p <= |s| && s[..p] == Join(Lines(s)[..k]) && s[p..] == Join(Lines(s)[k..])
  {
    JoinLines(s);
    SplitAt(Lines(s), k);
  }

  lemma LinesAround(lines: seq<string>, k: nat)
    requires k < |lines|
    ensures |Join(lines[..k + 1])| == |Join(lines[..k])| + |lines[k]|
  {
    assert lines[..k + 1] == lines[..k] + [lines[k]];
    JoinOneMore(lines[..k], lines[k]);
  }

  lemma JoinAround(front: seq<string>, l: string, back: seq<string>)
    ensures Join(front + [l] + back) == Join(front) + l + Join(back)
  {
    JoinAppend(front + [l], back);
    JoinAppend(front, [l]);
    assert Join([l]) == l + Join([]) == l;
  }

  lemma ReplacedText(s: string, k: nat, l: string)
    requires k < |Lines(s)| && Insertable(l)
    ensures var p, q := |Join(Lines(s)[..k])|, |Join(Lines(s)[..k + 1])|;
            p <= q <= |s| && Lines(s[..p] + l + s[q..]) == Lines(s)[k := l]
  {
    var lines := Lines(s);
    CutAt(s, k);
    CutAt(s, k + 1);
    LinesAround(lines, k);
    JoinAround(lines[..k], l, lines[k + 1..]);
    assert lines[k := l] == lines[..k] + [l] + lines[k + 1..];
    LinesAreStable(s);
    StableReplace(lines, k, l);
    LinesOfJoin(lines[k := l]);
  }

  lemma InsertedText(s: string, k: nat, l: string)
    requires k < |Lines(s)| && Insertable(l)
    ensures var p := |Join(Lines(s)[..k])|; p <= |s| && Lines(s[..p] + l + s[p..]) == Inserted(Lines(s), k, l)
  {
    var lines := Lines(s);
    CutAt(s, k);
    JoinAround(lines[..k], l, lines[k..]);
    LinesAreStable(s);
    StableInsert(lines, k, l);
    LinesOfJoin(Inserted(lines, k, l));
  }

  lemma PrependedText(s: string, l: string)
    requires Insertable(l)
    ensures Lines(l + s) == [l] + Lines(s)
  {
    LinesAreStable(s);
    JoinLines(s);
    var all := [l] + Lines(s);
    assert all[1..] == Lines(s);
    assert Stable(all);
    LinesOfJoin(all);
  }

  /** Where the line goes, and how much of the file it takes the place of; in front of everything if nothing remains. */
  ghost predicate EditPlace(s: string, tag: string, section: string, p: nat, remain: nat, linesize: nat) {
    var lines := Lines(s);
    var k, j := Found(lines, tag), Found(lines, section);
    if FoundInside(lines, tag) then remain > 0 && p == |Join(lines[..k])| && linesize == |lines[k]|
    else if FoundInside(lines, section) then remain > 0 && p == |Join(lines[..j + 1])| && linesize == 0
    else remain == 0
  }

  method FindPlace(buf: string, tag: string, section: string) returns (p: nat, remain: nat, linesize: nat)
    ensures EditPlace(buf, tag, section, p, remain, linesize)
  {
    p, remain, linesize := FindLine(buf, tag);
    if remain == 0 {
      p, remain, linesize := FindLine(buf, section);
      if remain > 0 { LinesAround(Lines(buf), Found(Lines(buf), section)); }
      p := p + linesize;
      linesize := 0;
    }
  }

  lemma EditedText(s: string, tag: string, section: string, p: nat, remain: nat, linesize: nat, l: string)
    requires EditPlace(s, tag, section, p, remain, linesize) && Insertable(l)
    ensures remain > 0 ==>
              p + linesize <= |s| && Lines(s[..p] + l + s[p + linesize..]) == Edited(Lines(s), tag, section, l)
    ensures remain == 0 ==> Lines(l + s) == Edited(Lines(s), tag, section, l)
  {
    if FoundInside(Lines(s), tag) {
      ReplacedLine(s, Found(Lines(s), tag), p, linesize, l);
    } else if FoundInside(Lines(s), section) {
      InsertedLine(s, Found(Lines(s), section) + 1, p, l);
    } else {
      PrependedText(s, l);
    }
  }

  lemma InsertedLine(s: string, k: nat, p: nat, l: string)
    requires k < |Lines(s)| && Insertable(l) && p == |Join(Lines(s)[..k])|
    ensures p <= |s| && Lines(s[..p] + l + s[p..]) == Inserted(Lines(s), k, l)
  {
    InsertedText(s, k, l);
  }

  lemma ReplacedLine(s: string, k: nat, p: nat, linesize: nat, l: string)
    requires k < |Lines(s)| && Insertable(l) && p == |Join(Lines(s)[..k])| && linesize == |Lines(s)[k]|
    ensures p + linesize <= |s| && Lines(s[..p] + l + s[p + linesize..]) == Lines(s)[k := l]
  {
    LinesAround(Lines(s), k);
    ReplacedText(s, k, l);
  }

  /** Writes the file in its three pieces. */
  method WriteAround(buf: string, p0: nat, remain: nat, linesize: nat, l: string) returns (file: string)
    requires remain > 0 ==> p0 + linesize <= |buf|
    ensures file == if remain > 0 then buf[..p0] + l + buf[p0 + linesize..] else l + buf
  {
    var p := p0;
    file := "";
    if remain > 0 {
      file := buf[..p];
      p := p + linesize;
    } else {
      p := 0;
      assert "" + l == l && buf[0..] == buf;
    }
    file := file + l;
    file := file + buf[p..];
  }

  /** save_magx_inf, on the file that was loaded. `created` says whether the file can be written. */
  method SaveMagxInf(buf: string, rez: int, vmode: int, created: bool) returns (ret: bool, file: string)
    ensures ret == created
    ensures ret ==> Lines(file) == MagxLines(Lines(buf), DeviceLine(rez, vmode))
    ensures ret ==> EditedInFull(Lines(buf), Lines(file), "#_DEV", "#[aes]",
                                 "#_DEV " + IntText(rez, 10) + " " + IntText(vmode, 10) + "\r\n")
    ensures !ret ==> file == buf
  {
    ret, file := created, buf;
    var p, remain, linesize := FindPlace(buf, "#_DEV", "#[aes]");
    if created {
      DeviceLineIsFound(rez, vmode);
      var linebuf := DeviceLine(rez, vmode);
      EditedText(buf, "#_DEV", "#[aes]", p, remain, linesize, linebuf);
      EditedIs(Lines(buf), "#_DEV", "#[aes]", linebuf);
      file := WriteAround(buf, p, remain, linesize, linebuf);
    }
  }

  // ----- save_fvdi_inf

  const DRIVER_SIZE := 31
  const MODE := "01r "

  function DriverTag(planes: int): string { "#[driver" + IntText(planes, 10) + "]" }

  /** The text up to a line end, a blank or a NUL. */
  function Word(s: string): string {
    if s == [] || EndsWord(s[0]) then [] else [s[0]] + Word(s[1..])
  }

  /** What stands behind the tag on its line. The tag is taken off the start of the line, white space or not. If
      there is nothing, or too much, the tag itself is what is left in the buffer. */
  function DriverOn(line: string, tag: string): string
    requires |tag| <= |line|
  {
    var rest := SkipWhite(line[|tag|..]);
    if 0 < |rest| < DRIVER_SIZE then Word(rest) else tag
  }

  function ModeText(hres: int, vres: int, planes: int, freq: int): string {
    IntText(hres, 10) + "x" + IntText(vres, 10) + "x" + IntText(planes, 10) + "@" + IntText(freq, 10)
  }

  function ModeLine(driver: string, hres: int, vres: int, planes: int, freq: int): string {
    MODE + (driver + " mode " + ModeText(hres, vres, planes, freq)) + [CR, LF]
  }

  function Without(lines: seq<string>, k: nat): seq<string>
    requires k < |lines|
  {
    lines[..k] + lines[k + 1..]
  }

  /** The mode line is replaced if there is one that is not the last line, and no other such line in what remains. */
  predicate OneMode(lines: seq<string>) { OneMatch(lines, MODE) }

  /** The n characters d places behind p have been moved down to it. */
  ghost predicate MovedTo(now: string, was: string, p: nat, d: nat, n: nat) {
    && |now| == |was| && p + d + n <= |was|
    && forall j {:trigger now[j]} :: 0 <= j < |now| ==> now[j] == was[if p <= j < p + n then j + d else j]
  }

  lemma MoveStep(now: string, was: string, p: nat, d: nat, n: nat)
    requires MovedTo(now, was, p, d, n) && p + d + n < |was|
    ensures MovedTo(now[p + n := now[p + d + n]], was, p, d, n + 1)
  {
    assert now[p + d + n] == was[p + d + n];
  }

  lemma Moved(now: string, was: string, p: nat, d: nat, n: nat)
    requires MovedTo(now, was, p, d, n)
    ensures now[..p + n] == was[..p] + was[p + d..p + d + n]
  {
  }

  /** memmove of n characters down by d, to p. */
  method MoveDown(buf: array<char>, p: nat, d: nat, n: nat)
    requires p + d + n <= buf.Length
    modifies buf
    ensures buf[..p + n] == old(buf[..])[..p] + old(buf[..])[p + d..p + d + n]
  {
    ghost var was := buf[..];
    var i := 0;
    while i < n
      invariant i <= n && MovedTo(buf[..], was, p, d, i)
    {
      ghost var now := buf[..];
      MoveStep(now, was, p, d, i);
      buf[p + i] := buf[p + d + i];
      assert buf[..] == now[p + i := now[p + d + i]];
      i := i + 1;
    }
    Moved(buf[..], was, p, d, n);
    assert buf[..][..p + n] == buf[..p + n];
  }

  /** The line k of s is at p and has d characters. */
  ghost predicate LineIsAt(s: string, k: nat, p: nat, d: nat) {
    k < |Lines(s)| && p == |Join(Lines(s)[..k])| && d == |Lines(s)[k]| && p + d <= |s|
  }

  method FindToRemove(s: string, str: string) returns (found: bool, p: nat, remain: nat, linesize: nat)
    ensures found == FoundInside(Lines(s), str)
    ensures found ==> p + linesize + remain == |s| && LineIsAt(s, Found(Lines(s), str), p, linesize)
  {
    p, remain, linesize := FindLine(s, str);
    found := remain > 0;
  }

  lemma MovedText(was: string, size: nat, p: nat, d: nat, n: nat)
    requires p + d + n == size <= |was|
    ensures was[..p] + was[p + d..p + d + n] == was[..size][..p] + was[..size][p + d..]
  {
  }

  /** Moves what is behind the first line that matches over that line, of d characters. */
  method RemoveLine(buf: array<char>, str: string, size: nat) returns (found: bool, p: nat, newsize: nat, ghost d: nat)
    requires size <= buf.Length
    modifies buf
    ensures var s := old(buf[..])[..size];
            && found == FoundInside(Lines(s), str)
            && (found ==>
                  LineIsAt(s, Found(Lines(s), str), p, d)
                  && newsize == size - d && buf[..newsize] == s[..p] + s[p + d..])
    ensures !found ==> buf[..] == old(buf[..])
  {
    assert buf[..size] == buf[..][..size];
    var remain, linesize;
    found, p, remain, linesize := FindToRemove(buf[..size], str);
    newsize, d := size, linesize;
    if found {
      newsize := size - linesize;
      MovedText(buf[..], size, p, linesize, remain);
      MoveDown(buf, p, linesize, remain);
    }
  }

  lemma MatchIsLong(line: string, tag: string)
    requires Matches(line, tag)
    ensures |tag| <= |line|
  {
    SkipWhiteShorter(line[..if ValidLen(line) > LINEBUF then LINEBUF else ValidLen(line)]);
  }

  lemma {:induction false} SkipWhiteShorter(s: string)
    ensures |SkipWhite(s)| <= |s|
  {
    if s != [] { SkipWhiteShorter(s[1..]); }
  }

  /** The driver that the file names for so many planes; the tag if it names none. */
  function DriverFor(lines: seq<string>, planes: int): string {
    var tag := DriverTag(planes);
    if FoundInside(lines, tag) then
      MatchIsLong(lines[Found(lines, tag)], tag);
      DriverOn(lines[Found(lines, tag)], tag)
    else tag
  }

  /** In full: the driver is the word behind the tag and white space on the first line with the tag, if that is not the
      last line and what is behind the white space has less than 31 characters, its end included. */
  lemma DriverInFull(lines: seq<string>, planes: int, k: int, w: int, n: int)
    requires var tag := "#[driver" + IntText(planes, 10) + "]";
             && FirstMatch(lines, k, tag) && k + 1 < |lines| && |tag| <= w <= w + n <= |lines[k]|
             && (forall i :: |tag| <= i < w ==> lines[k][i] == ' ' || lines[k][i] == '\t')
    requires 0 < |lines[k]| - w < 31 && lines[k][w] != ' ' && lines[k][w] != '\t'
    requires forall i :: w <= i < w + n ==> lines[k][i] !in "\r\n \0"
    requires w + n < |lines[k]| ==> lines[k][w + n] in "\r\n \0"
    ensures DriverFor(lines, planes) == lines[k][w..w + n]
  {
    var tag := DriverTag(planes);
    var rest := lines[k][|tag|..];
    FirstIsFound(lines, tag);
    SkipsBlanks(rest, w - |tag|);
    assert rest[w - |tag|..] == lines[k][w..];
    WordIs(lines[k][w..], n);
    assert lines[k][w..][..n] == lines[k][w..w + n];
  }

  lemma {:induction false} WordIs(s: string, n: nat)
    requires n <= |s| && (forall i :: 0 <= i < n ==> s[i] !in "\r\n \0") && (n < |s| ==> s[n] in "\r\n \0")
    ensures Word(s) == s[..n]
  {
    if n > 0 {
      WordIs(s[1..], n - 1);
      assert s[..n] == [s[0]] + s[1..][..n - 1];
    }
  }

  /** Otherwise no driver is named. */
  lemma NoDriver(lines: seq<string>, planes: int)
    requires var tag := "#[driver" + IntText(planes, 10) + "]";
             forall k :: FirstMatch(lines, k, tag) ==>
                           k + 1 == |lines|
                           || (|tag| <= |lines[k]|
                               && (var n := |SkipWhite(lines[k][|tag|..])|; n == 0 || n >= 31))
    ensures DriverFor(lines, planes) == "#[driver" + IntText(planes, 10) + "]"
  {
    FirstIsFound(lines, DriverTag(planes));
  }

  predicate NamesDriver(driver: string) { driver == "" || driver[0] != '#' }

  predicate CanSaveFvdi(lines: seq<string>, planes: int) { NamesDriver(DriverFor(lines, planes)) && OneMode(lines) }

  predicate EndsWord(c: char) { c == CR || c == LF || c == ' ' || c == '\0' }

  /** Copies up to the end of the word. */
  method ReadWord(s: string) returns (word: string)
    ensures word == Word(s)
  {
    var i := 0;
    word := "";
    assert s[0..] == s && "" + Word(s) == Word(s);
    while i < |s| && !EndsWord(s[i])
      invariant i <= |s| && Word(s) == word + Word(s[i..])
    {
      WordStep(s, i, word);
      word := word + [s[i]];
      i := i + 1;
    }
    assert word + [] == word;
  }

  lemma WordStep(s: string, i: nat, word: string)
    requires i < |s| && !EndsWord(s[i])
    ensures word + Word(s[i..]) == word + [s[i]] + Word(s[i + 1..])
  {
    assert s[i..][1..] == s[i + 1..];
    assert word + ([s[i]] + Word(s[i + 1..])) == word + [s[i]] + Word(s[i + 1..]);
  }

  method ReadDriver(line: string, tag: string) returns (driver: string)
    requires |tag| <= |line|
    ensures driver == DriverOn(line, tag)
  {
    var rest := SkipWhite(line[|tag|..]);
    driver := tag;
    if 0 < |rest| < DRIVER_SIZE {
      driver := ReadWord(rest);
    }
  }

  lemma {:induction false} WordIsOneLine(s: string)
    ensures OneLine(Word(s))
  {
    if s != [] { WordIsOneLine(s[1..]); }
  }

  lemma ModeLineCanBeInserted(driver: string, hres: int, vres: int, planes: int, freq: int)
    requires OneLine(driver)
    ensures Insertable(ModeLine(driver, hres, vres, planes, freq))
    ensures Matches(ModeLine(driver, hres, vres, planes, freq), MODE)
  {
    ModeIsOneLine(hres, vres, planes, freq);
    TaggedLine(MODE, driver + " mode " + ModeText(hres, vres, planes, freq));
  }

  lemma ModeIsOneLine(hres: int, vres: int, planes: int, freq: int)
    ensures OneLine(ModeText(hres, vres, planes, freq))
  {
    IntIsPlain(hres);
    IntIsPlain(vres);
    IntIsPlain(planes);
    IntIsPlain(freq);
    PlainIsOneLine(IntText(hres, 10));
    PlainIsOneLine(IntText(vres, 10));
    PlainIsOneLine(IntText(planes, 10));
    PlainIsOneLine(IntText(freq, 10));
  }

  lemma PlainIsOneLine(s: string)
    requires Plain(s)
    ensures OneLine(s)
  {
    forall i | 0 <= i < |s| ensures s[i] != CR && s[i] != LF { assert !Stops(s[i]); }
  }

  /** fvdi.sys, with the mode line replaced. */
  function FvdiLines(lines: seq<string>, l: string): seq<string>
    requires OneMode(lines)
  {
    lines[Found(lines, MODE) := l]
  }

  /** A file in three pieces: the lines in front of a line, the line, and the lines behind it. */
  ghost predicate Around(s: string, k: nat, p: nat, d: nat) {
    && k < |Lines(s)| && p + d <= |s| && d == |Lines(s)[k]|
    && s[..p] == Join(Lines(s)[..k]) && s[p + d..] == Join(Lines(s)[k + 1..])
  }

  lemma LineAround(s: string, k: nat, p: nat, d: nat)
    requires LineIsAt(s, k, p, d)
    ensures Around(s, k, p, d)
  {
    CutAt(s, k);
    CutAt(s, k + 1);
    LinesAround(Lines(s), k);
  }

  lemma TextWithout(s: string, k: nat, p: nat, d: nat)
    requires Around(s, k, p, d)
    ensures s[..p] + s[p + d..] == Join(Without(Lines(s), k))
  {
    JoinAppend(Lines(s)[..k], Lines(s)[k + 1..]);
  }

  predicate OneMatch(lines: seq<string>, tag: string) {
    && FoundInside(lines, tag)
    && !FoundInside(Lines(Join(Without(lines, Found(lines, tag)))), tag)
  }

  lemma OneMatchInFull(lines: seq<string>, tag: string)
    ensures var k := Found(lines, tag);
            OneMatch(lines, tag) <==>
              k + 1 < |lines| && var left := Lines(Join(lines[..k] + lines[k + 1..])); Found(left, tag) + 1 >= |left|
  {
  }

  /** Takes the line out of the buffer, if it is the only one. */
  method RemoveOnly(buf: array<char>, tag: string) returns (ok: bool, p: nat, newsize: nat, ghost d: nat)
    modifies buf
    ensures var s := old(buf[..]);
            && ok == OneMatch(Lines(s), tag)
            && (ok ==>
                  LineIsAt(s, Found(Lines(s), tag), p, d)
                  && newsize == |s| - d && buf[..newsize] == s[..p] + s[p + d..])
  {
    ghost var s := buf[..];
    assert s[..buf.Length] == s;
    ok, p, newsize, d := RemoveLine(buf, tag, buf.Length);
    if ok {
      LineAround(s, Found(Lines(s), tag), p, d);
      TextWithout(s, Found(Lines(s), tag), p, d);
      ok := NoOther(buf, newsize, tag);
    }
  }

  /** Looks for another such line; if there is one, the buffer is of no more use. */
  method NoOther(buf: array<char>, size: nat, tag: string) returns (none: bool)
    requires size <= buf.Length
    modifies buf
    ensures none == !FoundInside(Lines(old(buf[..size])), tag)
    ensures none ==> buf[..size] == old(buf[..size])
  {
    assert buf[..size] == buf[..][..size];
    var found, lp2, dummy;
    ghost var d;
    found, lp2, dummy, d := RemoveLine(buf, tag, size);
    none := !found;
    assert none ==> buf[..size] == buf[..][..size];
  }

  /** save_fvdi_inf, on the file that was loaded. */
  method SaveFvdiInf(buf: array<char>, hres: int, vres: int, planes: int, freq: int, created: bool)
    returns (ret: int, file: string)
    modifies buf
    ensures var s := old(buf[..]);
            var lines := Lines(s);
            var driver, k := DriverFor(lines, planes), Found(lines, "01r ");
            && (ret == 1 <==> created && (driver == "" || driver[0] != '#') && k + 1 < |lines|
                              && var left := Lines(Join(lines[..k] + lines[k + 1..]));
                                 Found(left, "01r ") + 1 >= |left|)
            && (ret == 1 || ret == -1)
            && (ret == 1 ==>
                  var l := "01r " + (driver + " mode " + (IntText(hres, 10) + "x" + IntText(vres, 10) + "x"
                                                          + IntText(planes, 10) + "@" + IntText(freq, 10))) + "\r\n";
                  Lines(file) == lines[..k] + [l] + lines[k + 1..])
            && (ret != 1 ==> file == s)
  {
    ghost var s := buf[..];
    ret, file := -1, buf[..];
    var driver := FindDriver(buf[..], planes);
    OneMatchInFull(Lines(s), MODE);
    if NamesDriver(driver) {
      var ok, p, newsize;
      ghost var d;
      ok, p, newsize, d := RemoveOnly(buf, MODE);
      if ok && created {
        file := WriteFvdi(buf, p, newsize, ModeLine(driver, hres, vres, planes, freq), s, Found(Lines(s), MODE), d);
        ret := 1;
      }
    }
  }

  method WriteFvdi(buf: array<char>, p: nat, newsize: nat, l: string, ghost s: string, ghost k: nat, ghost d: nat)
    returns (file: string)
    requires LineIsAt(s, k, p, d) && |s| == buf.Length && newsize == |s| - d
    requires buf[..newsize] == s[..p] + s[p + d..] && Insertable(l)
    ensures Lines(file) == Lines(s)[k := l] == Lines(s)[..k] + [l] + Lines(s)[k + 1..]
  {
    Pieces(buf[..], s, p, d);
    ReplacedLine(s, k, p, d, l);
    file := buf[..p];
    file := file + l;
    file := file + buf[p..newsize];
  }

  lemma Pieces(b: string, s: string, p: nat, d: nat)
    requires p + d <= |s| == |b| && b[..|s| - d] == s[..p] + s[p + d..]
    ensures b[..p] == s[..p] && b[p..|s| - d] == s[p + d..]
  {
    var n := |s| - d;
    assert b[..n][..p] == b[..p] && b[..n][p..] == b[p..n];
  }

  method FindDriver(s: string, planes: int) returns (driver: string)
    ensures driver == DriverFor(Lines(s), planes)
    ensures NamesDriver(driver) ==> forall h, v, f :: Insertable(ModeLine(driver, h, v, planes, f))
  {
    var tag := DriverTag(planes);
    driver := tag;
    var p, remain, linesize := FindLine(s, tag);
    if remain > 0 {
      ghost var k := Found(Lines(s), tag);
      MatchIsLong(Lines(s)[k], tag);
      CutAt(s, k);
      CutAt(s, k + 1);
      LinesAround(Lines(s), k);
      LineAt(s, k);
      driver := ReadDriver(s[p..p + linesize], tag);
      WordIsOneLine(SkipWhite(s[p..p + linesize][|tag|..]));
    }
    if NamesDriver(driver) {
      forall h, v, f ensures Insertable(ModeLine(driver, h, v, planes, f)) {
        ModeLineCanBeInserted(driver, h, v, planes, f);
      }
    }
  }

  lemma LineAt(s: string, k: nat)
    requires k < |Lines(s)|
    ensures var p := |Join(Lines(s)[..k])|; p + |Lines(s)[k]| <= |s| && s[p..p + |Lines(s)[k]|] == Lines(s)[k]
  {
    var lines := Lines(s);
    CutAt(s, k);
    assert lines[k..][0] == lines[k] && lines[k..][1..] == lines[k + 1..];
    assert Join(lines[k..]) == lines[k] + Join(lines[k + 1..]);
  }

  /** What the file says about drivers is not changed, so here too the last save counts, and saving the same mode
      twice is saving it once. */
  lemma LastFvdiSaveCounts(lines: seq<string>, planes: int, a: string, b: string)
    requires CanSaveFvdi(lines, planes) && Matches(a, MODE)
    ensures CanSaveFvdi(FvdiLines(lines, a), planes)
    ensures DriverFor(FvdiLines(lines, a), planes) == DriverFor(lines, planes)
    ensures FvdiLines(FvdiLines(lines, a), b) == FvdiLines(lines, b)
  {
    var k := Found(lines, MODE);
    ReplaceMatch(lines, MODE, k, a);
    SecondCounts(lines, k, a, b);
    SaysTheSame(lines, planes, MODE, k, a);
  }

  /** Replacing a mode line does not change what the file says about drivers. */
  lemma SaysTheSame(lines: seq<string>, planes: int, tag: string, k: nat, a: string)
    requires k == Found(lines, tag) < |lines| && Matches(a, tag) && tag != [] && tag[0] == '0'
    ensures DriverFor(lines[k := a], planes) == DriverFor(lines, planes)
  {
    var other := DriverTag(planes);
    TagsDiffer(lines[k], tag, other);
    TagsDiffer(a, tag, other);
    SameFound(lines, lines[k := a], other, k);
  }

  lemma SecondCounts(lines: seq<string>, k: nat, a: string, b: string)
    requires k < |lines|
    ensures lines[k := a][k := b] == lines[k := b]
  {
  }

  lemma ReplaceMatch(lines: seq<string>, tag: string, k: nat, a: string)
    requires k == Found(lines, tag) < |lines| && Matches(a, tag)
    ensures Found(lines[k := a], tag) == k && Without(lines[k := a], k) == Without(lines, k)
    ensures OneMatch(lines, tag) ==> OneMatch(lines[k := a], tag)
  {
    FoundAt(lines[k := a], tag, k);
  }

  lemma TagsDiffer(l: string, tag: string, other: string)
    requires Matches(l, tag) && tag != [] && other != [] && tag[0] != other[0]
    ensures !Matches(l, other)
  {
  }

  lemma SameFound(lines: seq<string>, now: seq<string>, tag: string, k: nat)
    requires k < |lines| == |now| && now == lines[k := now[k]]
    requires !Matches(lines[k], tag) && !Matches(now[k], tag)
    ensures Found(now, tag) == Found(lines, tag)
    ensures Found(lines, tag) < |lines| ==> now[Found(lines, tag)] == lines[Found(lines, tag)]
  {
    var j := Found(lines, tag);
    if j < |lines| {
      FoundAt(now, tag, j);
    } else {
      NoneFound(now, tag);
    }
  }

  lemma {:induction false} NoneFound(lines: seq<string>, tag: string)
    requires forall i :: 0 <= i < |lines| ==> !Matches(lines[i], tag)
    ensures Found(lines, tag) == |lines|
  {
    if lines != [] {
      assert !Matches(lines[0], tag);
      NoneFound(lines[1..], tag);
    }
  }
}
