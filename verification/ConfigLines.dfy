/** Lines of a configuration file, and looking for one. */
module ConfigLines {
  const CR := '\r'
  const LF := '\n'
  const LINEBUF := 511   // so much of a line is looked at

  // ----- lines

  /** The length of the first line, with its end: CR, LF or both. */
  function LineLen(s: string): (n: nat)
    ensures n <= |s| && (s != [] ==> n > 0)
  {
    if s == [] then 0
    else if s[0] == CR then (if |s| > 1 && s[1] == LF then 2 else 1)
    else if s[0] == LF then 1
    else 1 + LineLen(s[1..])
  }

  /** In full: a line ends with the first newline, or the first carriage return that no newline follows, or the text. */
  lemma {:induction false} LineLenInFull(s: string)
    ensures var n := LineLen(s);
            && (forall i :: 0 <= i < n - 1 ==> s[i] != '\n' && (s[i] == '\r' ==> i == n - 2 && s[n - 1] == '\n'))
            && (0 < n < |s| ==> s[n - 1] == '\n' || (s[n - 1] == '\r' && s[n] != '\n'))
  {
    if s != [] && s[0] != CR && s[0] != LF {
      LineLenInFull(s[1..]);
      var n := LineLen(s[1..]);
      forall i | 0 <= i < n ensures s[i] != '\n' && (s[i] == '\r' ==> i == n - 1 && s[n] == '\n') {
        assert i > 0 ==> s[i] == s[1..][i - 1];
      }
    }
  }

  function Lines(s: string): seq<string>
    decreases |s|
  {
    if s == [] then [] else [s[..LineLen(s)]] + Lines(s[LineLen(s)..])
  }

  function Join(lines: seq<string>): string {
    if lines == [] then [] else lines[0] + Join(lines[1..])
  }

  /** No line is lost, and no character. */
  lemma {:induction false} JoinLines(s: string)
    ensures Join(Lines(s)) == s
    decreases |s|
  {
    if s != [] {
      JoinLines(s[LineLen(s)..]);
      assert Lines(s)[1..] == Lines(s[LineLen(s)..]);
    }
  }

  lemma {:induction false} JoinAppend(a: seq<string>, b: seq<string>)
    ensures Join(a + b) == Join(a) + Join(b)
  {
    if a == [] {
      assert a + b == b;
    } else {
      JoinAppend(a[1..], b);
      assert (a + b)[1..] == a[1..] + b;
      assert a[0] + (Join(a[1..]) + Join(b)) == a[0] + Join(a[1..]) + Join(b);
    }
  }

  predicate IsLine(l: string) { l != [] && LineLen(l) == |l| }

  /** The line has an end, and what comes next does not make it longer. */
  predicate Closed(l: string, next: string) {
    l != [] && next != [] && (l[|l| - 1] == LF || (l[|l| - 1] == CR && next[0] != LF))
  }

  /** Lines that stay what they are when they are put behind each other. */
  predicate Stable(lines: seq<string>)
  {
    lines == [] || (IsLine(lines[0]) && (|lines| > 1 ==> Closed(lines[0], lines[1])) && Stable(lines[1..]))
  }

  lemma {:induction false} LineAhead(l: string, rest: string)
    requires IsLine(l) && Closed(l, rest)
    ensures LineLen(l + rest) == |l|
  {
    var s := l + rest;
    if l[0] == CR || l[0] == LF {
      assert |l| > 1 ==> s[1] == l[1];
    } else {
      assert |l| > 1;
      assert s[1..] == l[1..] + rest;
      LineAhead(l[1..], rest);
    }
  }

  lemma StableHead(lines: seq<string>)
    requires Stable(lines) && lines != []
    ensures Join(lines) != [] && Join(lines)[0] == lines[0][0]
  {
  }

  lemma {:induction false} LinesOfJoin(lines: seq<string>)
    requires Stable(lines)
    ensures Lines(Join(lines)) == lines
  {
    if lines != [] {
      var l, rest := lines[0], Join(lines[1..]);
      LinesOfJoin(lines[1..]);
      if |lines| > 1 {
        StableHead(lines[1..]);
        LineAhead(l, rest);
      } else {
        assert l + rest == l;
      }
      assert (l + rest)[|l|..] == rest && (l + rest)[..|l|] == l;
    }
  }

  lemma {:induction false} FirstLine(s: string)
    requires s != []
    ensures IsLine(s[..LineLen(s)])
    ensures LineLen(s) < |s| ==> Closed(s[..LineLen(s)], s[LineLen(s)..])
  {
    var n := LineLen(s);
    if s[0] != CR && s[0] != LF && n > 1 {
      FirstLine(s[1..]);
      assert s[..n][1..] == s[1..][..n - 1];
      assert s[1..][n - 1..] == s[n..];
    }
  }

  lemma {:induction false} LinesAreStable(s: string)
    ensures Stable(Lines(s))
    decreases |s|
  {
    if s != [] {
      var rest := s[LineLen(s)..];
      FirstLine(s);
      LinesAreStable(rest);
      assert Lines(s)[1..] == Lines(rest);
      if rest != [] { assert Lines(rest)[0][0] == rest[0]; }
    }
  }

  // ----- editing lines

  /** A line that can go anywhere in front of other lines, and behind lines with an end. */
  predicate Insertable(l: string) { IsLine(l) && l[|l| - 1] == LF && l[0] != LF }

  lemma {:induction false} StableReplace(lines: seq<string>, k: nat, l: string)
    requires Stable(lines) && k < |lines| && Insertable(l)
    ensures Stable(lines[k := l])
  {
    var now := lines[k := l];
    if k == 0 {
      assert now[1..] == lines[1..];
      if |lines| > 1 { assert IsLine(lines[1..][0]); }
    } else {
      StableReplace(lines[1..], k - 1, l);
      assert now[1..] == lines[1..][k - 1 := l];
    }
  }

  lemma {:induction false} StableInsert(lines: seq<string>, k: nat, l: string)
    requires Stable(lines) && k < |lines| && Insertable(l)
    ensures Stable(lines[..k] + [l] + lines[k..])
  {
    var now := lines[..k] + [l] + lines[k..];
    if k == 0 {
      assert now == [l] + lines && now[1..] == lines;
    } else {
      StableInsert(lines[1..], k - 1, l);
      assert now[1..] == lines[1..][..k - 1] + [l] + lines[1..][k - 1..];
      assert now[1] == if k == 1 then l else lines[1];
    }
  }

  // ----- looking for a line

  predicate Stops(c: char) { c == CR || c == LF || c == ';' || c == '*' }

  /** How much of the first line is in front of its end and of a comment. */
  function ValidLen(s: string): (n: nat)
    ensures n <= |s| && (n < |s| ==> Stops(s[n])) && forall i :: 0 <= i < n ==> !Stops(s[i])
  {
    if s == [] || Stops(s[0]) then 0 else 1 + ValidLen(s[1..])
  }

  function SkipWhite(s: string): string {
    if s != [] && (s[0] == ' ' || s[0] == '\t') then SkipWhite(s[1..]) else s
  }

  /** The first line of s, as far as it is looked at, has str in front, behind any white space. */
  predicate Matches(s: string, str: string) {
    var n := if ValidLen(s) > LINEBUF then LINEBUF else ValidLen(s);
    str <= SkipWhite(s[..n])
  }

  /** In full: among the first 511 characters, in front of the line's end and of a semicolon or an asterisk, there are
      some blanks and tabs, or none, and then str. */
  lemma MatchesInFull(s: string, str: string, k: nat)
    requires str != "" && str[0] != ' ' && str[0] != '\t'
    requires k <= |s| && (forall i :: 0 <= i < k ==> s[i] == ' ' || s[i] == '\t')
    requires k < |s| ==> s[k] != ' ' && s[k] != '\t'
    ensures Matches(s, str) <==>
            && k + |str| <= 511 && k + |str| <= |s| && s[k..k + |str|] == str
            && forall i :: k <= i < k + |str| ==> s[i] != '\r' && s[i] != '\n' && s[i] != ';' && s[i] != '*'
  {
    var v := ValidLen(s);
    var n := if v > LINEBUF then LINEBUF else v;
    BlanksAreValid(s, k);
    if k <= n {
      SkipsBlanks(s[..n], k);
      assert s[..n][k..] == s[k..n];
      assert k + |str| <= n ==> s[k..n][..|str|] == s[k..k + |str|];
      if k + |str| <= |s| && (forall i :: k <= i < k + |str| ==> !Stops(s[i])) {
        assert v >= k + |str|;
      }
    } else {
      AllSkipped(s[..n]);
    }
  }

  lemma BlanksAreValid(s: string, k: nat)
    requires k <= |s| && forall i :: 0 <= i < k ==> s[i] == ' ' || s[i] == '\t'
    ensures ValidLen(s) >= k
  {
  }

  lemma {:induction false} SkipsBlanks(s: string, k: nat)
    requires k <= |s| && (forall i :: 0 <= i < k ==> s[i] == ' ' || s[i] == '\t')
    requires k < |s| ==> s[k] != ' ' && s[k] != '\t'
    ensures SkipWhite(s) == s[k..]
  {
    if k > 0 {
      SkipsBlanks(s[1..], k - 1);
      assert s[1..][k - 1..] == s[k..];
    }
  }

  lemma {:induction false} AllSkipped(s: string)
    requires forall i :: 0 <= i < |s| ==> s[i] == ' ' || s[i] == '\t'
    ensures SkipWhite(s) == ""
  {
    if s != [] { AllSkipped(s[1..]); }
  }

  lemma {:induction false} ValidWithinLine(s: string)
    ensures ValidLen(s[..LineLen(s)]) == ValidLen(s) <= LineLen(s)
  {
    if s != [] && !Stops(s[0]) {
      ValidWithinLine(s[1..]);
      assert s[..LineLen(s)][1..] == s[1..][..LineLen(s[1..])];
    }
  }

  /** What is found depends on the line alone. */
  lemma MatchesLine(s: string, str: string)
    ensures Matches(s, str) <==> Matches(s[..LineLen(s)], str)
  {
    ValidWithinLine(s);
    var n := if ValidLen(s) > LINEBUF then LINEBUF else ValidLen(s);
    assert s[..LineLen(s)][..n] == s[..n];
  }

  /** The first line that matches, or the number of lines. */
  function Found(lines: seq<string>, str: string): (k: nat)
    ensures k <= |lines| && (k < |lines| ==> Matches(lines[k], str))
    ensures forall i :: 0 <= i < k ==> !Matches(lines[i], str)
  {
    if lines == [] || Matches(lines[0], str) then 0 else 1 + Found(lines[1..], str)
  }

  /** A match on the last line does not count. */
  predicate FoundInside(lines: seq<string>, str: string) { Found(lines, str) + 1 < |lines| }

  lemma FoundAt(lines: seq<string>, str: string, k: nat)
    requires k < |lines| && Matches(lines[k], str) && forall i :: 0 <= i < k ==> !Matches(lines[i], str)
    ensures Found(lines, str) == k
  {
    var f := Found(lines, str);
    assert f < |lines| ==> Matches(lines[f], str);
  }

  // ----- the program

  /** The length of the line at p, and how much of it counts. A CR that is the last character is not looked behind. */
  method NextLine(s: string, p: nat, size: nat) returns (len: nat, valid: nat)
    requires p + size == |s|
    ensures len == LineLen(s[p..]) && valid == ValidLen(s[p..])
  {
    ghost var rest := s[p..];
    len, valid := 0, 0;
    var maxlen, comment := size, false;
    assert rest[0..] == rest;
    while maxlen > 0
      invariant 0 <= len <= |rest| && maxlen == |rest| - len
      invariant LineLen(rest) == len + LineLen(rest[len..])
      invariant ValidLen(rest) == valid + if comment then 0 else ValidLen(rest[len..])
      decreases maxlen
    {
      var c := s[p + len];
      assert c == rest[len] && rest[len..][1..] == rest[len + 1..];
      len := len + 1;
      maxlen := maxlen - 1;
      if c == CR {
        if maxlen > 0 && s[p + len] == LF {
          len := len + 1;
          maxlen := maxlen - 1;
        }
        return;
      }
      if c == LF { return; }
      if c == ';' || c == '*' { comment := true; }
      if !comment { valid := valid + 1; }
    }
  }

  method FindStr(line: string, str: string) returns (found: bool)
    ensures found <==> str <= SkipWhite(line)
  {
    var start := 0;
    assert line[0..] == line;
    while start < |line| && (line[start] == ' ' || line[start] == '\t')
      invariant start <= |line| && SkipWhite(line) == SkipWhite(line[start..])
    {
      assert line[start..][1..] == line[start + 1..];
      start := start + 1;
    }
    ghost var rest := line[start..];
    var i := 0;
    while start + i < |line| && i < |str| && line[start + i] == str[i]
      invariant 0 <= i <= |str| && i <= |rest| && rest[..i] == str[..i]
    {
      assert rest[..i + 1] == rest[..i] + [rest[i]] && str[..i + 1] == str[..i] + [str[i]];
      i := i + 1;
    }
    found := i == |str|;
    PrefixFound(rest, str, i);
  }

  lemma PrefixFound(rest: string, str: string, i: nat)
    requires i <= |str| && i <= |rest| && rest[..i] == str[..i] && (i == |str| || i == |rest| || rest[i] != str[i])
    ensures str <= rest <==> i == |str|
  {
    assert str[..|str|] == str;
    assert str <= rest ==> forall j :: 0 <= j < |str| ==> str[j] == rest[j];
  }

  /** Where the line is, how long it is, and how much comes behind it. */
  ghost predicate FoundLine(s: string, str: string, p: nat, remain: nat, linesize: nat) {
    var lines := Lines(s);
    var k := Found(lines, str);
    && (k < |lines| ==>
          p + linesize <= |s| && p == |Join(lines[..k])| && linesize == |lines[k]| && remain == |s| - p - linesize)
    && (k == |lines| ==> remain == 0)
    && (remain > 0 <==> FoundInside(lines, str))
  }

  /** The lines up to p, which do not match. */
  ghost predicate Searched(s: string, str: string, done: seq<string>, p: nat) {
    && p <= |s| && Lines(s) == done + Lines(s[p..]) && |Join(done)| == p
    && forall i :: 0 <= i < |done| ==> !Matches(done[i], str)
  }

  lemma SearchedNone(s: string, str: string)
    ensures Searched(s, str, [], 0)
  {
    assert s[0..] == s;
  }

  lemma AtMatch(s: string, str: string, done: seq<string>, p: nat)
    requires Searched(s, str, done, p) && Matches(s[p..], str)
    ensures FoundLine(s, str, p, |s| - p - LineLen(s[p..]), LineLen(s[p..]))
  {
    var rest := s[p..];
    if rest != [] {
      MatchesLine(rest, str);
      assert Lines(rest) == [rest[..LineLen(rest)]] + Lines(rest[LineLen(rest)..]);
      assert Lines(s)[|done|] == rest[..LineLen(rest)];
      FoundAt(Lines(s), str, |done|);
      assert Lines(s)[..|done|] == done;
    } else {
      assert Lines(s) == done;
    }
  }

  lemma NextStep(s: string, str: string, done: seq<string>, p: nat)
    requires Searched(s, str, done, p) && p < |s| && !Matches(s[p..], str)
    ensures var n := LineLen(s[p..]); Searched(s, str, done + [s[p..p + n]], p + n)
  {
    var n, rest := LineLen(s[p..]), s[p..];
    var l := s[p..p + n];
    assert l == rest[..n];
    MatchesLine(rest, str);
    LinesSplit(s, p, n, done);
    JoinOneMore(done, l);
  }

  lemma Advance(s: string, str: string, done: seq<string>, p: nat) returns (now: seq<string>)
    requires Searched(s, str, done, p) && !Matches(s[p..], str)
    ensures Searched(s, str, now, p + LineLen(s[p..]))
  {
    now := done;
    if p < |s| {
      NextStep(s, str, done, p);
      now := done + [s[p..p + LineLen(s[p..])]];
    }
  }

  lemma LinesSplit(s: string, p: nat, n: nat, done: seq<string>)
    requires p < |s| && n == LineLen(s[p..])
    ensures done + Lines(s[p..]) == done + [s[p..p + n]] + Lines(s[p + n..])
  {
    assert s[p..][..n] == s[p..p + n] && s[p..][n..] == s[p + n..];
    assert done + ([s[p..p + n]] + Lines(s[p + n..])) == done + [s[p..p + n]] + Lines(s[p + n..]);
  }

  lemma JoinOneMore(done: seq<string>, l: string)
    ensures |Join(done + [l])| == |Join(done)| + |l|
  {
    JoinAppend(done, [l]);
    assert Join([l]) == l + Join([]) == l;
  }

  lemma NoMatch(s: string, str: string, done: seq<string>, linesize: nat)
    requires Searched(s, str, done, |s|)
    ensures FoundLine(s, str, |s|, 0, linesize)
  {
    assert s[|s|..] == [] && Lines(s) == done;
  }

  method LookAtLine(s: string, p: nat, size: nat, str: string) returns (linesize: nat, found: bool)
    requires p + size == |s|
    ensures linesize == LineLen(s[p..]) && found == Matches(s[p..], str)
  {
    var valid;
    linesize, valid := NextLine(s, p, size);
    if valid > LINEBUF { valid := LINEBUF; }
    assert s[p..p + valid] == s[p..][..valid];
    found := FindStr(s[p..p + valid], str);
  }

  /** The first line that matches; nothing remains behind it if it is the last one, or if there is none. */
  method FindLine(s: string, str: string) returns (p: nat, remain: nat, linesize: nat)
    ensures FoundLine(s, str, p, remain, linesize)
  {
    var size := |s|;
    p, linesize := 0, 0;
    ghost var done: seq<string> := [];
    SearchedNone(s, str);
    while true
      invariant p + size == |s| && (p > 0 ==> size > 0) && Searched(s, str, done, p)
      decreases size
    {
      var found;
      linesize, found := LookAtLine(s, p, size, str);
      size := size - linesize;
      if found {
        AtMatch(s, str, done, p);
        break;
      }
      done := Advance(s, str, done, p);
      p := p + linesize;
      if !(size > 0 && linesize > 0) {
        NoMatch(s, str, done, linesize);
        break;
      }
    }
    remain := size;
  }
}
