/** The stream of vsnprintf: stores what fits into a buffer, and counts the rest. */
module MemStream {
  /** What the buffer holds once `text` has gone through the stream, before the NUL. */
  ghost predicate Stored(now: string, before: string, size: nat, text: string) {
    var n := Kept(size, |text|);
    |now| == |before| && n <= |now| && now[..n] == text[..n] && now[n..] == before[n..]
  }

  /** How many characters of a text are kept. */
  function Kept(size: nat, length: nat): (n: nat)
    ensures n <= length && n <= size
  {
    if size == 0 then 0 else if length < size then length else size - 1
  }

  lemma StoredMore(now: string, before: string, size: nat, text: string, c: char)
    requires Stored(now, before, size, text) && size <= |before|
    ensures |text| + 1 < size ==> |text| < |now| && Stored(now[|text| := c], before, size, text + [c])
    ensures |text| + 1 >= size ==> Stored(now, before, size, text + [c])
  {
    var n := Kept(size, |text|);
    if |text| + 1 < size {
      var next := now[|text| := c];
      assert next[..n + 1] == now[..n] + [c];
      assert next[n + 1..] == now[n..][1..];
      assert before[n..][1..] == before[n + 1..];
      assert (text + [c])[..n + 1] == text + [c] && text[..n] == text;
    } else {
      var m := Kept(size, |text| + 1);
      assert m == n;
      assert (text + [c])[..m] == text[..m];
    }
  }

  class Stream {
    const str: array<char>
    const size: nat
    var xstring: nat        // the next position, counted from str
    ghost var emitted: string
    ghost const before: string

    ghost predicate Valid()
      reads this, str
    {
      size <= str.Length && |before| == str.Length && xstring == |emitted| && Stored(str[..], before, size, emitted)
    }

    constructor (str: array<char>, size: nat)
      requires size <= str.Length
      ensures this.str == str && this.size == size && emitted == "" && before == str[..] && Valid()
    {
      this.str, this.size, xstring, emitted, before := str, size, 0, "", str[..];
    }

    /** __addchar */
    method AddChar(c: char) returns (n: nat)
      requires Valid()
      modifies this, str
      ensures Valid() && emitted == old(emitted) + [c] && n == 1
    {
      StoredMore(str[..], before, size, emitted, c);
      if size == 0 || xstring >= size - 1 {
        xstring := xstring + 1;
      } else {
        ghost var was := str[..];
        str[xstring] := c;
        assert str[..] == was[xstring := c];
        xstring := xstring + 1;
      }
      emitted := emitted + [c];
      return 1;
    }

    /** The same character n times, if n is positive. */
    method AddMany(c: char, n: int) returns (count: nat)
      requires Valid()
      modifies this, str
      ensures Valid() && emitted == old(emitted) + Repeat(c, n) && count == |Repeat(c, n)|
    {
      count := 0;
      var left := n;
      assert old(emitted) + [] == old(emitted);
      while left > 0
        invariant Valid() && left <= n && count == |Repeat(c, n - left)|
        invariant (n > 0 ==> left >= 0) && (n <= 0 ==> left == n)
        invariant emitted == old(emitted) + Repeat(c, n - left)
      {
        left := left - 1;
        RepeatStep(c, n - left);
        assert old(emitted) + Repeat(c, n - left) == old(emitted) + Repeat(c, n - left - 1) + [c];
        var k := AddChar(c);
        count := count + k;
      }
    }

    /** The first n characters of buf, the last one first. */
    method AddBackwards(buf: array<char>, n: nat, ghost text: string) returns (count: nat)
      requires Valid() && buf != str && n <= buf.Length && |text| == n
      requires forall k :: 0 <= k < n ==> buf[k] == text[n - 1 - k]
      modifies this, str
      ensures Valid() && emitted == old(emitted) + text && count == n
    {
      count := 0;
      var i := n;
      assert old(emitted) + text[..0] == old(emitted);
      while i > 0
        invariant Valid() && 0 <= i <= n && count == n - i
        invariant emitted == old(emitted) + text[..n - i]
      {
        i := i - 1;
        assert text[..n - i] == text[..n - i - 1] + [buf[i]];
        assert old(emitted) + text[..n - i] == old(emitted) + text[..n - i - 1] + [buf[i]];
        var k := AddChar(buf[i]);
        count := count + k;
      }
      assert text[..n] == text;
    }

    /** The end of vsnprintf. */
    method Finish() returns (r: nat)
      requires Valid()
      modifies str
      ensures r == |emitted| && Printed(str[..], before, size, emitted)
    {
      if size != 0 {
        ghost var was := str[..];
        if xstring <= size - 1 {
          str[xstring] := '\0';
        } else {
          str[size - 1] := '\0';
        }
        ghost var n := Kept(size, |emitted|);
        assert str[..] == was[n := '\0'];
        assert str[..][n + 1..] == was[n..][1..] && before[n..][1..] == before[n + 1..];
        assert str[..][..n] == was[..n];
      }
      return xstring;
    }
  }

  function Repeat(c: char, n: int): (s: string)
    ensures |s| == (if n > 0 then n else 0) && forall i :: 0 <= i < |s| ==> s[i] == c
  {
    if n <= 0 then [] else Repeat(c, n - 1) + [c]
  }

  lemma RepeatStep(c: char, n: int)
    requires n > 0
    ensures Repeat(c, n) == Repeat(c, n - 1) + [c]
  {
  }

  /** What vsnprintf leaves in the buffer: as much of the text as fits, and a NUL; nothing if the size is 0. */
  ghost predicate Printed(now: string, before: string, size: nat, text: string) {
    && |now| == |before|
    && (size == 0 ==> now == before)
    && (size > 0 ==>
          var n := Kept(size, |text|);
          n < |now| && now[..n] == text[..n] && now[n] == '\0' && now[n + 1..] == before[n + 1..])
  }

  /** vsnprintf, for the characters that its format and arguments come to. */
  method Vsnprintf(str: array<char>, size: nat, text: string) returns (r: nat)
    requires size <= str.Length
    modifies str
    ensures r == |text| && Printed(str[..], old(str[..]), size, text)
    ensures size == 0 ==> str[..] == old(str[..])
    ensures size > 0 ==>
              var n := if |text| < size then |text| else size - 1;
              str[..n] == text[..n] && str[n] == '\0' && str[n + 1..] == old(str[n + 1..])
  {
    var stream := new Stream(str, size);
    var i := 0;
    while i < |text|
      invariant stream.str == str && stream.size == size && stream.before == old(str[..])
      invariant stream.Valid() && i <= |text| && stream.emitted == text[..i]
    {
      var n := stream.AddChar(text[i]);
      i := i + 1;
    }
    assert text[..i] == text;
    r := stream.Finish();
  }
}
