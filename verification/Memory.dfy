/** Main memory of the 68000: 32-bit longs at addresses divisible by four.
    A byte is one of the four base-256 digits of its long, most significant first. */
module Memory {

  type Byte = b: int | 0 <= b < 256

  /** Longs that were never stored read as 0; nothing below relies on that value. */
  type Mem = map<int, int>

  function Long(m: Mem, a: int): int {
    if a in m then m[a] else 0
  }

  /** The weight of byte k (0..3) within a big-endian long. */
  function Weight(k: int): int
    requires 0 <= k < 4
  {
    if k == 0 then 0x100_0000 else if k == 1 then 0x1_0000 else if k == 2 then 0x100 else 1
  }

  /** Byte k (0..3) of a long. */
  function Digit(x: int, k: int): Byte
    requires 0 <= k < 4
  {
    if k == 0 then x / 0x100_0000 % 256
    else if k == 1 then x / 0x1_0000 % 256
    else if k == 2 then x / 0x100 % 256
    else x % 256
  }

  function ByteAt(m: Mem, a: int): Byte {
    Digit(Long(m, a - a % 4), a % 4)
  }

  function SetByte(m: Mem, a: int, v: Byte): Mem {
    m[a - a % 4 := Long(m, a - a % 4) + (v - ByteAt(m, a)) * Weight(a % 4)]
  }

  /** A long put together from what lies above its four bytes and the bytes themselves. */
  function Compose(top: int, b: seq<Byte>): int
    requires |b| == 4
  {
    top * 0x1_0000_0000 + (b[0] as int) * 0x100_0000 + (b[1] as int) * 0x1_0000 + (b[2] as int) * 0x100 + b[3]
  }

  lemma ComposedDigit(top: int, b: seq<Byte>, k: int)
    requires |b| == 4 && 0 <= k < 4
    ensures Digit(Compose(top, b), k) == b[k]
  {
    var x := Compose(top, b);
    if k == 0 {
      assert x / 0x100_0000 == top * 256 + b[0];
    } else if k == 1 {
      assert x / 0x1_0000 == (top * 256 + b[0]) * 256 + b[1];
    } else if k == 2 {
      assert x / 0x100 == ((top * 256 + b[0]) * 256 + b[1]) * 256 + b[2];
    }
  }

  lemma Decompose(x: int) returns (top: int, b: seq<Byte>)
    ensures |b| == 4 && x == Compose(top, b)
    ensures forall k :: 0 <= k < 4 ==> b[k] == Digit(x, k)
  {
    var x1 := x / 0x100;
    var x2 := x1 / 0x100;
    var x3 := x2 / 0x100;
    top, b := x3 / 0x100, [x3 % 256, x2 % 256, x1 % 256, x % 256];
    forall k | 0 <= k < 4 ensures b[k] == Digit(x, k) { ComposedDigit(top, b, k); }
  }

  lemma ComposeUpdate(top: int, b: seq<Byte>, k: int, v: Byte)
    requires |b| == 4 && 0 <= k < 4
    ensures Compose(top, b[k := v]) == Compose(top, b) + (v - b[k]) * Weight(k)
  {
    if k == 0 {
    } else if k == 1 {
    } else if k == 2 {
    }
  }

  /** Changing digit k of a number changes that digit and no other. */
  lemma DigitReplaced(x: int, k: int, j: int, v: Byte)
    requires 0 <= k < 4 && 0 <= j < 4
    ensures var was := Digit(x, k);
            Digit(x + (v - was) * Weight(k), j) == if j == k then v else Digit(x, j)
  {
    var top, b := Decompose(x);
    assert x + (v - b[k]) * Weight(k) == Compose(top, b[k := v]) by { ComposeUpdate(top, b, k, v); }
    ComposedDigit(top, b[k := v], j);
  }

  /** Storing one byte changes that byte and leaves every other byte of memory alone. */
  lemma SetByteFrame(m: Mem, a: int, v: Byte, b: int)
    ensures ByteAt(SetByte(m, a, v), b) == if a == b then v else ByteAt(m, b)
    ensures a - a % 4 != b - b % 4 ==> Long(SetByte(m, a, v), b - b % 4) == Long(m, b - b % 4)
  {
    var w := a - a % 4;
    if b - b % 4 == w {
      DigitReplaced(Long(m, w), a % 4, b % 4, v);
      assert a == b <==> a % 4 == b % 4;
    } else {
      assert Long(SetByte(m, a, v), b - b % 4) == Long(m, b - b % 4);
    }
  }

  /** Two memories agree on the longs at addresses lo <= w < hi. */
  ghost predicate SameLongs(m: Mem, m': Mem, lo: int, hi: int) {
    forall w :: lo <= w < hi ==> Long(m', w) == Long(m, w)
  }

  /** The n bytes of memory from address a on. */
  function Bytes(m: Mem, a: int, n: nat): seq<int> {
    seq(n, i => ByteAt(m, a + i) as int)
  }

  lemma BytesFirst(m: Mem, a: int, n: nat)
    ensures Bytes(m, a, n + 1) == [ByteAt(m, a) as int] + Bytes(m, a + 1, n)
  {
  }

  lemma BytesLast(m: Mem, a: int, n: nat)
    ensures Bytes(m, a, n + 1) == Bytes(m, a, n) + [ByteAt(m, a + n) as int]
  {
  }

  lemma BytesSame(m: Mem, r: Mem, a: int, n: nat)
    requires forall b :: a <= b < a + n ==> ByteAt(r, b) == ByteAt(m, b)
    ensures Bytes(r, a, n) == Bytes(m, a, n)
  {
  }

  /** r is m with the n bytes at dest replaced by the n bytes that m holds at src. */
  ghost predicate Copied(m: Mem, r: Mem, dest: int, src: int, n: nat) {
    && Bytes(r, dest, n) == Bytes(m, src, n)
    && (forall b :: !(dest <= b < dest + n) ==> ByteAt(r, b) == ByteAt(m, b))
    && (forall w :: w % 4 != 0 || w + 4 <= dest || dest + n <= w ==> Long(r, w) == Long(m, w))
  }

  /** r2 is r with one byte, fetched from r itself, stored at dest. */
  ghost predicate ByteMoved(r: Mem, r2: Mem, dest: int, src: int) {
    && ByteAt(r2, dest) == ByteAt(r, src)
    && (forall b :: b != dest ==> ByteAt(r2, b) == ByteAt(r, b))
    && (forall w :: w % 4 != 0 || w + 4 <= dest || dest < w ==> Long(r2, w) == Long(r, w))
  }

  /** A copy to an aligned place changes longs between there and the end of the long it ends in. */
  lemma CopiedLongs(m: Mem, r: Mem, dest: int, src: int, n: nat, w: int)
    requires Copied(m, r, dest, src, n) && Long(r, w) != Long(m, w) && dest % 4 == 0
    ensures dest <= w < dest + n
  {
  }

  lemma CopiedNothing(m: Mem, dest: int, src: int)
    ensures Copied(m, m, dest, src, 0)
  {
  }

  lemma CopiedForward(m: Mem, r: Mem, r2: Mem, dest: int, src: int, done: nat)
    requires dest < src && Copied(m, r, dest, src, done) && ByteMoved(r, r2, dest + done, src + done)
    ensures Copied(m, r2, dest, src, done + 1)
  {
    BytesSame(r, r2, dest, done);
    BytesLast(r2, dest, done);
    BytesLast(m, src, done);
  }

  lemma CopiedBackward(m: Mem, r: Mem, r2: Mem, dest: int, src: int, n: nat)
    requires dest > src && Copied(m, r, dest + 1, src + 1, n) && ByteMoved(r, r2, dest, src)
    ensures Copied(m, r2, dest, src, n + 1)
  {
    BytesSame(r, r2, dest + 1, n);
    BytesFirst(r2, dest, n);
    BytesFirst(m, src, n);
  }

  /** memcpy copies towards lower addresses from the front and towards higher ones from the back,
      so it is right for overlapping areas as well: the target ends up with the source's old bytes. */
  method Memcpy(m: Mem, dest: int, src: int, n: nat) returns (r: Mem)
    ensures Copied(m, r, dest, src, n)
  {
    if dest > src {
      r := CopyFromTheBack(m, dest, src, n);
    } else if dest < src {
      r := CopyFromTheFront(m, dest, src, n);
    } else {
      r := m;
    }
  }

  method CopyFromTheBack(m: Mem, dest: int, src: int, n: nat) returns (r: Mem)
    requires dest > src
    ensures Copied(m, r, dest, src, n)
  {
    r := m;
    var pd, ps, todo := dest + n, src + n, n;
    CopiedNothing(m, pd, ps);
    while todo > 0
      invariant 0 <= todo <= n && pd == dest + todo && ps == src + todo
      invariant Copied(m, r, pd, ps, n - todo)
    {
      pd, ps := pd - 1, ps - 1;
      r := CopyByteBefore(m, r, pd, ps, n - todo);
      todo := todo - 1;
    }
  }

  method CopyByteBefore(ghost m: Mem, r: Mem, dest: int, src: int, ghost n: nat) returns (r2: Mem)
    requires dest > src && Copied(m, r, dest + 1, src + 1, n)
    ensures Copied(m, r2, dest, src, n + 1)
  {
    r2 := CopyByte(r, dest, src);
    CopiedBackward(m, r, r2, dest, src, n);
  }

  method CopyFromTheFront(m: Mem, dest: int, src: int, n: nat) returns (r: Mem)
    requires dest < src
    ensures Copied(m, r, dest, src, n)
  {
    r := m;
    var pd, ps, done := dest, src, 0;
    CopiedNothing(m, pd, ps);
    while done < n
      invariant 0 <= done <= n && pd == dest + done && ps == src + done
      invariant Copied(m, r, dest, src, done)
    {
      ghost var was := r;
      r := CopyByte(r, pd, ps);
      CopiedForward(m, was, r, dest, src, done);
      pd, ps, done := pd + 1, ps + 1, done + 1;
    }
  }

  method CopyByte(m: Mem, dest: int, src: int) returns (r: Mem)
    ensures ByteMoved(m, r, dest, src)
  {
    r := SetByte(m, dest, ByteAt(m, src));
    forall b ensures ByteAt(r, b) == if b == dest then ByteAt(m, src) else ByteAt(m, b) {
      SetByteFrame(m, dest, ByteAt(m, src), b);
    }
  }
}
