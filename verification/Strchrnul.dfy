/** strchrnul: the first occurrence of a character in a string, or its end, a long at a time. */
module Strchrnul {
  const MAGIC: bv32 := 0x7efefeff

  /** Memory is made of big-endian longs at the multiples of 4. */
  type Longs = map<nat, bv32>

  // ----- words and their bytes

  function ByteOf(w: bv32, k: nat): bv32
    requires k < 4
  {
    if k == 0 then w >> 24 else if k == 1 then (w >> 16) & 0xff else if k == 2 then (w >> 8) & 0xff else w & 0xff
  }

  predicate HasByte(w: bv32, c: bv32) {
    ByteOf(w, 0) == c || ByteOf(w, 1) == c || ByteOf(w, 2) == c || ByteOf(w, 3) == c
  }

  /** A hole bit of w is left as it was by the addition of MAGIC. */
  predicate Fires(w: bv32) {
    ((w + MAGIC) ^ !w) & !MAGIC != 0
  }

  function CharMask(c: bv32): bv32 {
    var m := c | (c << 8);
    m | (m << 16)
  }

  /** The bytes of a long, the high one first. */
  lemma BytesOfLong(w: bv32)
    ensures w == (ByteOf(w, 0) << 24) | (ByteOf(w, 1) << 16) | (ByteOf(w, 2) << 8) | ByteOf(w, 3)
    ensures ByteOf(w, 0) <= 255 && ByteOf(w, 1) <= 255 && ByteOf(w, 2) <= 255 && ByteOf(w, 3) <= 255
  {
  }

  lemma ZeroBytes(w: bv32)
    ensures HasByte(w, 0) <==> w & 0xff000000 == 0 || w & 0xff0000 == 0 || w & 0xff00 == 0 || w & 0xff == 0
    ensures ByteOf(w, 0) == 0x80 <==> w & 0xff000000 == 0x80000000
  {
  }

  lemma FiresOnMasks(w: bv32)
    ensures Fires(w) <==> w & 0xff000000 == 0 || w & 0xff0000 == 0 || w & 0xff00 == 0 || w & 0xff == 0
                          || w & 0xff000000 == 0x80000000
  {
  }

  /** Exactly when the test fires: on a zero byte, and on a top byte of 128. */
  lemma FiresExactly(w: bv32)
    ensures Fires(w) <==> HasByte(w, 0) || ByteOf(w, 0) == 0x80
  {
    ZeroBytes(w);
    FiresOnMasks(w);
  }

  lemma MaskedByte(w: bv32, c: bv32)
    requires c <= 0xff
    ensures (w ^ CharMask(c)) & 0xff000000 == 0 <==> w >> 24 == c
    ensures (w ^ CharMask(c)) & 0xff0000 == 0 <==> (w >> 16) & 0xff == c
    ensures (w ^ CharMask(c)) & 0xff00 == 0 <==> (w >> 8) & 0xff == c
    ensures (w ^ CharMask(c)) & 0xff == 0 <==> w & 0xff == c
  {
  }

  /** Exclusive-or with the mask turns the bytes that are c, and no others, into zeros. */
  lemma MaskedBytes(w: bv32, c: bv32)
    requires c <= 0xff
    ensures HasByte(w ^ CharMask(c), 0) <==> HasByte(w, c)
  {
    MaskedByte(w, c);
    ZeroWhereEqual(w ^ CharMask(c), w, c);
  }

  lemma ZeroWhereEqual(x: bv32, w: bv32, c: bv32)
    requires x & 0xff000000 == 0 <==> w >> 24 == c
    requires x & 0xff0000 == 0 <==> (w >> 16) & 0xff == c
    requires x & 0xff00 == 0 <==> (w >> 8) & 0xff == c
    requires x & 0xff == 0 <==> w & 0xff == c
    ensures HasByte(x, 0) <==> HasByte(w, c)
  {
    ZeroBytes(x);
  }

  /** So no long that has c or NUL in it is skipped. */
  lemma NoFalseNegative(w: bv32, c: bv32)
    requires c <= 0xff && (HasByte(w, c) || HasByte(w, 0))
    ensures Fires(w) || Fires(w ^ CharMask(c))
  {
    FiresExactly(w);
    FiresExactly(w ^ CharMask(c));
    MaskedBytes(w, c);
  }

  // ----- strings in memory

  predicate Held(mem: Longs, p: nat) { p - p % 4 in mem }

  function At(mem: Longs, p: nat): bv32
    requires Held(mem, p)
  {
    ByteOf(mem[p - p % 4], p % 4)
  }

  /** The byte at p is c or NUL. */
  predicate Stops(mem: Longs, p: nat, c: bv32) {
    Held(mem, p) && (At(mem, p) == c || At(mem, p) == 0)
  }

  predicate GoesOn(mem: Longs, p: nat, c: bv32) {
    Held(mem, p) && At(mem, p) != c && At(mem, p) != 0
  }

  /** No byte from s up to p, p not included, is c or NUL. */
  ghost predicate Passed(mem: Longs, s: nat, p: nat, c: bv32) {
    forall q: nat {:trigger GoesOn(mem, q, c)} :: s <= q < p ==> GoesOn(mem, q, c)
  }

  lemma PassedInFull(mem: Longs, s: nat, p: nat, c: bv32)
    ensures Passed(mem, s, p, c) <==> forall q: nat :: s <= q < p ==> Held(mem, q) && At(mem, q) != c && At(mem, q) != 0
  {
    if Passed(mem, s, p, c) {
      forall q: nat | s <= q < p ensures Held(mem, q) && At(mem, q) != c && At(mem, q) != 0 {
        assert GoesOn(mem, q, c);
      }
    }
  }

  /** There is a string at s: its bytes are in memory up to its end, a NUL. */
  ghost predicate StringAt(mem: Longs, s: nat, end: nat) {
    s <= end && Passed(mem, s, end, 0) && Stops(mem, end, 0)
  }

  /** r is the first byte from s on that is c or NUL. */
  ghost predicate FirstStop(mem: Longs, s: nat, c: bv32, r: nat) {
    s <= r && Passed(mem, s, r, c) && Stops(mem, r, c)
  }

  /** In full: the byte at r is c or NUL, and none in front of it is either. */
  lemma FirstStopInFull(mem: Longs, s: nat, c: bv32, r: nat)
    ensures FirstStop(mem, s, c, r) <==>
            && s <= r && Held(mem, r) && (At(mem, r) == c || At(mem, r) == 0)
            && forall q: nat :: s <= q < r ==> Held(mem, q) && At(mem, q) != c && At(mem, q) != 0
  {
    PassedInFull(mem, s, r, c);
  }

  /** Nothing has stopped the search before p, so p is not behind the end of the string, and is in memory. */
  lemma NotBehind(mem: Longs, s: nat, end: nat, p: nat, c: bv32)
    requires StringAt(mem, s, end) && Passed(mem, s, p, c) && s <= p
    ensures p <= end && Held(mem, p)
  {
    assert !GoesOn(mem, end, c);
    assert p < end ==> GoesOn(mem, p, 0);
  }

  lemma PassLong(mem: Longs, s: nat, p: nat, c: bv32)
    requires p % 4 == 0 && p in mem && s <= p && Passed(mem, s, p, c) && !HasByte(mem[p], c) && !HasByte(mem[p], 0)
    ensures Passed(mem, s, p + 4, c)
  {
    forall q: nat {:trigger GoesOn(mem, q, c)} | s <= q < p + 4 ensures GoesOn(mem, q, c) {
      if q >= p {
        LongBytes(mem, p, q - p);
        ByteMissing(mem[p], c, q - p);
        ByteMissing(mem[p], 0, q - p);
      }
    }
  }

  lemma LongBytes(mem: Longs, p: nat, k: nat)
    requires p % 4 == 0 && p in mem && k < 4
    ensures Held(mem, p + k) && At(mem, p + k) == ByteOf(mem[p], k)
  {
    assert (p + k) % 4 == k;
  }

  lemma ByteMissing(w: bv32, c: bv32, k: nat)
    requires !HasByte(w, c) && k < 4
    ensures ByteOf(w, k) != c
  {
  }

  method LookAtBytes(mem: Longs, s: nat, p: nat, c: bv32) returns (r: nat, found: bool)
    requires p % 4 == 0 && p in mem && s <= p && Passed(mem, s, p, c)
    ensures found == (HasByte(mem[p], c) || HasByte(mem[p], 0))
    ensures found ==> FirstStop(mem, s, c, r)
  {
    found := true;
    r := p;
    if Stops(mem, r, c) { return; }
    r := p + 1;
    if Stops(mem, r, c) { return; }
    r := p + 2;
    if Stops(mem, r, c) { return; }
    r := p + 3;
    if Stops(mem, r, c) { return; }
    found := false;
  }

  /** A long at a time. A long that the tests let through has neither a NUL nor c in it; one that they stop at
      is looked at byte by byte, and the search goes on if there is nothing. */
  method ScanLongs(mem: Longs, s: nat, start: nat, c: bv32, ghost end: nat) returns (r: nat)
    requires StringAt(mem, s, end) && s <= start && start % 4 == 0 && Passed(mem, s, start, c) && c <= 0xff
    ensures FirstStop(mem, s, c, r)
  {
    var charmask, p := CharMask(c), start;
    NotBehind(mem, s, end, p, c);
    while true
      invariant s <= p <= end && p % 4 == 0 && p in mem && Passed(mem, s, p, c)
      decreases end - p
    {
      var longword := mem[p];
      if HasByte(longword, c) || HasByte(longword, 0) { NoFalseNegative(longword, c); }
      if Fires(longword) || Fires(longword ^ charmask) {
        var found;
        r, found := LookAtBytes(mem, s, p, c);
        if found {
          return;
        }
      }
      PassLong(mem, s, p, c);
      p := p + 4;
      NotBehind(mem, s, end, p, c);
    }
  }

  method Strchrnul(mem: Longs, s: nat, cIn: bv32, ghost end: nat) returns (r: nat)
    requires StringAt(mem, s, end)
    ensures FirstStop(mem, s, cIn & 0xff, r) && s <= r <= end
    ensures Held(mem, r) && (At(mem, r) == cIn & 0xff || At(mem, r) == 0)
  {
    var c := cIn & 0xff;
    r := s;
    NotBehind(mem, s, end, r, c);
    while r % 4 != 0
      invariant s <= r <= end && Held(mem, r) && Passed(mem, s, r, c)
      decreases end - r
    {
      if Stops(mem, r, c) { return; }
      r := r + 1;
      NotBehind(mem, s, end, r, c);
    }
    r := ScanLongs(mem, s, r, c, end);
    NotBehind(mem, s, end, r, c);
  }

  /** A byte-by-byte search could only give the same answer. */
  lemma FirstStopIsUnique(mem: Longs, s: nat, c: bv32, a: nat, b: nat)
    requires FirstStop(mem, s, c, a) && FirstStop(mem, s, c, b)
    ensures a == b
  {
    assert !GoesOn(mem, a, c) && !GoesOn(mem, b, c);
  }
}
