/** An array of bytes seen as elements of `width` bytes each, and the two ways qsort moves elements:
    the byte-wise SWAP and the column-wise rotation. */
module Elements {
  import opened Memory

  type Elem = seq<Byte>

  /** Where byte b of element k lies. */
  function Pos(w: nat, k: nat, b: nat): nat {
    k * w + b
  }

  lemma PosBounds(w: nat, n: nat, k: nat, b: nat)
    requires k < n && b < w
    ensures Pos(w, k, b) < n * w && (k + 1) * w <= n * w
  {
    assert (k + 1) * w <= n * w by { MulLe(k + 1, n, w); }
  }

  lemma MulLe(x: nat, y: nat, w: nat)
    requires x <= y
    ensures x * w <= y * w
  {
  }

  lemma PosDistinct(w: nat, k: nat, b: nat, k': nat, b': nat)
    requires b < w && b' < w && (k != k' || b != b')
    ensures Pos(w, k, b) != Pos(w, k', b')
  {
    if k < k' { MulLe(k + 1, k', w); } else if k' < k { MulLe(k' + 1, k, w); }
  }

  function ElemAt(s: seq<Byte>, w: nat, n: nat, k: nat): (e: Elem)
    requires |s| == n * w && k < n
    ensures |e| == w
  {
    MulLe(k + 1, n, w);
    s[k * w..(k + 1) * w]
  }

  /** The elements of the array. */
  function View(s: seq<Byte>, w: nat, n: nat): (v: seq<Elem>)
    requires |s| == n * w
    ensures |v| == n
  {
    seq(n, k requires 0 <= k < n => ElemAt(s, w, n, k))
  }

  /** Byte b of element k is byte k w + b. */
  lemma ViewInFull(s: seq<Byte>, w: nat, n: nat, k: nat, b: nat)
    requires |s| == n * w && k < n && b < w
    ensures k * w + b < |s| && |View(s, w, n)[k]| == w && View(s, w, n)[k][b] == s[k * w + b]
  {
    MulLe(k + 1, n, w);
    assert (k + 1) * w == k * w + w;
  }

  function Swapped<T>(v: seq<T>, i: nat, j: nat): seq<T>
    requires i < |v| && j < |v|
  {
    v[i := v[j]][j := v[i]]
  }

  /** Element r moved down to place t, those in between moved up by one. */
  function Rotated<T>(v: seq<T>, t: nat, r: nat): seq<T>
    requires t <= r < |v|
  {
    v[..t] + [v[r]] + v[t..r] + v[r + 1..]
  }

  /** Element k while the places above lo, up to r, hold what was one place below. */
  function Shifted<T>(v: seq<T>, lo: nat, r: nat, k: nat): T
    requires lo <= r < |v| && k < |v|
  {
    if lo < k <= r then v[k - 1] else v[k]
  }

  lemma RotatedAt<T>(v: seq<T>, t: nat, r: nat, k: nat)
    requires t <= r < |v| && k < |v|
    ensures |Rotated(v, t, r)| == |v|
    ensures Rotated(v, t, r)[k] == if k == t then v[r] else Shifted(v, t, r, k)
  {
  }

  /** Byte b of element k. */
  function ByteOf(s: seq<Byte>, w: nat, n: nat, k: nat, b: nat): Byte
    requires |s| == n * w && k < n && b < w
  {
    PosBounds(w, n, k, b);
    s[Pos(w, k, b)]
  }

  lemma ViewFromBytes(s: seq<Byte>, w: nat, n: nat, v: seq<Elem>)
    requires |s| == n * w && |v| == n && (forall k :: 0 <= k < n ==> |v[k]| == w)
    requires forall k, b :: 0 <= k < n && 0 <= b < w ==> ByteOf(s, w, n, k, b) == v[k][b]
    ensures View(s, w, n) == v
  {
    forall k | 0 <= k < n ensures View(s, w, n)[k] == v[k] {
      forall b | 0 <= b < w ensures ElemAt(s, w, n, k)[b] == v[k][b] {
        ElemByte(s, w, n, k, b);
      }
      assert ElemAt(s, w, n, k) == v[k];
    }
  }

  lemma ElemByte(s: seq<Byte>, w: nat, n: nat, k: nat, b: nat)
    requires |s| == n * w && k < n && b < w
    ensures ElemAt(s, w, n, k)[b] == ByteOf(s, w, n, k, b)
  {
    PosBounds(w, n, k, b);
  }

  lemma ViewBytes(s: seq<Byte>, w: nat, n: nat)
    requires |s| == n * w
    ensures forall k, b :: 0 <= k < n && 0 <= b < w ==> ByteOf(s, w, n, k, b) == View(s, w, n)[k][b]
  {
    forall k, b | 0 <= k < n && 0 <= b < w ensures ByteOf(s, w, n, k, b) == View(s, w, n)[k][b] {
      PosBounds(w, n, k, b);
    }
  }

  method LoadByte(a: array<Byte>, w: nat, n: nat, k: nat, b: nat) returns (v: Byte)
    requires a.Length == n * w && k < n && b < w
    ensures v == ByteOf(a[..], w, n, k, b)
  {
    PosBounds(w, n, k, b);
    v := a[k * w + b];
  }

  method StoreByteOf(a: array<Byte>, w: nat, n: nat, k: nat, b: nat, v: Byte)
    requires a.Length == n * w && k < n && b < w
    modifies a
    ensures ByteOf(a[..], w, n, k, b) == v
    ensures forall k', b' :: 0 <= k' < n && 0 <= b' < w && (k' != k || b' != b) ==>
              ByteOf(a[..], w, n, k', b') == old(ByteOf(a[..], w, n, k', b'))
  {
    PosBounds(w, n, k, b);
    ghost var s := a[..];
    a[k * w + b] := v;
    forall k', b' | 0 <= k' < n && 0 <= b' < w && (k' != k || b' != b)
      ensures ByteOf(a[..], w, n, k', b') == ByteOf(s, w, n, k', b')
    {
      PosBounds(w, n, k', b');
      PosDistinct(w, k, b, k', b');
    }
  }

  /** SWAP */
  method SwapElements(a: array<Byte>, w: nat, n: nat, i: nat, j: nat)
    requires a.Length == n * w && i < n && j < n && i != j && w > 0
    modifies a
    ensures View(a[..], w, n) == Swapped(old(View(a[..], w, n)), i, j)
  {
    ghost var s := a[..];
    ghost var v := View(s, w, n);
    ViewBytes(s, w, n);
    var b := 0;
    while b < w
      invariant 0 <= b <= w
      invariant forall k, c :: 0 <= k < n && 0 <= c < w ==>
                  ByteOf(a[..], w, n, k, c) == if c < b then Swapped(v, i, j)[k][c] else v[k][c]
    {
      var x := LoadByte(a, w, n, i, b);
      var y := LoadByte(a, w, n, j, b);
      StoreByteOf(a, w, n, i, b, y);
      StoreByteOf(a, w, n, j, b, x);
      b := b + 1;
    }
    ViewFromBytes(a[..], w, n, Swapped(v, i, j));
  }

  /** The rotation at the end of qsort.c: byte column by byte column, from the last byte to the first. */
  method RotateElements(a: array<Byte>, w: nat, n: nat, t: nat, r: nat)
    requires a.Length == n * w && t <= r < n
    modifies a
    ensures View(a[..], w, n) == Rotated(old(View(a[..], w, n)), t, r)
  {
    ghost var s := a[..];
    ghost var v := View(s, w, n);
    ViewBytes(s, w, n);
    var b := w;
    while b > 0
      invariant 0 <= b <= w
      invariant forall k, c :: 0 <= k < n && 0 <= c < w ==>
                  ByteOf(a[..], w, n, k, c) == if c >= b then Rotated(v, t, r)[k][c] else v[k][c]
    {
      b := b - 1;
      RotateColumn(a, w, n, t, r, b, v);
    }
    ViewFromBytes(a[..], w, n, Rotated(v, t, r));
  }

  method RotateColumn(a: array<Byte>, w: nat, n: nat, t: nat, r: nat, b: nat, ghost v: seq<Elem>)
    requires a.Length == n * w && t <= r < n && b < w
    requires |v| == n && (forall k :: 0 <= k < n ==> |v[k]| == w)
    requires forall k {:trigger ByteOf(a[..], w, n, k, b)} :: 0 <= k < n ==> ByteOf(a[..], w, n, k, b) == v[k][b]
    modifies a
    ensures forall k {:trigger ByteOf(a[..], w, n, k, b)} :: 0 <= k < n ==>
              |Rotated(v, t, r)[k]| == w && ByteOf(a[..], w, n, k, b) == Rotated(v, t, r)[k][b]
    ensures forall k, c {:trigger ByteOf(a[..], w, n, k, c)} :: 0 <= k < n && 0 <= c < w && c != b ==>
              ByteOf(a[..], w, n, k, c) == old(ByteOf(a[..], w, n, k, c))
  {
    ghost var s := a[..];
    var c := LoadByte(a, w, n, r, b);
    var hi := r;
    while hi > t
      invariant t <= hi <= r
      invariant forall k, d {:trigger ByteOf(a[..], w, n, k, d)} :: 0 <= k < n && 0 <= d < w && d != b ==>
                  ByteOf(a[..], w, n, k, d) == ByteOf(s, w, n, k, d)
      invariant forall k {:trigger ByteOf(a[..], w, n, k, b)} :: 0 <= k < n ==>
                  ByteOf(a[..], w, n, k, b) == Shifted(v, hi, r, k)[b]
    {
      var x := LoadByte(a, w, n, hi - 1, b);
      StoreByteOf(a, w, n, hi, b, x);
      hi := hi - 1;
    }
    StoreByteOf(a, w, n, hi, b, c);
    forall k | 0 <= k < n ensures |Rotated(v, t, r)[k]| == w && ByteOf(a[..], w, n, k, b) == Rotated(v, t, r)[k][b] {
      RotatedAt(v, t, r, k);
    }
  }
}
