/** How a row of tiles lies in memory: headers of five or four longs, those of the regions and of the
    free chunks linked into one ring that starts and ends at the fixed list head. */
module HeapImage {
  import opened Memory
  import opened Tiles
  import opened Moves

  const VAL_FREE := 0xf4ee0abc
  const VAL_ALLOC := 0xa11c0abc
  const VAL_SBRK := 0xb04d0abc

  // offsets within struct mem_chunk; SBRK_SIZE lies right behind the struct
  const VALID := 0
  const NEXT := 4
  const PREV := 8
  const SIZE := 12
  const ROOM := 16

  function Tag(t: Tile): int {
    match t case Sbrk(_, _) => VAL_SBRK case Free(_, _, _) => VAL_FREE case Live(_, _, _) => VAL_ALLOC
  }

  /** The header of t is in memory at its address. */
  ghost predicate InMemory(m: Mem, t: Tile) {
    && Long(m, t.addr + VALID) == Tag(t)
    && Long(m, t.addr + SIZE) == t.Size()
    && (t.Sbrk? ==> Long(m, t.addr + ROOM) == t.Room())
  }

  /** The addresses of the listed tiles: region headers and free chunks. */
  function Nodes(s: seq<Tile>): seq<int> {
    if s == [] then [] else Nodes(s[..|s| - 1]) + (if s[|s| - 1].Live? then [] else [s[|s| - 1].addr])
  }

  function Ring(head: int, s: seq<Tile>): seq<int> {
    [head] + Nodes(s) + [head]
  }

  /** Doubly linked, in this order. */
  ghost predicate Linked(m: Mem, ring: seq<int>) {
    && (forall i {:trigger Next(m, ring[i])} :: 0 <= i < |ring| - 1 ==> Next(m, ring[i]) == ring[i + 1])
    && (forall i {:trigger Prev(m, ring[i])} :: 0 < i < |ring| ==> Prev(m, ring[i]) == ring[i - 1])
  }

  function Next(m: Mem, a: int): int {
    Long(m, a + NEXT)
  }

  function Prev(m: Mem, a: int): int {
    Long(m, a + PREV)
  }

  /** The list head lies outside of all regions, and no region ends right where it starts. */
  ghost predicate HeadApart(head: int, s: seq<Tile>) {
    && 0 < head && head % 4 == 0
    && forall i {:trigger Beside(head, s[i])} :: 0 <= i < |s| ==> Beside(head, s[i])
  }

  predicate Beside(head: int, t: Tile) {
    head + ALLOC_EXTRA <= t.addr || t.lim < head
  }

  ghost predicate Image(m: Mem, head: int, s: seq<Tile>) {
    && Tiled(s)
    && HeadApart(head, s)
    && Long(m, head + VALID) == VAL_FREE
    && (forall i {:trigger InMemory(m, s[i])} :: 0 <= i < |s| ==> InMemory(m, s[i]))
    && Linked(m, Ring(head, s))
  }

  // ----- the ring and the tiles

  lemma {:induction false} NodesConcat(a: seq<Tile>, b: seq<Tile>)
    ensures Nodes(a + b) == Nodes(a) + Nodes(b)
    decreases |b|
  {
    if b == [] {
      assert a + b == a;
    } else {
      NodesConcat(a, b[..|b| - 1]);
      assert (a + b)[..|a + b| - 1] == a + b[..|b| - 1];
    }
  }

  lemma NodesSplice(s: seq<Tile>, i: int, mid: seq<Tile>, j: int)
    requires 0 <= i <= j <= |s|
    ensures Nodes(Splice(s, i, mid, j)) == Nodes(s[..i]) + Nodes(mid) + Nodes(s[j..])
    ensures Nodes(s) == Nodes(s[..i]) + Nodes(s[i..j]) + Nodes(s[j..])
  {
    NodesConcat(s[..i] + mid, s[j..]);
    NodesConcat(s[..i], mid);
    assert s == s[..i] + s[i..j] + s[j..];
    NodesConcat(s[..i] + s[i..j], s[j..]);
    NodesConcat(s[..i], s[i..j]);
  }

  /** Every node is a listed tile. */
  lemma {:induction false} NodeIsTile(s: seq<Tile>, k: int) returns (i: int)
    requires 0 <= k < |Nodes(s)|
    ensures 0 <= i < |s| && !s[i].Live? && s[i].addr == Nodes(s)[k] && |Nodes(s[..i])| == k
    decreases |s|
  {
    var t := s[..|s| - 1];
    if k < |Nodes(t)| {
      i := NodeIsTile(t, k);
      assert s[..i] == t[..i];
    } else {
      i := |s| - 1;
    }
  }

  /** Every listed tile is a node, at a place that grows with its index. */
  lemma TileIsNode(s: seq<Tile>, i: int)
    requires 0 <= i < |s| && !s[i].Live?
    ensures |Nodes(s[..i])| < |Nodes(s)| && Nodes(s)[|Nodes(s[..i])|] == s[i].addr
    ensures forall j :: i < j <= |s| ==> |Nodes(s[..i])| < |Nodes(s[..j])|
  {
    NodesSplice(s, i, [], i + 1);
    assert s[i..i + 1] == [s[i]];
    assert Nodes([s[i]]) == Nodes([s[i]][..0]) + [s[i].addr];
    forall j | i < j <= |s| ensures |Nodes(s[..i])| < |Nodes(s[..j])| {
      var t := s[..j];
      NodesSplice(t, i, [], i + 1);
      assert t[..i] == s[..i] && t[i..i + 1] == [s[i]];
    }
  }

  lemma TilesGrow(s: seq<Tile>, l: int, k: int)
    requires 0 <= l <= k <= |s|
    ensures |Nodes(s[..l])| <= |Nodes(s[..k])|
  {
    NodesSplice(s[..k], l, [], k);
    assert s[..k][..l] == s[..l];
  }

  /** Headers at a and b do not overlap. */
  predicate Gap(a: int, b: int) {
    a + ALLOC_EXTRA <= b || b + ALLOC_EXTRA <= a
  }

  /** The ring ends where it began; any other two of its places hold addresses a header apart. */
  ghost predicate Spread(ring: seq<int>) {
    && |ring| >= 2 && ring[0] == ring[|ring| - 1]
    && forall i, j {:trigger Gap(ring[i], ring[j])} ::
         0 <= i < j < |ring| && !(i == 0 && j == |ring| - 1) ==> Gap(ring[i], ring[j])
  }

  lemma RingIsSpread(head: int, s: seq<Tile>)
    requires Tiled(s) && HeadApart(head, s)
    ensures Spread(Ring(head, s))
  {
    var ring := Ring(head, s);
    forall i, j | 0 <= i < j < |ring| && !(i == 0 && j == |ring| - 1) ensures Gap(ring[i], ring[j]) {
      if i == 0 {
        NodeBesideHead(head, s, j - 1);
      } else if j == |ring| - 1 {
        NodeBesideHead(head, s, i - 1);
      } else {
        NodesAscend(s, i - 1, j - 1);
      }
    }
  }

  lemma NodeBesideHead(head: int, s: seq<Tile>, k: int)
    requires Tiled(s) && HeadApart(head, s) && 0 <= k < |Nodes(s)|
    ensures Gap(head, Nodes(s)[k])
  {
    var i := NodeIsTile(s, k);
    assert WellFormed(s[i]) && Beside(head, s[i]);
  }

  /** The list is in ascending address order. */
  lemma NodesAscend(s: seq<Tile>, k: int, l: int)
    requires Tiled(s) && 0 <= k < l < |Nodes(s)|
    ensures Nodes(s)[k] + ALLOC_EXTRA <= Nodes(s)[l]
  {
    var i := NodeIsTile(s, k);
    var j := NodeIsTile(s, l);
    assert WellFormed(s[i]);
    if j <= i { TilesGrow(s, j, i); }
    Ordered(s, i, j);
  }

  // ----- list surgery

  function LinkIn(m: Mem, r: int, next: int, prev: int): Mem {
    m[r + NEXT := next][r + PREV := prev][prev + NEXT := r][next + PREV := r]
  }

  /** Two places of the ring hold addresses a header apart, unless they are one place or the two ends. */
  lemma Apart(ring: seq<int>, i: int, j: int)
    requires Spread(ring) && 0 <= i < |ring| && 0 <= j < |ring| && i != j
    requires !(i == 0 && j == |ring| - 1) && !(j == 0 && i == |ring| - 1)
    ensures Gap(ring[i], ring[j])
  {
    assert i < j ==> Gap(ring[i], ring[j]);
    assert j < i ==> Gap(ring[j], ring[i]);
  }

  lemma LinkInLinks(m: Mem, ring: seq<int>, k: int, r: int)
    requires Linked(m, ring) && Spread(ring) && 0 < k < |ring| && ClearOf(ring, r)
    ensures Linked(LinkIn(m, r, ring[k], ring[k - 1]), ring[..k] + [r] + ring[k..])
  {
    var m', ring' := LinkIn(m, r, ring[k], ring[k - 1]), ring[..k] + [r] + ring[k..];
    forall i | 0 <= i < |ring'| - 1 ensures Next(m', ring'[i]) == ring'[i + 1] { LinkInNext(m, ring, k, r, i); }
    forall i | 0 < i < |ring'| ensures Prev(m', ring'[i]) == ring'[i - 1] { LinkInPrev(m, ring, k, r, i); }
  }

  /** There is room for a header at r. */
  ghost predicate ClearOf(ring: seq<int>, r: int) {
    forall i {:trigger Gap(ring[i], r)} :: 0 <= i < |ring| ==> Gap(ring[i], r)
  }

  lemma LinkInNext(m: Mem, ring: seq<int>, k: int, r: int, i: int)
    requires Linked(m, ring) && Spread(ring) && 0 < k < |ring| && ClearOf(ring, r) && 0 <= i < |ring|
    ensures var ring' := ring[..k] + [r] + ring[k..];
            Next(LinkIn(m, r, ring[k], ring[k - 1]), ring'[i]) == ring'[i + 1]
  {
    NewLinks(m, ring, k, r);
    if i < k - 1 {
      OldNext(m, ring, k, r, i);
    } else if i > k {
      OldNext(m, ring, k, r, i - 1);
    }
  }

  lemma LinkInPrev(m: Mem, ring: seq<int>, k: int, r: int, i: int)
    requires Linked(m, ring) && Spread(ring) && 0 < k < |ring| && ClearOf(ring, r) && 0 < i <= |ring|
    ensures var ring' := ring[..k] + [r] + ring[k..];
            Prev(LinkIn(m, r, ring[k], ring[k - 1]), ring'[i]) == ring'[i - 1]
  {
    NewLinks(m, ring, k, r);
    if i < k {
      OldPrev(m, ring, k, r, i);
    } else if i > k + 1 {
      OldPrev(m, ring, k, r, i - 1);
    }
  }

  lemma NewLinks(m: Mem, ring: seq<int>, k: int, r: int)
    requires Spread(ring) && 0 < k < |ring| && ClearOf(ring, r)
    ensures var m' := LinkIn(m, r, ring[k], ring[k - 1]);
            && Next(m', ring[k - 1]) == r && Next(m', r) == ring[k]
            && Prev(m', r) == ring[k - 1] && Prev(m', ring[k]) == r
  {
    assert Gap(ring[k], r) && Gap(ring[k - 1], r);
    if |ring| > 2 { Apart(ring, k - 1, k); }
  }

  lemma OldNext(m: Mem, ring: seq<int>, k: int, r: int, j: int)
    requires Linked(m, ring) && Spread(ring) && 0 < k < |ring| && ClearOf(ring, r) && 0 <= j < |ring| - 1 && j != k - 1
    ensures Next(LinkIn(m, r, ring[k], ring[k - 1]), ring[j]) == ring[j + 1]
  {
    LinkFieldKept(ring, k - 1, k, j, j + 1);
    assert Next(m, ring[j]) == ring[j + 1] && Gap(ring[j], r);
  }

  lemma OldPrev(m: Mem, ring: seq<int>, k: int, r: int, j: int)
    requires Linked(m, ring) && Spread(ring) && 0 < k < |ring| && ClearOf(ring, r) && 0 < j < |ring| && j != k
    ensures Prev(LinkIn(m, r, ring[k], ring[k - 1]), ring[j]) == ring[j - 1]
  {
    LinkFieldKept(ring, k - 1, k, j - 1, j);
    assert Prev(m, ring[j]) == ring[j - 1] && Gap(ring[j], r);
  }

  lemma LinkFieldKept(ring: seq<int>, p: int, n: int, a: int, b: int)
    requires Spread(ring) && 0 <= p < n < |ring| && 0 <= a < |ring| - 1 && 0 < b < |ring| && p < |ring| - 1
    requires a != p && b != n
    ensures ring[a] + NEXT != ring[p] + NEXT && ring[a] + NEXT != ring[n] + PREV
    ensures ring[b] + PREV != ring[p] + NEXT && ring[b] + PREV != ring[n] + PREV
  {
    Apart(ring, a, p);
    if a != n && !(a == 0 && n == |ring| - 1) { Apart(ring, a, n); }
    if b != p && !(p == 0 && b == |ring| - 1) { Apart(ring, b, p); }
    Apart(ring, b, n);
  }

  function LinkOut(m: Mem, next: int, prev: int): Mem {
    m[prev + NEXT := next][next + PREV := prev]
  }

  /** Taking the nodes between places p and n out of the ring. */
  lemma LinkOutLinks(m: Mem, ring: seq<int>, p: int, n: int)
    requires Linked(m, ring) && Spread(ring) && 0 <= p < n < |ring|
    ensures Linked(LinkOut(m, ring[n], ring[p]), ring[..p + 1] + ring[n..])
  {
    var m', ring' := LinkOut(m, ring[n], ring[p]), ring[..p + 1] + ring[n..];
    forall i | 0 <= i < |ring'| - 1 ensures Next(m', ring'[i]) == ring'[i + 1] {
      if i < p {
        PassedNext(m, ring, p, n, i);
      } else if i > p {
        PassedNext(m, ring, p, n, i - p - 1 + n);
      } else if !(p == 0 && n == |ring| - 1) {
        Apart(ring, p, n);
      }
    }
    forall i | 0 < i < |ring'| ensures Prev(m', ring'[i]) == ring'[i - 1] {
      LinkOutPrev(m, ring, p, n, i);
    }
  }

  lemma LinkOutPrev(m: Mem, ring: seq<int>, p: int, n: int, i: int)
    requires Linked(m, ring) && Spread(ring) && 0 <= p < n < |ring| && 0 < i < p + 1 + |ring| - n
    ensures var ring' := ring[..p + 1] + ring[n..];
            Prev(LinkOut(m, ring[n], ring[p]), ring'[i]) == ring'[i - 1]
  {
    if i <= p { PassedPrev(m, ring, p, n, i); } else if i > p + 1 { PassedPrev(m, ring, p, n, i - p - 1 + n); }
  }

  lemma PassedNext(m: Mem, ring: seq<int>, p: int, n: int, j: int)
    requires Linked(m, ring) && Spread(ring) && 0 <= p < n < |ring| && 0 <= j < |ring| - 1 && j != p
             && (j < p || j >= n)
    ensures Next(LinkOut(m, ring[n], ring[p]), ring[j]) == ring[j + 1]
  {
    if j + 1 == n {
      Apart(ring, j, p);
      Apart(ring, j, n);
    } else {
      LinkFieldKept(ring, p, n, j, j + 1);
    }
    assert Next(m, ring[j]) == ring[j + 1];
  }

  lemma PassedPrev(m: Mem, ring: seq<int>, p: int, n: int, j: int)
    requires Linked(m, ring) && Spread(ring) && 0 <= p < n < |ring| && 0 < j < |ring| && (j <= p || j > n)
    ensures Prev(LinkOut(m, ring[n], ring[p]), ring[j]) == ring[j - 1]
  {
    LinkFieldKept(ring, p, n, if j - 1 == p then j else j - 1, j);
    assert Prev(m, ring[j]) == ring[j - 1];
  }
}
