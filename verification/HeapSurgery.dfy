/** The stores that malloc, free and realloc make, each shown to turn the image of one row of tiles
    into the image of the next one and to leave every other header and every other payload alone. */
module HeapSurgery {
  import opened Memory
  import opened Tiles
  import opened Moves
  import opened HeapImage

  /** The stores between m and m' went to link fields of the ring or to addresses lo <= w < hi. */
  ghost predicate LocalChange(m: Mem, m': Mem, head: int, s: seq<Tile>, lo: int, hi: int) {
    forall w :: Long(m', w) != Long(m, w) ==>
      w - NEXT in Ring(head, s) || w - PREV in Ring(head, s) || lo <= w < hi
  }

  /** A tile that owns none of the stores: its header fields and its payload are what they were. */
  ghost predicate TileKept(m: Mem, m': Mem, t: Tile) {
    && (InMemory(m, t) ==> InMemory(m', t))
    && (t.Live? ==> SameLongs(m, m', t.addr + ALLOC_EXTRA, t.End()))
  }

  /** A link field of some other tile or of the list head lies outside of t. */
  lemma LinkFieldOutside(head: int, s: seq<Tile>, k: int, w: int)
    requires Tiled(s) && HeadApart(head, s) && 0 <= k < |s|
    requires w - NEXT in Ring(head, s) || w - PREV in Ring(head, s)
    ensures w < s[k].addr || s[k].End() <= w || (!s[k].Live? && (w == s[k].addr + NEXT || w == s[k].addr + PREV))
  {
    var a := if w - NEXT in Ring(head, s) then w - NEXT else w - PREV;
    assert WellFormed(s[k]) && Beside(head, s[k]);
    if a != head {
      var n :| 0 <= n < |Nodes(s)| && Nodes(s)[n] == a;
      var l := NodeIsTile(s, n);
      assert WellFormed(s[l]);
      if l < k { Ordered(s, l, k); } else if k < l { Ordered(s, k, l); }
    }
  }

  lemma OthersKept(m: Mem, m': Mem, head: int, s: seq<Tile>, lo: int, hi: int, k: int)
    requires Tiled(s) && HeadApart(head, s) && LocalChange(m, m', head, s, lo, hi)
    requires 0 <= k < |s| && (s[k].End() <= lo || hi <= s[k].addr)
    ensures TileKept(m, m', s[k])
  {
    var t := s[k];
    assert WellFormed(t);
    forall w | t.addr <= w < t.End() && Long(m', w) != Long(m, w)
      ensures !t.Live? && (w == t.addr + NEXT || w == t.addr + PREV)
    {
      LinkFieldOutside(head, s, k, w);
    }
    assert t.addr <= t.addr + SIZE < t.End() && (t.Sbrk? ==> t.addr + ROOM < t.End());
  }

  lemma HeadKept(m: Mem, m': Mem, head: int, s: seq<Tile>, lo: int, hi: int)
    requires Tiled(s) && HeadApart(head, s) && LocalChange(m, m', head, s, lo, hi)
    requires head < lo || hi <= head
    ensures Long(m', head + VALID) == Long(m, head + VALID)
  {
    RingIsSpread(head, s);
    var ring := Ring(head, s);
    forall n | 0 < n < |ring| - 1 ensures ring[n] != head - NEXT && ring[n] != head - PREV { Apart(ring, 0, n); }
  }

  /** The tiles outside the stretch are in memory as before, and so are the payloads among them. */
  lemma OutsideKept(m: Mem, m': Mem, head: int, s: seq<Tile>, i: int, j: int, lo: int, hi: int)
    requires Tiled(s) && HeadApart(head, s) && 0 <= i <= j <= |s| && LocalChange(m, m', head, s, lo, hi)
    requires (i > 0 ==> s[i - 1].End() <= lo) && (j < |s| ==> hi <= s[j].addr)
    ensures forall k {:trigger TileKept(m, m', s[k])} :: 0 <= k < |s| && !(i <= k < j) ==> TileKept(m, m', s[k])
    ensures PayloadsKept(m, m', LiveTiles(s) - LiveTiles(s[i..j]))
  {
    forall k | 0 <= k < |s| && !(i <= k < j) ensures TileKept(m, m', s[k]) {
      OutsideStretch(s, i, j, lo, hi, k);
      OthersKept(m, m', head, s, lo, hi, k);
    }
    forall t | t in LiveTiles(s) - LiveTiles(s[i..j]) ensures SameLongs(m, m', t.addr + ALLOC_EXTRA, t.End()) {
      SpliceMembers(s, i, [], j);
      var k :| 0 <= k < |s| && !(i <= k < j) && s[k] == t;
      assert TileKept(m, m', s[k]);
    }
  }

  /** How the image of a rewritten row of tiles is put together. */
  lemma ImageAfterSplice(m: Mem, m': Mem, head: int, s: seq<Tile>, i: int, mid: seq<Tile>, j: int, lo: int, hi: int)
    requires Image(m, head, s) && 0 <= i <= j <= |s| && Tiled(Splice(s, i, mid, j))
    requires LocalChange(m, m', head, s, lo, hi) && (head < lo || hi <= head)
    requires (i > 0 ==> s[i - 1].End() <= lo) && (j < |s| ==> hi <= s[j].addr)
    requires forall k {:trigger InMemory(m', mid[k])} :: 0 <= k < |mid| ==> InMemory(m', mid[k])
    requires forall k {:trigger Beside(head, mid[k])} :: 0 <= k < |mid| ==> Beside(head, mid[k])
    requires Linked(m', Ring(head, Splice(s, i, mid, j)))
    ensures Image(m', head, Splice(s, i, mid, j))
    ensures PayloadsKept(m, m', LiveTiles(s) - LiveTiles(s[i..j]))
  {
    var r := Splice(s, i, mid, j);
    HeadKept(m, m', head, s, lo, hi);
    OutsideKept(m, m', head, s, i, j, lo, hi);
    forall k | 0 <= k < |r| ensures InMemory(m', r[k]) && Beside(head, r[k]) {
      if k < i {
        assert r[k] == s[k] && InMemory(m, s[k]) && Beside(head, s[k]) && TileKept(m, m', s[k]);
      } else if k >= i + |mid| {
        var l := k - i - |mid| + j;
        assert r[k] == s[l] && InMemory(m, s[l]) && Beside(head, s[l]) && TileKept(m, m', s[l]);
      } else {
        assert r[k] == mid[k - i];
      }
    }
  }

  /** The live chunks of a set hold the same longs in both memories. */
  ghost predicate PayloadsKept(m: Mem, m': Mem, live: set<Tile>) {
    forall t {:trigger t in live} :: t in live && t.Live? ==> SameLongs(m, m', t.addr + ALLOC_EXTRA, t.End())
  }

  lemma OutsideStretch(s: seq<Tile>, i: int, j: int, lo: int, hi: int, k: int)
    requires Tiled(s) && 0 <= i <= j <= |s| && 0 <= k < |s| && !(i <= k < j)
    requires (i > 0 ==> s[i - 1].End() <= lo) && (j < |s| ==> hi <= s[j].addr)
    ensures s[k].End() <= lo || hi <= s[k].addr
  {
    assert forall l :: 0 <= l < |s| ==> WellFormed(s[l]);
    if k < i - 1 { Ordered(s, k, i - 1); } else if j < k { Ordered(s, j, k); }
  }

  predicate OnOrOff(a: int, x: int) {
    a == x || Gap(a, x)
  }

  /** Stores to VALID, SIZE or ROOM of a header at x do not disturb the ring. */
  lemma TagStoreKeepsLinks(m: Mem, ring: seq<int>, x: int, off: int, v: int)
    requires Linked(m, ring) && off in {VALID, SIZE, ROOM}
    requires forall i {:trigger OnOrOff(ring[i], x)} :: 0 <= i < |ring| ==> OnOrOff(ring[i], x)
    ensures Linked(m[x + off := v], ring)
  {
    var m' := m[x + off := v];
    forall i | 0 <= i < |ring| - 1 ensures Next(m', ring[i]) == ring[i + 1] {
      assert Next(m, ring[i]) == ring[i + 1] && OnOrOff(ring[i], x);
    }
    forall i | 0 < i < |ring| ensures Prev(m', ring[i]) == ring[i - 1] {
      assert Prev(m, ring[i]) == ring[i - 1] && OnOrOff(ring[i], x);
    }
  }

  /** Any address at which a chunk starts, or could start within a chunk, is clear of the ring or on it. */
  lemma ChunkAgainstRing(head: int, s: seq<Tile>, k: int, x: int)
    requires Tiled(s) && HeadApart(head, s) && 0 <= k < |s|
    requires x == s[k].addr || s[k].addr + ALLOC_EXTRA <= x <= s[k].End() - ALLOC_EXTRA
    ensures forall i {:trigger OnOrOff(Ring(head, s)[i], x)} ::
              0 <= i < |Ring(head, s)| ==> OnOrOff(Ring(head, s)[i], x)
    ensures s[k].Live? || x != s[k].addr ==> ClearOf(Ring(head, s), x)
  {
    var ring := Ring(head, s);
    assert WellFormed(s[k]) && Beside(head, s[k]);
    forall i | 0 <= i < |ring| ensures Gap(ring[i], x) || (ring[i] == x == s[k].addr && !s[k].Live?) {
      if 0 < i < |ring| - 1 {
        var l := NodeIsTile(s, i - 1);
        assert WellFormed(s[l]);
        if l < k { Ordered(s, l, k); } else if k < l { Ordered(s, k, l); }
      }
    }
  }

  /** The place in the ring of the first listed tile from index i on. */
  function Place(s: seq<Tile>, i: int): int
    requires 0 <= i <= |s|
  {
    |Nodes(s[..i])| + 1
  }

  lemma PlaceOfEnd(s: seq<Tile>, i: int, j: int)
    requires 0 <= i <= j <= |s|
    ensures Place(s, j) == Place(s, i) + |Nodes(s[i..j])|
  {
    NodesSplice(s[..j], i, [], j);
    assert s[..j][..i] == s[..i] && s[..j][i..j] == s[i..j] && s[..j][j..] == [];
  }

  lemma RingSplice(head: int, s: seq<Tile>, i: int, mid: seq<Tile>, j: int)
    requires 0 <= i <= j <= |s|
    ensures Place(s, j) == Place(s, i) + |Nodes(s[i..j])| <= |Ring(head, s)| - 1
    ensures Ring(head, Splice(s, i, mid, j)) == Ring(head, s)[..Place(s, i)] + Nodes(mid) + Ring(head, s)[Place(s, j)..]
    ensures Ring(head, s)[Place(s, i)..Place(s, j)] == Nodes(s[i..j])
  {
    NodesSplice(s, i, mid, j);
    PlaceOfEnd(s, i, j);
    RingParts(head, Nodes(s[..i]), Nodes(s[i..j]), Nodes(s[j..]), Nodes(mid));
  }

  lemma RingParts(head: int, a: seq<int>, b: seq<int>, c: seq<int>, d: seq<int>)
    ensures var r := [head] + (a + b + c) + [head];
            && r[|a| + 1..|a| + 1 + |b|] == b
            && [head] + (a + d + c) + [head] == r[..|a| + 1] + d + r[|a| + 1 + |b|..]
  {
    var r := [head] + (a + b + c) + [head];
    assert r[..|a| + 1] == [head] + a;
    assert r[|a| + 1 + |b|..] == c + [head];
  }

  function NodeOf(t: Tile): seq<int> {
    if t.Live? then [] else [t.addr]
  }

  lemma NodesOfOne(s: seq<Tile>, i: int)
    requires 0 <= i < |s|
    ensures Nodes(s[i..i + 1]) == NodeOf(s[i])
  {
    assert s[i..i + 1] == [s[i]];
    assert [s[i]][..0] == [];
  }

  lemma PlaceOfNext(s: seq<Tile>, i: int)
    requires 0 <= i < |s|
    ensures Place(s, i + 1) == if s[i].Live? then Place(s, i) else Place(s, i) + 1
  {
    NodesOfOne(s, i);
    PlaceOfEnd(s, i, i + 1);
  }

  lemma NodesOfTwo(s: seq<Tile>, i: int)
    requires 0 <= i && i + 1 < |s|
    ensures Nodes(s[i..i + 2]) == NodeOf(s[i]) + NodeOf(s[i + 1])
  {
    NodesOfOne(s, i);
    NodesOfOne(s, i + 1);
    NodesConcat(s[i..i + 1], s[i + 1..i + 2]);
    assert s[i..i + 1] + s[i + 1..i + 2] == s[i..i + 2];
  }

  lemma NoneLive(s: seq<Tile>, i: int, j: int)
    requires 0 <= i <= j <= |s| && forall k :: i <= k < j ==> !s[k].Live?
    ensures LiveTiles(s) - LiveTiles(s[i..j]) == LiveTiles(s)
  {
  }

  lemma PayloadsKeptTwice(m: Mem, m1: Mem, m2: Mem, a: set<Tile>, b: set<Tile>, c: set<Tile>)
    requires PayloadsKept(m, m1, a) && PayloadsKept(m1, m2, b) && c <= a && c <= b
    ensures PayloadsKept(m, m2, c)
  {
    forall t | t in c && t.Live? ensures SameLongs(m, m2, t.addr + ALLOC_EXTRA, t.End()) {
      assert t in a && t in b;
    }
  }

  // ----- malloc: cutting the tail off a free chunk

  lemma SplitImage(m: Mem, m': Mem, head: int, s: seq<Tile>, i: int, need: int)
    requires Image(m, head, s) && 0 <= i < |s| && s[i].Free?
    requires ALLOC_EXTRA <= need && need % 4 == 0 && s[i].size > need + ALLOC_EXTRA
    requires var q, rest := s[i].addr, s[i].size - need;
             m' == m[q + SIZE := rest][q + rest + SIZE := need][q + rest + VALID := VAL_ALLOC]
    ensures Image(m', head, Carve(s, i, need))
    ensures PayloadsKept(m, m', LiveTiles(s))
  {
    var mid := Cut(s[i], need);
    SplitLinks(m, m', head, s, i, need);
    SplitRing(head, s, i, mid);
    CarveKeeps(s, i, need);
    assert WellFormed(s[i]) && InMemory(m, s[i]) && Beside(head, s[i]);
    SplitStores(m, m', head, s, i, need);
    BesideTile(s, i);
    ImageAfterSplice(m, m', head, s, i, mid, i + 1, s[i].addr, s[i].End());
    NoneLive(s, i, i + 1);
  }

  lemma BesideTile(s: seq<Tile>, i: int)
    requires Tiled(s) && 0 <= i < |s|
    ensures i > 0 ==> s[i - 1].End() <= s[i].addr
    ensures i + 1 < |s| ==> s[i].End() <= s[i + 1].addr
  {
    if i > 0 { Ordered(s, i - 1, i); }
    if i + 1 < |s| { Ordered(s, i, i + 1); }
  }

  lemma SplitStores(m: Mem, m': Mem, head: int, s: seq<Tile>, i: int, need: int)
    requires 0 <= i < |s| && s[i].Free? && WellFormed(s[i]) && InMemory(m, s[i]) && Beside(head, s[i])
    requires ALLOC_EXTRA <= need && need % 4 == 0 && s[i].size > need + ALLOC_EXTRA
    requires var q, rest := s[i].addr, s[i].size - need;
             m' == m[q + SIZE := rest][q + rest + SIZE := need][q + rest + VALID := VAL_ALLOC]
    ensures LocalChange(m, m', head, s, s[i].addr, s[i].End())
    ensures var mid := Cut(s[i], need);
            forall k :: 0 <= k < |mid| ==> InMemory(m', mid[k]) && Beside(head, mid[k])
  {
  }

  lemma SplitRing(head: int, s: seq<Tile>, i: int, mid: seq<Tile>)
    requires 0 <= i < |s| && s[i].Free? && |mid| == 2 && mid[0].Free? && mid[1].Live? && mid[0].addr == s[i].addr
    ensures Ring(head, Splice(s, i, mid, i + 1)) == Ring(head, s)
  {
    NodesSplice(s, i, mid, i + 1);
    NodesOfOne(s, i);
    NodesOfTwo(mid, 0);
    assert mid[0..2] == mid;
  }

  lemma SplitLinks(m: Mem, m': Mem, head: int, s: seq<Tile>, i: int, need: int)
    requires Tiled(s) && HeadApart(head, s) && Linked(m, Ring(head, s)) && 0 <= i < |s| && s[i].Free?
    requires ALLOC_EXTRA <= need && need % 4 == 0 && s[i].size > need + ALLOC_EXTRA
    requires var q, rest := s[i].addr, s[i].size - need;
             m' == m[q + SIZE := rest][q + rest + SIZE := need][q + rest + VALID := VAL_ALLOC]
    ensures Linked(m', Ring(head, s))
  {
    var q, rest := s[i].addr, s[i].size - need;
    var x := q + rest;
    var m1 := m[q + SIZE := rest];
    var m2 := m1[x + SIZE := need];
    var ring := Ring(head, s);
    assert WellFormed(s[i]);
    ChunkAgainstRing(head, s, i, q);
    ChunkAgainstRing(head, s, i, x);
    TagStoreKeepsLinks(m, ring, q, SIZE, rest);
    TagStoreKeepsLinks(m1, ring, x, SIZE, need);
    TagStoreKeepsLinks(m2, ring, x, VALID, VAL_ALLOC);
  }

  // ----- unlinking a free chunk: malloc when it fits as a whole

  /** A listed tile stands in the ring at its place, between the neighbours its link fields name. */
  lemma OnItsPlace(m: Mem, head: int, s: seq<Tile>, i: int)
    requires Linked(m, Ring(head, s)) && 0 <= i < |s| && !s[i].Live?
    ensures var k, ring := Place(s, i), Ring(head, s);
            && 0 < k < |ring| - 1 && ring[k] == s[i].addr && Place(s, i + 1) == k + 1
            && Next(m, s[i].addr) == ring[k + 1] && Prev(m, s[i].addr) == ring[k - 1]
  {
    TileIsNode(s, i);
    PlaceOfEnd(s, i, i + 1);
    NodesOfOne(s, i);
    var k, ring := Place(s, i), Ring(head, s);
    assert ring[k] == s[i].addr;
    assert Next(m, ring[k]) == ring[k + 1] && Prev(m, ring[k]) == ring[k - 1];
  }

  lemma WholeImage(m: Mem, m': Mem, head: int, s: seq<Tile>, i: int, need: int)
    requires Image(m, head, s) && 0 <= i < |s| && s[i].Free?
    requires ALLOC_EXTRA <= need <= s[i].size && need % 4 == 0 && s[i].size <= need + ALLOC_EXTRA
    requires m' == LinkOut(m, Next(m, s[i].addr), Prev(m, s[i].addr))[s[i].addr + VALID := VAL_ALLOC]
    ensures Image(m', head, Carve(s, i, need))
    ensures PayloadsKept(m, m', LiveTiles(s))
  {
    var mid := [Live(s[i].addr, s[i].size, s[i].lim)];
    assert mid == Cut(s[i], need);
    OnItsPlace(m, head, s, i);
    UnlinkLinks(m, m', head, s, i, VALID, VAL_ALLOC);
    UnlinkRing(head, s, i, mid);
    CarveKeeps(s, i, need);
    assert WellFormed(s[i]) && InMemory(m, s[i]) && Beside(head, s[i]);
    UnlinkStores(m, m', head, s, i);
    BesideTile(s, i);
    ImageAfterSplice(m, m', head, s, i, mid, i + 1, s[i].addr, s[i].End());
    NoneLive(s, i, i + 1);
  }

  lemma UnlinkRing(head: int, s: seq<Tile>, i: int, mid: seq<Tile>)
    requires 0 <= i < |s| && !s[i].Live? && |mid| == 1 && mid[0].Live?
    ensures Place(s, i) + 1 <= |Ring(head, s)|
    ensures Ring(head, Splice(s, i, mid, i + 1)) == Ring(head, s)[..Place(s, i)] + Ring(head, s)[Place(s, i) + 1..]
  {
    RingSplice(head, s, i, mid, i + 1);
    NodesOfOne(s, i);
    NodesOfOne(mid, 0);
    assert mid[0..1] == mid;
    var ring := Ring(head, s);
    assert ring[..Place(s, i)] + [] == ring[..Place(s, i)];
  }

  lemma UnlinkLinks(m: Mem, m': Mem, head: int, s: seq<Tile>, i: int, off: int, v: int)
    requires Tiled(s) && HeadApart(head, s) && Linked(m, Ring(head, s)) && 0 <= i < |s| && s[i].Free?
    requires off in {VALID, SIZE, ROOM}
    requires m' == LinkOut(m, Next(m, s[i].addr), Prev(m, s[i].addr))[s[i].addr + off := v]
    ensures Place(s, i) + 1 <= |Ring(head, s)|
    ensures Linked(m', Ring(head, s)[..Place(s, i)] + Ring(head, s)[Place(s, i) + 1..])
  {
    var k, ring := Place(s, i), Ring(head, s);
    OnItsPlace(m, head, s, i);
    RingIsSpread(head, s);
    LinkOutLinks(m, ring, k - 1, k + 1);
    ChunkAgainstRing(head, s, i, s[i].addr);
    TagStoreKeepsLinks(LinkOut(m, ring[k + 1], ring[k - 1]), ring[..k] + ring[k + 1..], s[i].addr, off, v);
  }

  lemma UnlinkStores(m: Mem, m': Mem, head: int, s: seq<Tile>, i: int)
    requires Tiled(s) && HeadApart(head, s) && Linked(m, Ring(head, s)) && 0 <= i < |s| && s[i].Free?
             && InMemory(m, s[i])
    requires m' == LinkOut(m, Next(m, s[i].addr), Prev(m, s[i].addr))[s[i].addr + VALID := VAL_ALLOC]
    ensures LocalChange(m, m', head, s, s[i].addr, s[i].End())
    ensures InMemory(m', Live(s[i].addr, s[i].size, s[i].lim))
  {
    OnItsPlace(m, head, s, i);
    RingIsSpread(head, s);
    var k, ring := Place(s, i), Ring(head, s);
    assert WellFormed(s[i]);
    assert ring[k - 1] in ring && ring[k + 1] in ring;
    ChunkAgainstRing(head, s, i, s[i].addr);
    Apart(ring, k, k - 1);
    Apart(ring, k, k + 1);
  }

  // ----- stores of the program into its own blocks

  /** A store inside the payload of a live chunk is none of the heap's business, nor of any other block's. */
  lemma PayloadStore(m: Mem, m': Mem, head: int, s: seq<Tile>, i: int)
    requires Image(m, head, s) && 0 <= i < |s| && s[i].Live?
    requires forall w :: Long(m', w) != Long(m, w) ==> s[i].addr + ALLOC_EXTRA <= w < s[i].End()
    ensures Image(m', head, s)
    ensures PayloadsKept(m, m', LiveTiles(s) - {s[i]})
  {
    var ring := Ring(head, s);
    assert Splice(s, i, [s[i]], i + 1) == s;
    assert WellFormed(s[i]) && Beside(head, s[i]) && InMemory(m, s[i]);
    forall j | 0 <= j < |ring| - 1 ensures Next(m', ring[j]) == ring[j + 1] {
      assert Next(m, ring[j]) == ring[j + 1] && ring[j] in ring;
      LinkFieldOutside(head, s, i, ring[j] + NEXT);
    }
    forall j | 0 < j < |ring| ensures Prev(m', ring[j]) == ring[j - 1] {
      assert Prev(m, ring[j]) == ring[j - 1] && ring[j] in ring;
      LinkFieldOutside(head, s, i, ring[j] + PREV);
    }
    BesideTile(s, i);
    ImageAfterSplice(m, m', head, s, i, [s[i]], i + 1, s[i].addr + ALLOC_EXTRA, s[i].End());
    assert LiveTiles(s[i..i + 1]) == {s[i]};
  }

  /** The bytes of a payload are those of its longs. */
  lemma PayloadBytes(m: Mem, m': Mem, t: Tile, n: nat)
    requires t.Live? && WellFormed(t) && n <= t.size - ALLOC_EXTRA
    requires SameLongs(m, m', t.addr + ALLOC_EXTRA, t.End())
    ensures Bytes(m', t.addr + ALLOC_EXTRA, n) == Bytes(m, t.addr + ALLOC_EXTRA, n)
  {
    var a := t.addr + ALLOC_EXTRA;
    forall b | a <= b < a + n ensures ByteAt(m', b) == ByteAt(m, b) {
      assert a <= b - b % 4 < t.End();
    }
    BytesSame(m, m', a, n);
  }
}
