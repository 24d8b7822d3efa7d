/** The stores of free and of realloc in place, step by step. */
module FreeSurgery {
  import opened Memory
  import opened Tiles
  import opened Moves
  import opened HeapImage
  import opened HeapSurgery

  // ----- the steps of free on the row of tiles

  function SetFree(s: seq<Tile>, i: int): seq<Tile>
    requires 0 <= i < |s| && s[i].Live?
  {
    Splice(s, i, [Free(s[i].addr, s[i].size, s[i].lim)], i + 1)
  }

  function Merge(s: seq<Tile>, i: int): seq<Tile>
    requires 0 <= i && i + 1 < |s| && s[i].Free? && s[i + 1].Free?
  {
    Splice(s, i, [Free(s[i].addr, s[i].size + s[i + 1].size, s[i].lim)], i + 2)
  }

  function MergeNext(s: seq<Tile>, i: int): seq<Tile>
    requires 0 <= i < |s| && s[i].Free?
  {
    if i + 1 < |s| && s[i + 1].Free? then Merge(s, i) else s
  }

  /** Also says where the merged chunk is found. */
  function MergePrev(s: seq<Tile>, i: int): (seq<Tile>, int)
    requires 0 <= i < |s| && s[i].Free?
  {
    if i > 0 && s[i - 1].Free? then (Merge(s, i - 1), i - 1) else (s, i)
  }

  function DropIdle(s: seq<Tile>, j: int): seq<Tile>
    requires 0 <= j < |s| && s[j].Free?
  {
    if j > 0 && s[j - 1].Sbrk? && s[j - 1].Room() == s[j].size then s[..j - 1] + s[j + 1..] else s
  }

  /** The state of free after both merges, and the index of the merged chunk. */
  function Merged(s: seq<Tile>, i: int): (r: (seq<Tile>, int))
    requires 0 <= i < |s| && s[i].Live?
  {
    MergePrev(MergeNext(SetFree(s, i), i), i)
  }

  lemma SetFreeTiled(s: seq<Tile>, i: int)
    requires Tiled(s) && 0 <= i < |s| && s[i].Live?
    ensures Tiled(SetFree(s, i))
  {
    assert WellFormed(s[i]);
    assert i > 0 ==> Joined(s, i);
    assert i + 1 < |s| ==> Joined(s, i + 1);
    SpliceTiled(s, i, [Free(s[i].addr, s[i].size, s[i].lim)], i + 1);
  }

  lemma MergeTiled(s: seq<Tile>, i: int)
    requires Tiled(s) && 0 <= i && i + 1 < |s| && s[i].Free? && s[i + 1].Free?
    ensures Tiled(Merge(s, i))
  {
    assert WellFormed(s[i]) && WellFormed(s[i + 1]) && Joined(s, i + 1);
    assert i > 0 ==> Joined(s, i);
    assert i + 2 < |s| ==> Joined(s, i + 2);
    SpliceTiled(s, i, [Free(s[i].addr, s[i].size + s[i + 1].size, s[i].lim)], i + 2);
  }

  lemma SetFreeLives(s: seq<Tile>, i: int)
    requires Tiled(s) && 0 <= i < |s| && s[i].Live?
    ensures LiveTiles(SetFree(s, i)) == LiveTiles(s) - {s[i]}
  {
    SpliceMembers(s, i, [Free(s[i].addr, s[i].size, s[i].lim)], i + 1);
    AppearsOnce(s, i);
  }

  lemma MergeLives(s: seq<Tile>, i: int)
    requires 0 <= i && i + 1 < |s| && s[i].Free? && s[i + 1].Free?
    ensures LiveTiles(Merge(s, i)) == LiveTiles(s)
  {
    SpliceMembers(s, i, [Free(s[i].addr, s[i].size + s[i + 1].size, s[i].lim)], i + 2);
  }

  /** Merging forwards, then backwards, makes the whole free stretch around the chunk one free chunk. */
  lemma MergesMakeStretch(s: seq<Tile>, i: int)
    requires Tiled(s) && 0 <= i < |s| && s[i].Live?
    ensures Merged(s, i) == (Splice(s, Lo(s, i), [Stretch(s, i)], Hi(s, i)), Lo(s, i))
  {
    assert i > 0 ==> Joined(s, i);
    var s1 := SetFree(s, i);
    var s2 := MergeNext(s1, i);
    if Hi(s, i) == i + 2 {
      assert s1[i + 2..] == s[i + 2..];
    }
    assert s1[..i] == s[..i];
    assert s2[..i] == s[..i] && s2[i + 1..] == s[Hi(s, i)..];
    if Lo(s, i) < i {
      assert s2[..i - 1] == s[..i - 1];
    }
  }

  // ----- linking the freed chunk into the list

  lemma LinkFreeImage(m: Mem, m': Mem, head: int, s: seq<Tile>, i: int)
    requires Image(m, head, s) && 0 <= i < |s| && s[i].Live?
    requires Place(s, i) < |Ring(head, s)|
    requires var k, ring, r := Place(s, i), Ring(head, s), s[i].addr;
             m' == LinkIn(m[r + VALID := VAL_FREE], r, ring[k], ring[k - 1])
    ensures Image(m', head, SetFree(s, i))
    ensures PayloadsKept(m, m', LiveTiles(s) - {s[i]})
  {
    var k, ring, r := Place(s, i), Ring(head, s), s[i].addr;
    var mid := [Free(r, s[i].size, s[i].lim)];
    var m1 := m[r + VALID := VAL_FREE];
    SetFreeTiled(s, i);
    RingIsSpread(head, s);
    ChunkAgainstRing(head, s, i, r);
    TagStoreKeepsLinks(m, ring, r, VALID, VAL_FREE);
    LinkInLinks(m1, ring, k, r);
    LinkFreeRing(head, s, i, mid);
    assert InMemory(m, s[i]);
    LinkFreeStores(m, m', head, s, i);
    BesideTile(s, i);
    ImageAfterSplice(m, m', head, s, i, mid, i + 1, r, s[i].End());
    assert LiveTiles(s[i..i + 1]) == {s[i]};
  }

  lemma LinkFreeRing(head: int, s: seq<Tile>, i: int, mid: seq<Tile>)
    requires 0 <= i < |s| && s[i].Live? && |mid| == 1 && mid[0].Free? && mid[0].addr == s[i].addr
    ensures Place(s, i) <= |Ring(head, s)|
    ensures Ring(head, Splice(s, i, mid, i + 1))
         == Ring(head, s)[..Place(s, i)] + [s[i].addr] + Ring(head, s)[Place(s, i)..]
  {
    RingSplice(head, s, i, mid, i + 1);
    NodesOfOne(s, i);
    NodesOfOne(mid, 0);
    assert mid[0..1] == mid;
  }

  lemma LinkFreeStores(m: Mem, m': Mem, head: int, s: seq<Tile>, i: int)
    requires Tiled(s) && HeadApart(head, s) && 0 <= i < |s| && s[i].Live? && InMemory(m, s[i])
    requires Place(s, i) < |Ring(head, s)|
    requires var k, ring, r := Place(s, i), Ring(head, s), s[i].addr;
             m' == LinkIn(m[r + VALID := VAL_FREE], r, ring[k], ring[k - 1])
    ensures LocalChange(m, m', head, s, s[i].addr, s[i].End())
    ensures InMemory(m', Free(s[i].addr, s[i].size, s[i].lim)) && Beside(head, s[i])
    ensures head < s[i].addr || s[i].End() <= head
  {
    var k, ring, r := Place(s, i), Ring(head, s), s[i].addr;
    assert WellFormed(s[i]) && Beside(head, s[i]);
    ChunkAgainstRing(head, s, i, r);
    assert Gap(ring[k], r) && Gap(ring[k - 1], r);
    assert ring[k - 1] in ring && ring[k] in ring;
  }

  // ----- merging two free chunks

  /** Two listed tiles in a row are two nodes in a row. */
  lemma TwoPlaces(m: Mem, head: int, s: seq<Tile>, i: int)
    requires Linked(m, Ring(head, s)) && 0 <= i && i + 1 < |s| && !s[i].Live? && !s[i + 1].Live?
    ensures 0 < Place(s, i) && Place(s, i) + 2 < |Ring(head, s)|
    ensures var k, ring := Place(s, i), Ring(head, s);
            && ring[k] == s[i].addr && ring[k + 1] == s[i + 1].addr
            && Next(m, s[i + 1].addr) == ring[k + 2] && Prev(m, s[i].addr) == ring[k - 1]
  {
    OnItsPlace(m, head, s, i);
    OnItsPlace(m, head, s, i + 1);
  }

  lemma MergeImage(m: Mem, m': Mem, head: int, s: seq<Tile>, i: int)
    requires Image(m, head, s) && 0 <= i && i + 1 < |s| && s[i].Free? && s[i + 1].Free?
    requires m' == LinkOut(m[s[i].addr + SIZE := s[i].size + s[i + 1].size], Next(m, s[i + 1].addr), s[i].addr)
    ensures Image(m', head, Merge(s, i))
    ensures PayloadsKept(m, m', LiveTiles(s))
  {
    var mid := [Free(s[i].addr, s[i].size + s[i + 1].size, s[i].lim)];
    MergeTiled(s, i);
    MergeLinks(m, m', head, s, i);
    MergeRing(head, s, i, mid);
    MergeStores(m, m', head, s, i);
    BesideTile(s, i);
    BesideTile(s, i + 1);
    ImageAfterSplice(m, m', head, s, i, mid, i + 2, s[i].addr, s[i + 1].End());
    NoneLive(s, i, i + 2);
  }

  lemma MergeRing(head: int, s: seq<Tile>, i: int, mid: seq<Tile>)
    requires 0 <= i && i + 1 < |s| && s[i].Free? && s[i + 1].Free?
    requires |mid| == 1 && mid[0].Free? && mid[0].addr == s[i].addr
    ensures Place(s, i) + 2 <= |Ring(head, s)|
    ensures Ring(head, Splice(s, i, mid, i + 2)) == Ring(head, s)[..Place(s, i) + 1] + Ring(head, s)[Place(s, i) + 2..]
  {
    var k, ring := Place(s, i), Ring(head, s);
    RingSplice(head, s, i, mid, i + 2);
    NodesOfTwo(s, i);
    NodesOfOne(mid, 0);
    assert mid[0..1] == mid;
    assert ring[k] == ring[k..k + 2][0];
    assert ring[..k] + [ring[k]] == ring[..k + 1];
  }

  lemma MergeLinks(m: Mem, m': Mem, head: int, s: seq<Tile>, i: int)
    requires Tiled(s) && HeadApart(head, s) && Linked(m, Ring(head, s))
    requires 0 <= i && i + 1 < |s| && s[i].Free? && s[i + 1].Free?
    requires m' == LinkOut(m[s[i].addr + SIZE := s[i].size + s[i + 1].size], Next(m, s[i + 1].addr), s[i].addr)
    ensures Place(s, i) + 2 <= |Ring(head, s)|
    ensures Linked(m', Ring(head, s)[..Place(s, i) + 1] + Ring(head, s)[Place(s, i) + 2..])
  {
    var k, ring := Place(s, i), Ring(head, s);
    TwoPlaces(m, head, s, i);
    RingIsSpread(head, s);
    ChunkAgainstRing(head, s, i, s[i].addr);
    TagStoreKeepsLinks(m, ring, s[i].addr, SIZE, s[i].size + s[i + 1].size);
    LinkOutLinks(m[s[i].addr + SIZE := s[i].size + s[i + 1].size], ring, k, k + 2);
  }

  lemma MergeStores(m: Mem, m': Mem, head: int, s: seq<Tile>, i: int)
    requires Image(m, head, s) && 0 <= i && i + 1 < |s| && s[i].Free? && s[i + 1].Free?
    requires m' == LinkOut(m[s[i].addr + SIZE := s[i].size + s[i + 1].size], Next(m, s[i + 1].addr), s[i].addr)
    ensures LocalChange(m, m', head, s, s[i].addr, s[i + 1].End())
    ensures InMemory(m', Free(s[i].addr, s[i].size + s[i + 1].size, s[i].lim)) && Beside(head, s[i])
    ensures head < s[i].addr || s[i + 1].End() <= head
  {
    var k, ring := Place(s, i), Ring(head, s);
    assert WellFormed(s[i]) && WellFormed(s[i + 1]) && Joined(s, i + 1) && Beside(head, s[i]) && InMemory(m, s[i]);
    TwoPlaces(m, head, s, i);
    RingIsSpread(head, s);
    Apart(ring, k, k + 2);
    assert ring[k] in ring && ring[k + 2] in ring;
  }

  // ----- giving a region back

  lemma DropImage(m: Mem, m': Mem, head: int, s: seq<Tile>, i: int)
    requires Image(m, head, s) && 0 < i < |s| && s[i].Free? && s[i - 1].Sbrk? && s[i - 1].Room() == s[i].size
    requires m' == LinkOut(m, Next(m, s[i].addr), Prev(m, s[i - 1].addr))
    ensures Image(m', head, s[..i - 1] + s[i + 1..])
    ensures PayloadsKept(m, m', LiveTiles(s))
  {
    DropTiled(s, i);
    DropLinks(m, m', head, s, i);
    DropStores(m, m', head, s, i);
    DropRing(head, s, i);
    BesideTile(s, i - 1);
    BesideTile(s, i);
    DropHead(head, s, i);
    ImageAfterSplice(m, m', head, s, i - 1, [], i + 1, s[i - 1].addr, s[i].End());
    NoneLive(s, i - 1, i + 1);
  }

  lemma DropTiled(s: seq<Tile>, i: int)
    requires Tiled(s) && 0 < i < |s| && s[i].Free? && s[i - 1].Sbrk? && s[i - 1].Room() == s[i].size
    ensures Splice(s, i - 1, [], i + 1) == s[..i - 1] + s[i + 1..]
    ensures Tiled(Splice(s, i - 1, [], i + 1))
  {
    assert Joined(s, i) && WellFormed(s[i]);
    if i + 1 < |s| { assert Joined(s, i + 1) && WellFormed(s[i + 1]); }
    RemoveRegion(s, i - 1, i + 1);
  }

  lemma DropLinks(m: Mem, m': Mem, head: int, s: seq<Tile>, i: int)
    requires Tiled(s) && HeadApart(head, s) && Linked(m, Ring(head, s))
    requires 0 < i < |s| && s[i].Free? && s[i - 1].Sbrk?
    requires m' == LinkOut(m, Next(m, s[i].addr), Prev(m, s[i - 1].addr))
    ensures 0 < Place(s, i) - 1 && Place(s, i) + 1 <= |Ring(head, s)|
    ensures Linked(m', Ring(head, s)[..Place(s, i) - 1] + Ring(head, s)[Place(s, i) + 1..])
  {
    var k, ring := Place(s, i), Ring(head, s);
    TwoPlaces(m, head, s, i - 1);
    PlaceOfEnd(s, i - 1, i);
    NodesOfOne(s, i - 1);
    RingIsSpread(head, s);
    LinkOutLinks(m, ring, k - 2, k + 1);
  }

  lemma DropStores(m: Mem, m': Mem, head: int, s: seq<Tile>, i: int)
    requires Linked(m, Ring(head, s)) && 0 < i < |s| && s[i].Free? && s[i - 1].Sbrk?
    requires m' == LinkOut(m, Next(m, s[i].addr), Prev(m, s[i - 1].addr))
    ensures LocalChange(m, m', head, s, s[i - 1].addr, s[i].End())
  {
    var k, ring := Place(s, i - 1), Ring(head, s);
    TwoPlaces(m, head, s, i - 1);
    assert ring[k - 1] in ring && ring[k + 2] in ring;
  }

  lemma DropHead(head: int, s: seq<Tile>, i: int)
    requires Tiled(s) && HeadApart(head, s) && 0 < i < |s| && !s[i].Sbrk?
    ensures head < s[i - 1].addr || s[i].End() <= head
  {
    assert WellFormed(s[i - 1]) && WellFormed(s[i]) && Joined(s, i) && Beside(head, s[i - 1]);
  }

  lemma DropRing(head: int, s: seq<Tile>, i: int)
    requires 0 < i < |s| && s[i].Free? && s[i - 1].Sbrk?
    ensures 0 < Place(s, i) - 1 && Place(s, i) + 1 <= |Ring(head, s)|
    ensures Ring(head, Splice(s, i - 1, [], i + 1))
            == Ring(head, s)[..Place(s, i) - 1] + Ring(head, s)[Place(s, i) + 1..]
  {
    RingSplice(head, s, i - 1, [], i + 1);
    PlaceOfNext(s, i - 1);
    PlaceOfNext(s, i);
    NoNodesBetween(Ring(head, s), Place(s, i) - 1, Place(s, i) + 1);
  }

  lemma NoNodesBetween(ring: seq<int>, a: int, b: int)
    requires 0 <= a <= b <= |ring|
    ensures ring[..a] + Nodes([]) + ring[b..] == ring[..a] + ring[b..]
  {
    assert ring[..a] + [] == ring[..a];
  }

  // ----- realloc in place

  lemma AbsorbImage(m: Mem, m': Mem, head: int, s: seq<Tile>, i: int)
    requires Image(m, head, s) && 0 <= i && i + 1 < |s| && s[i].Live? && s[i + 1].Free?
    requires m' == LinkOut(m[s[i].addr + SIZE := s[i].size + s[i + 1].size],
                           Next(m, s[i + 1].addr), Prev(m, s[i + 1].addr))
    ensures Image(m', head, Absorb(s, i))
    ensures PayloadsKept(m, m', LiveTiles(s))
  {
    var mid := [Live(s[i].addr, s[i].size + s[i + 1].size, s[i].lim)];
    AbsorbKeeps(s, i);
    AbsorbLinks(m, m', head, s, i);
    AbsorbRing(head, s, i, mid);
    AbsorbStores(m, m', head, s, i);
    BesideTile(s, i);
    BesideTile(s, i + 1);
    ImageAfterSplice(m, m', head, s, i, mid, i + 2, s[i].addr, s[i + 1].End());
    forall t | t in LiveTiles(s) ensures SameLongs(m, m', t.addr + ALLOC_EXTRA, t.End()) {
      if t in s[i..i + 2] { assert t == s[i]; } else { assert t in LiveTiles(s) - LiveTiles(s[i..i + 2]); }
    }
  }

  lemma AbsorbRing(head: int, s: seq<Tile>, i: int, mid: seq<Tile>)
    requires 0 <= i && i + 1 < |s| && s[i].Live? && s[i + 1].Free? && |mid| == 1 && mid[0].Live?
    ensures Place(s, i + 1) + 1 <= |Ring(head, s)|
    ensures Ring(head, Splice(s, i, mid, i + 2))
         == Ring(head, s)[..Place(s, i + 1)] + Ring(head, s)[Place(s, i + 1) + 1..]
  {
    var k, ring := Place(s, i), Ring(head, s);
    RingSplice(head, s, i, mid, i + 2);
    NodesOfTwo(s, i);
    NodesOfOne(s, i);
    PlaceOfEnd(s, i, i + 1);
    NodesOfOne(mid, 0);
    assert mid[0..1] == mid;
    assert ring[..k] + [] == ring[..k];
  }

  lemma AbsorbLinks(m: Mem, m': Mem, head: int, s: seq<Tile>, i: int)
    requires Tiled(s) && HeadApart(head, s) && Linked(m, Ring(head, s))
    requires 0 <= i && i + 1 < |s| && s[i].Live? && s[i + 1].Free?
    requires m' == LinkOut(m[s[i].addr + SIZE := s[i].size + s[i + 1].size],
                           Next(m, s[i + 1].addr), Prev(m, s[i + 1].addr))
    ensures Place(s, i + 1) + 1 <= |Ring(head, s)|
    ensures Linked(m', Ring(head, s)[..Place(s, i + 1)] + Ring(head, s)[Place(s, i + 1) + 1..])
  {
    var k, ring := Place(s, i + 1), Ring(head, s);
    OnItsPlace(m, head, s, i + 1);
    RingIsSpread(head, s);
    ChunkAgainstRing(head, s, i, s[i].addr);
    TagStoreKeepsLinks(m, ring, s[i].addr, SIZE, s[i].size + s[i + 1].size);
    LinkOutLinks(m[s[i].addr + SIZE := s[i].size + s[i + 1].size], ring, k - 1, k + 1);
  }

  lemma AbsorbStores(m: Mem, m': Mem, head: int, s: seq<Tile>, i: int)
    requires Image(m, head, s) && 0 <= i && i + 1 < |s| && s[i].Live? && s[i + 1].Free?
    requires m' == LinkOut(m[s[i].addr + SIZE := s[i].size + s[i + 1].size],
                           Next(m, s[i + 1].addr), Prev(m, s[i + 1].addr))
    ensures LocalChange(m, m', head, s, s[i].addr, s[i + 1].End())
    ensures InMemory(m', Live(s[i].addr, s[i].size + s[i + 1].size, s[i].lim)) && Beside(head, s[i])
    ensures head < s[i].addr || s[i + 1].End() <= head
    ensures SameLongs(m, m', s[i].addr + ALLOC_EXTRA, s[i].End())
  {
    var k, ring := Place(s, i + 1), Ring(head, s);
    assert WellFormed(s[i]) && WellFormed(s[i + 1]) && Joined(s, i + 1) && Beside(head, s[i]) && InMemory(m, s[i]);
    OnItsPlace(m, head, s, i + 1);
    LinkFieldsBeside(head, s, i, k - 1, k + 1);
  }

  /** The link fields that unlinking a node stores to are in no live chunk. */
  lemma LinkFieldsBeside(head: int, s: seq<Tile>, i: int, p: int, n: int)
    requires Tiled(s) && HeadApart(head, s) && 0 <= i < |s| && s[i].Live?
    requires 0 <= p < |Ring(head, s)| && 0 <= n < |Ring(head, s)|
    ensures var ring := Ring(head, s);
            && ring[p] in ring && ring[n] in ring
            && !(s[i].addr <= ring[p] + NEXT < s[i].End()) && !(s[i].addr <= ring[n] + PREV < s[i].End())
  {
    var ring := Ring(head, s);
    LinkFieldOutside(head, s, i, ring[p] + NEXT);
    LinkFieldOutside(head, s, i, ring[n] + PREV);
  }

  // ----- what the tests in free find out

  /** The list neighbour behind a free chunk is free and starts where it ends exactly when it can be merged. */
  lemma NextIsAdjacent(m: Mem, head: int, s: seq<Tile>, i: int)
    requires Image(m, head, s) && 0 <= i < |s|
    requires Place(s, i + 1) < |Ring(head, s)|
    ensures var nx := Ring(head, s)[Place(s, i + 1)];
            (s[i].End() == nx && Long(m, nx + VALID) == VAL_FREE) <==> (i + 1 < |s| && s[i + 1].Free?)
    ensures i + 1 < |s| && s[i + 1].Free? ==> Ring(head, s)[Place(s, i + 1)] == s[i + 1].addr
  {
    var k, ring := Place(s, i + 1), Ring(head, s);
    var nx := ring[k];
    assert WellFormed(s[i]) && Beside(head, s[i]);
    if i + 1 < |s| && s[i + 1].Free? {
      OnItsPlace(m, head, s, i + 1);
      assert Joined(s, i + 1) && InMemory(m, s[i + 1]);
    }
    if s[i].End() == nx && Long(m, nx + VALID) == VAL_FREE {
      var l := NodeIsTile(s, k - 1);
      assert InMemory(m, s[l]) && WellFormed(s[l]);
      if l < i {
        Ordered(s, l, i);
      } else if i + 1 < l {
        assert WellFormed(s[i + 1]);
        Ordered(s, i, i + 1);
        Ordered(s, i + 1, l);
      }
    }
  }

  /** The list neighbour before a free chunk: everything in between is live. */
  lemma PrevListed(m: Mem, head: int, s: seq<Tile>, j: int) returns (l: int)
    requires Image(m, head, s) && 0 <= j < |s| && s[j].Free?
    ensures 0 <= l < j && !s[l].Live? && s[l].addr == Prev(m, s[j].addr) != head
    ensures forall x :: l < x < j ==> s[x].Live?
  {
    var k := Place(s, j);
    OnItsPlace(m, head, s, j);
    TileIsNode(s, 0);
    l := NodeIsTile(s, k - 2);
    NodeBesideHead(head, s, k - 2);
    if j <= l { TilesGrow(s, j, l); }
    forall x | l < x < j ensures s[x].Live? {
      if !s[x].Live? { TileIsNode(s, l); TileIsNode(s, x); }
    }
  }

  lemma PrevIsAdjacent(m: Mem, head: int, s: seq<Tile>, j: int)
    requires Image(m, head, s) && 0 <= j < |s| && s[j].Free?
    ensures var p := Prev(m, s[j].addr);
            && (p != head && Long(m, p + VALID) == VAL_FREE && p + Long(m, p + SIZE) == s[j].addr
                <==> j > 0 && s[j - 1].Free?)
            && (j > 0 && s[j - 1].Free? ==> p == s[j - 1].addr)
  {
    var l := PrevListed(m, head, s, j);
    assert InMemory(m, s[l]) && Joined(s, j) && WellFormed(s[l]);
    if l < j - 1 {
      assert WellFormed(s[j - 1]);
      Ordered(s, l, j - 1);
    }
  }

  lemma PrevIsFullHeader(m: Mem, head: int, s: seq<Tile>, j: int)
    requires Image(m, head, s) && 0 <= j < |s| && s[j].Free?
    ensures var p := Prev(m, s[j].addr);
            && (p != head && Long(m, p + VALID) == VAL_SBRK && Long(m, p + ROOM) == s[j].size
                <==> j > 0 && s[j - 1].Sbrk? && s[j - 1].Room() == s[j].size)
            && (j > 0 && s[j - 1].Sbrk? ==> p == s[j - 1].addr)
  {
    var l := PrevListed(m, head, s, j);
    assert InMemory(m, s[l]) && Joined(s, j) && WellFormed(s[j]);
    if l < j - 1 && s[l].Sbrk? {
      assert WellFormed(s[j - 1]);
      Telescope(s, l, j + 1);
      Ordered(s, l, j - 1);
    }
  }

  /** What is dropped at the end of free is what Release drops. */
  lemma MergedThenDropped(s: seq<Tile>, i: int)
    requires Tiled(s) && 0 <= i < |s| && s[i].Live?
    ensures var (m, j) := Merged(s, i);
            0 < j < |m| && m[j].Free? && Release(s, i) == DropIdle(m, j)
  {
    var lo, hi, f := Lo(s, i), Hi(s, i), Stretch(s, i);
    MergesMakeStretch(s, i);
    StretchFits(s, i);
    var m := Splice(s, lo, [f], hi);
    assert m[lo] == f && m[lo - 1] == s[lo - 1];
    assert m[..lo - 1] == s[..lo - 1] && m[lo + 1..] == s[hi..];
  }
}
