/** The stores by which malloc takes a new region into the list. */
module RegionSurgery {
  import opened Memory
  import opened Tiles
  import opened Moves
  import opened HeapImage
  import opened HeapSurgery

  /** What the operating system promises of a region it hands out: it overlaps neither a region held
      already nor the program's own list head, nor does it end at the head: what lies in front of that is the base
      page and the text of the program itself. */
  ghost predicate Granted(head: int, s: seq<Tile>, q: int, sz: int) {
    FreshRegion(s, q, sz) && (head + ALLOC_EXTRA <= q || q + sz < head)
  }

  lemma RegionOutsideTile(head: int, s: seq<Tile>, q: int, sz: int, k: int)
    requires Tiled(s) && Granted(head, s, q, sz) && sz >= SBRK_EXTRA + ALLOC_EXTRA && 0 <= k < |s|
    ensures s[k].End() <= q || q + sz <= s[k].addr
  {
    var i := Slot(s, q);
    SlotIsBetweenRegions(s, q, sz);
    assert WellFormed(s[k]);
    if i < k { Ordered(s, i, k); assert WellFormed(s[i]); }
  }

  lemma RegionOutsideRing(head: int, s: seq<Tile>, q: int, sz: int)
    requires Tiled(s) && HeadApart(head, s) && Granted(head, s, q, sz) && sz >= SBRK_EXTRA + ALLOC_EXTRA
    ensures forall j {:trigger Ring(head, s)[j]} :: 0 <= j < |Ring(head, s)| ==>
              Ring(head, s)[j] + ALLOC_EXTRA <= q || q + sz <= Ring(head, s)[j]
  {
    var ring := Ring(head, s);
    forall j | 0 <= j < |ring| ensures ring[j] + ALLOC_EXTRA <= q || q + sz <= ring[j] {
      if 0 < j < |ring| - 1 {
        var k := NodeIsTile(s, j - 1);
        assert WellFormed(s[k]);
        RegionOutsideTile(head, s, q, sz, k);
      }
    }
  }

  /** Whatever the new region holds when it is handed out, the heap does not notice. */
  lemma ContentsDoNotMatter(m: Mem, m': Mem, head: int, s: seq<Tile>, q: int, sz: int)
    requires Image(m, head, s) && Granted(head, s, q, sz) && sz >= SBRK_EXTRA + ALLOC_EXTRA
    requires forall w :: !(q <= w < q + sz) ==> Long(m', w) == Long(m, w)
    ensures Image(m', head, s)
    ensures PayloadsKept(m, m', LiveTiles(s))
  {
    var i, ring := Slot(s, q), Ring(head, s);
    assert Splice(s, i, [], i) == s;
    SlotIsBetweenRegions(s, q, sz);
    RegionOutsideRing(head, s, q, sz);
    forall j | 0 <= j < |ring| - 1 ensures Next(m', ring[j]) == ring[j + 1] { assert Next(m, ring[j]) == ring[j + 1]; }
    forall j | 0 < j < |ring| ensures Prev(m', ring[j]) == ring[j - 1] { assert Prev(m, ring[j]) == ring[j - 1]; }
    if i < |s| { assert WellFormed(s[i]); }
    ImageAfterSplice(m, m', head, s, i, [], i, q, q + sz);
    NoneLive(s, i, i);
  }

  function TagStores(m: Mem, q: int, sz: int): Mem {
    var c, room := q + SBRK_EXTRA, sz - SBRK_EXTRA;
    m[q + SIZE := SBRK_EXTRA][q + VALID := VAL_SBRK][q + ROOM := room][c + SIZE := room][c + VALID := VAL_FREE]
  }

  /** The stores of malloc.c lines 70 to 77, in their order: the header of the region, linked in before p. */
  function HeaderStores(m: Mem, q: int, sz: int, p: int): Mem {
    var c, prev := q + SBRK_EXTRA, Prev(m, p);
    m[q + SIZE := SBRK_EXTRA][q + VALID := VAL_SBRK][q + ROOM := sz - SBRK_EXTRA]
     [q + NEXT := c][q + PREV := prev][prev + NEXT := q][c + PREV := q]
  }

  /** Lines 79 to 82: its one chunk. */
  function ChunkStores(m: Mem, q: int, sz: int, p: int): Mem {
    var c := q + SBRK_EXTRA;
    m[c + SIZE := sz - SBRK_EXTRA][c + VALID := VAL_FREE][c + NEXT := p][p + PREV := c]
  }

  function RegionStores(m: Mem, q: int, sz: int, p: int): Mem {
    ChunkStores(HeaderStores(m, q, sz, p), q, sz, p)
  }

  lemma AddRegionImage(m: Mem, head: int, s: seq<Tile>, q: int, sz: int)
    requires Image(m, head, s) && Granted(head, s, q, sz) && sz >= SBRK_EXTRA + ALLOC_EXTRA
    requires Place(s, Slot(s, q)) < |Ring(head, s)|
    ensures var m' := RegionStores(m, q, sz, Ring(head, s)[Place(s, Slot(s, q))]);
            Image(m', head, AddRegion(s, q, sz)) && PayloadsKept(m, m', LiveTiles(s))
  {
    var i, ring, mid := Slot(s, q), Ring(head, s), NewTiles(q, sz);
    var k := Place(s, i);
    var m' := RegionStores(m, q, sz, ring[k]);
    SlotIsBetweenRegions(s, q, sz);
    AddRegionKeeps(s, q, sz);
    if i < |s| { assert WellFormed(s[i]); }
    assert Prev(m, ring[k]) == ring[k - 1];
    RegionLinks(m, m', head, s, q, sz, k);
    RegionRing(head, s, i, q, sz);
    RegionTags(m, m', head, s, q, sz, k);
    ImageAfterSplice(m, m', head, s, i, mid, i, q, q + sz);
    NoneLive(s, i, i);
  }

  lemma RegionRing(head: int, s: seq<Tile>, i: int, q: int, sz: int)
    requires 0 <= i <= |s|
    ensures Place(s, i) <= |Ring(head, s)|
    ensures Ring(head, Splice(s, i, NewTiles(q, sz), i))
         == Ring(head, s)[..Place(s, i)] + [q, q + SBRK_EXTRA] + Ring(head, s)[Place(s, i)..]
  {
    RingSplice(head, s, i, NewTiles(q, sz), i);
    NodesOfTwo(NewTiles(q, sz), 0);
    assert NewTiles(q, sz)[0..2] == NewTiles(q, sz);
  }

  lemma RegionTags(m: Mem, m': Mem, head: int, s: seq<Tile>, q: int, sz: int, k: int)
    requires Tiled(s) && HeadApart(head, s) && Granted(head, s, q, sz) && sz >= SBRK_EXTRA + ALLOC_EXTRA
    requires 0 < k < |Ring(head, s)| && Prev(m, Ring(head, s)[k]) == Ring(head, s)[k - 1]
    requires m' == RegionStores(m, q, sz, Ring(head, s)[k])
    ensures LocalChange(m, m', head, s, q, q + sz)
    ensures forall j :: 0 <= j < |NewTiles(q, sz)| ==>
                          InMemory(m', NewTiles(q, sz)[j]) && Beside(head, NewTiles(q, sz)[j])
  {
    var ring := Ring(head, s);
    RegionOutsideRing(head, s, q, sz);
    NewTilesInMemory(m, q, sz, ring[k], ring[k - 1]);
    RegionStoreTargets(m, q, sz, ring[k]);
    assert ring[k] in ring && ring[k - 1] in ring;
  }

  lemma RegionStoreTargets(m: Mem, q: int, sz: int, p: int)
    requires sz >= SBRK_EXTRA + ALLOC_EXTRA
    ensures var m' := RegionStores(m, q, sz, p);
            forall w :: Long(m', w) != Long(m, w) ==> w == Prev(m, p) + NEXT || w == p + PREV || q <= w < q + sz
  {
  }

  lemma NewTilesInMemory(m: Mem, q: int, sz: int, p: int, prev: int)
    requires prev == Prev(m, p) && sz >= SBRK_EXTRA + ALLOC_EXTRA
    requires (p + ALLOC_EXTRA <= q || q + sz <= p) && (prev + ALLOC_EXTRA <= q || q + sz <= prev)
    ensures InMemory(RegionStores(m, q, sz, p), Sbrk(q, q + sz))
    ensures InMemory(RegionStores(m, q, sz, p), Free(q + SBRK_EXTRA, sz - SBRK_EXTRA, q + sz))
  {
  }

  /** The ring with the region's header and its one chunk linked in. */
  lemma RegionLinks(m: Mem, m': Mem, head: int, s: seq<Tile>, q: int, sz: int, k: int)
    requires Tiled(s) && HeadApart(head, s) && Linked(m, Ring(head, s))
    requires Granted(head, s, q, sz) && sz >= SBRK_EXTRA + ALLOC_EXTRA
    requires 0 < k < |Ring(head, s)| && m' == RegionStores(m, q, sz, Ring(head, s)[k])
    ensures Linked(m', Ring(head, s)[..k] + [q, q + SBRK_EXTRA] + Ring(head, s)[k..])
  {
    var ring, c := Ring(head, s), q + SBRK_EXTRA;
    RingIsSpread(head, s);
    RegionOutsideRing(head, s, q, sz);
    assert Prev(m, ring[k]) == ring[k - 1];
    var m0 := TagStores(m, q, sz);
    TagStoresKeepLinks(m, ring, q, sz);
    assert ClearOf(ring, q);
    LinkInLinks(m0, ring, k, q);
    var m1 := LinkIn(m0, q, ring[k], ring[k - 1]);
    var ring1 := ring[..k] + [q] + ring[k..];
    InsertSpread(ring, k, q, c);
    LinkInLinks(m1, ring1, k + 1, c);
    var m2 := LinkIn(m1, c, ring[k], q);
    assert ring1[..k + 1] + [c] + ring1[k + 1..] == ring[..k] + [q, c] + ring[k..];
    if |ring| > 2 { Apart(ring, k - 1, k); }
    SameStores(m, m', m2, q, sz, ring[k], ring[k - 1]);
    SameLinks(m2, m', ring[..k] + [q, c] + ring[k..]);
  }

  lemma TagStoresKeepLinks(m: Mem, ring: seq<int>, q: int, sz: int)
    requires Linked(m, ring) && sz >= SBRK_EXTRA + ALLOC_EXTRA
    requires forall j {:trigger ring[j]} :: 0 <= j < |ring| ==> ring[j] + ALLOC_EXTRA <= q || q + sz <= ring[j]
    ensures Linked(TagStores(m, q, sz), ring)
  {
    var m0 := TagStores(m, q, sz);
    forall j | 0 <= j < |ring| - 1 ensures Next(m0, ring[j]) == ring[j + 1] { assert Next(m, ring[j]) == ring[j + 1]; }
    forall j | 0 < j < |ring| ensures Prev(m0, ring[j]) == ring[j - 1] { assert Prev(m, ring[j]) == ring[j - 1]; }
  }

  lemma InsertSpread(ring: seq<int>, k: int, q: int, c: int)
    requires Spread(ring) && 0 < k < |ring| && c >= q + ALLOC_EXTRA
    requires forall j {:trigger ring[j]} :: 0 <= j < |ring| ==> Gap(ring[j], q) && Gap(ring[j], c)
    ensures Spread(ring[..k] + [q] + ring[k..]) && ClearOf(ring[..k] + [q] + ring[k..], c)
  {
    var r := ring[..k] + [q] + ring[k..];
    forall i, j | 0 <= i < j < |r| && !(i == 0 && j == |r| - 1) ensures Gap(r[i], r[j]) {
      var i', j' := if i < k then i else i - 1, if j < k then j else j - 1;
      if i != k && j != k { Apart(ring, i', j'); }
    }
  }

  lemma SameStores(m: Mem, m': Mem, m2: Mem, q: int, sz: int, p: int, prev: int)
    requires prev == Prev(m, p) && m' == RegionStores(m, q, sz, p) && sz >= SBRK_EXTRA + ALLOC_EXTRA
    requires m2 == LinkIn(LinkIn(TagStores(m, q, sz), q, p, prev), q + SBRK_EXTRA, p, q)
    requires (p + ALLOC_EXTRA <= q || q + sz <= p) && (prev + ALLOC_EXTRA <= q || q + sz <= prev)
    requires p == prev || Gap(p, prev)
    ensures forall w :: Long(m', w) == Long(m2, w)
  {
    var c := q + SBRK_EXTRA;
    var m1 := HeaderStores(m, q, sz, p);
    forall w ensures Long(m', w) == Long(m2, w) {
      assert Long(m', w) == if w == p + PREV then c else if w == c + NEXT then p else if w == c + VALID then VAL_FREE
                            else if w == c + SIZE then sz - SBRK_EXTRA else Long(m1, w);
    }
  }

  lemma SameLinks(m: Mem, m': Mem, ring: seq<int>)
    requires Linked(m, ring) && forall w :: Long(m', w) == Long(m, w)
    ensures Linked(m', ring)
  {
    forall j | 0 <= j < |ring| - 1 ensures Next(m', ring[j]) == ring[j + 1] { assert Next(m, ring[j]) == ring[j + 1]; }
    forall j | 0 < j < |ring| ensures Prev(m', ring[j]) == ring[j - 1] { assert Prev(m, ring[j]) == ring[j - 1]; }
  }
}
