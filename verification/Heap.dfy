/** malloc, free and realloc over the memory of the machine. */
module Heap {
  import opened Memory
  import opened Tiles
  import opened Moves
  import opened HeapRuns
  import opened HeapImage
  import opened HeapSurgery
  import opened FreeSurgery
  import opened RegionSurgery

  const PAGE_SIZE := 8192
  const ENOMEM := 39
  const EINVAL := 25

  /** Requests up to here stay clear of 2^32 on their way to the operating system. */
  const MAX_REQUEST := ADDRESS_LIMIT - PAGE_SIZE - 64

  /** A chunk's size for n bytes: they and the header, in whole longs. */
  function Need(n: int): (need: int)
    ensures n + 16 <= need < n + 20 && need % 4 == 0
  {
    ALLOC_EXTRA + (n + 3) / 4 * 4
  }

  lemma NeedIsRequest(n: nat)
    ensures Request(Need(n)) && Need(n) >= n + ALLOC_EXTRA
  {
  }

  /** The size of the region malloc asks for when no chunk fits: a hunk or more, in whole pages. */
  function RegionSize(need: int, minHunk: int): (sz: int)
    ensures sz >= need + 20 && sz >= minHunk && sz % 8192 == 0
    ensures sz < 8192 + if need + 20 > minHunk then need + 20 else minHunk
  {
    var sz := if need + SBRK_EXTRA > minHunk then need + SBRK_EXTRA else minHunk;
    (sz + PAGE_SIZE - 1) / PAGE_SIZE * PAGE_SIZE
  }

  /** The hunk to ask for next time: while hunks of minHunk are taken and are not yet large, twice that. */
  function NextHunk(need: int, minHunk: int, maxHunk: int): int {
    if need + SBRK_EXTRA <= minHunk < maxHunk then 2 * minHunk else minHunk
  }

  /** What GEMDOS Malloc answers when it is asked: an address or 0, and what the region happens to hold. */
  datatype Answer = Answer(q: int, contents: Mem)

  /** The move that malloc makes: first fit, or a new region when nothing fits, or none at all. */
  function MallocMove(s: seq<Tile>, need: int, os: Answer, minHunk: int): Event {
    if FirstFit(s, need) < |s| then Alloc(need)
    else if os.q == 0 then Refused
    else AllocNew(need, os.q, RegionSize(need, minHunk))
  }

  /** The moves of taking another block and freeing the one at addr, if there is another block. */
  function MovingMoves(e: Event, addr: int): seq<Event> {
    if e == Refused then [e] else [e, Dealloc(addr)]
  }

  /** The moves that realloc makes for the live chunk i: it moves a block that is larger than need be by more than
      two headers; extends one that is too small in place, or else moves it; and leaves any other as it is. */
  function ReallocMoves(s: seq<Tile>, i: int, n: nat, os: Answer, minHunk: int): seq<Event>
    requires 0 <= i < |s| && s[i].Live?
  {
    var need, e := Need(n), MallocMove(s, Need(n), os, minHunk);
    if s[i].size > need + 2 * ALLOC_EXTRA then MovingMoves(e, s[i].addr)
    else if s[i].size >= need then []
    else if i + 1 < |s| && s[i + 1].Free? && s[i].size + s[i + 1].size >= need then [Extend(s[i].addr)]
    else MovingMoves(e, s[i].addr)
  }

  /** The memory after the operating system handed out sz bytes at q. */
  function HandedOut(m: Mem, os: Answer, sz: int): Mem {
    map w | w in m.Keys + os.contents.Keys :: if os.q <= w < os.q + sz then Long(os.contents, w) else Long(m, w)
  }

  /** Every listed tile before the k-th node of the ring is too small or no chunk. */
  lemma FirstFitAtPlace(m: Mem, head: int, s: seq<Tile>, need: int, k: int)
    requires Image(m, head, s) && 0 < k < |Ring(head, s)|
    requires forall j {:trigger Ring(head, s)[j]} :: 0 < j < k ==>
               Long(m, Ring(head, s)[j] + SIZE) < need || Long(m, Ring(head, s)[j] + VALID) == VAL_SBRK
    requires k < |Ring(head, s)| - 1 ==>
               !(Long(m, Ring(head, s)[k] + SIZE) < need || Long(m, Ring(head, s)[k] + VALID) == VAL_SBRK)
    ensures k == |Ring(head, s)| - 1 ==> FirstFit(s, need) == |s|
    ensures k < |Ring(head, s)| - 1 ==> FirstFit(s, need) < |s| && s[FirstFit(s, need)].addr == Ring(head, s)[k]
  {
    var i := FirstFit(s, need);
    if i < |s| {
      OnItsPlace(m, head, s, i);
      assert InMemory(m, s[i]);
      assert Place(s, i) >= k;
    }
    if k < |Ring(head, s)| - 1 {
      var l := NodeIsTile(s, k - 1);
      assert InMemory(m, s[l]);
      assert i <= l;
      if i < l { TileIsNode(s, i); }
    }
  }

  /** The place of the first tile that does not lie below a is the place of the first such node. */
  lemma PlaceOfSlot(head: int, s: seq<Tile>, a: int, k: int)
    requires Tiled(s) && 0 < k < |Ring(head, s)|
    requires forall j {:trigger Ring(head, s)[j]} :: 0 < j < k ==> Ring(head, s)[j] < a
    requires k < |Ring(head, s)| - 1 ==> Ring(head, s)[k] >= a
    ensures k == Place(s, Slot(s, a))
  {
    var i, ring := Slot(s, a), Ring(head, s);
    NodesSplice(s, i, [], i);
    assert k < |ring| - 1 ==> ring[k] == Nodes(s)[k - 1];
    if k < Place(s, i) {
      NodeBelowSlot(s, a, k - 1);
    } else if Place(s, i) < k {
      assert ring[Place(s, i)] == Nodes(s)[Place(s, i) - 1];
      NodeAtSlot(s, a);
    }
  }

  lemma NodeBelowSlot(s: seq<Tile>, a: int, n: nat)
    requires Tiled(s) && n < |Nodes(s[..Slot(s, a)])|
    ensures n < |Nodes(s)| && Nodes(s)[n] < a
  {
    var front := s[..Slot(s, a)];
    NodesSplice(s, |front|, [], |front|);
    var l := NodeIsTile(front, n);
    assert WellFormed(s[l]);
  }

  lemma NodeAtSlot(s: seq<Tile>, a: int)
    requires Tiled(s) && |Nodes(s[..Slot(s, a)])| < |Nodes(s)|
    ensures Nodes(s)[|Nodes(s[..Slot(s, a)])|] >= a
  {
    var i := Slot(s, a);
    var l := NodeIsTile(s, |Nodes(s[..i])|);
    if l < i { TileIsNode(s, l); }
    assert WellFormed(s[i]);
    if i < l { Ordered(s, i, l); }
  }

  lemma SlotOfTile(s: seq<Tile>, i: int)
    requires Tiled(s) && 0 <= i < |s|
    ensures Slot(s, s[i].addr) == i
  {
    var l := Slot(s, s[i].addr);
    if l < i { assert WellFormed(s[l]); Ordered(s, l, i); }
  }

  /** The caller's block at p: aligned, and with room for n bytes behind the header of c. */
  ghost predicate IsBlock(c: Tile, p: int, n: int) {
    c.Live? && p == c.addr + ALLOC_EXTRA && p > 0 && p % 4 == 0 && c.End() - p >= n
  }

  lemma CarvedIsBlock(s: seq<Tile>, i: int, n: nat)
    requires Tiled(s) && 0 <= i < |s| && s[i].Free? && Need(n) <= s[i].size
    ensures var c := Carved(s, i, Need(n));
            && IsBlock(c, c.addr + ALLOC_EXTRA, n) && c !in LiveTiles(s)
            && LiveTiles(Carve(s, i, Need(n))) == LiveTiles(s) + {c}
  {
    CarveAddsOne(s, i, Need(n));
    assert WellFormed(s[i]);
  }

  lemma PayloadBytesIn(s: seq<Tile>, m: Mem, m': Mem, t: Tile, live: set<Tile>, k: nat)
    requires Tiled(s) && t in LiveTiles(s) && t in live && PayloadsKept(m, m', live) && k <= t.size - ALLOC_EXTRA
    ensures Bytes(m', t.addr + ALLOC_EXTRA, k) == Bytes(m, t.addr + ALLOC_EXTRA, k)
  {
    var i :| 0 <= i < |s| && s[i] == t;
    assert WellFormed(s[i]);
    PayloadBytes(m, m', t, k);
  }

  /** malloc stores the two links of an unlinked chunk in the other order. */
  lemma UnlinkOrder(m: Mem, head: int, s: seq<Tile>, i: int)
    requires Image(m, head, s) && 0 <= i < |s| && s[i].Free?
    ensures var q := s[i].addr;
            var m1 := m[Next(m, q) + PREV := Prev(m, q)];
            && Prev(m1, q) == Prev(m, q) && Next(m1, q) == Next(m, q)
            && m1[Prev(m, q) + NEXT := Next(m, q)] == LinkOut(m, Next(m, q), Prev(m, q))
  {
    var k, ring := Place(s, i), Ring(head, s);
    OnItsPlace(m, head, s, i);
    RingIsSpread(head, s);
    Apart(ring, k, k + 1);
    if |ring| > 3 { Apart(ring, k - 1, k + 1); }
  }

  /** What realloc promises of block t, asked for n bytes: on success a block with the old contents as far as
      both reach, in its place or elsewhere; on failure nothing has changed. */
  ghost predicate Resized(s: seq<Tile>, m: Mem, t: Tile, n: nat, s': seq<Tile>, m': Mem, res: int, c: Tile)
    requires t.Live?
  {
    if res == 0 then
      s' == s && m' == m
    else
      var room := t.size - ALLOC_EXTRA;
      var k := if n < room then n else room;
      && k >= 0
      && IsBlock(c, res, n) && c !in LiveTiles(s) - {t} && LiveTiles(s') == LiveTiles(s) - {t} + {c}
      && Bytes(m', res, k) == Bytes(m, t.addr + ALLOC_EXTRA, k)
  }

  /** The block t has been moved: a new block c was made, and then t was copied into it and freed. */
  lemma MovedBlock(s0: seq<Tile>, m0: Mem, e: Event, s1: seq<Tile>, m1: Mem, s: seq<Tile>, m: Mem, t: Tile, n: nat,
                   k: nat, newr: int, c: Tile)
    requires Tiled(s0) && t in LiveTiles(s0) && Tiled(s1) && newr != 0
    requires k == if n < t.size - ALLOC_EXTRA then n else t.size - ALLOC_EXTRA
    requires Step(s0, e, s1) && PayloadsKept(m0, m1, LiveTiles(s0)) && IsBlock(c, newr, n)
    requires c !in LiveTiles(s0) && LiveTiles(s1) == LiveTiles(s0) + {c}
    requires Step(s1, Dealloc(t.addr), s) && LiveTiles(s) == LiveTiles(s1) - {t}
    requires Bytes(m, newr, k) == Bytes(m1, t.addr + ALLOC_EXTRA, k)
    requires PayloadsKept(m1, m, LiveTiles(s1) - {c, t})
    ensures Steps(s0, [e, Dealloc(t.addr)], s) && Resized(s0, m0, t, n, s, m, newr, c)
    ensures PayloadsKept(m0, m, LiveTiles(s0) - {t})
  {
    PayloadBytesIn(s1, m0, m1, t, LiveTiles(s0), k);
    PayloadsKeptTwice(m0, m1, m, LiveTiles(s0), LiveTiles(s1) - {c, t}, LiveTiles(s0) - {t});
    TwoSteps(s0, e, s1, Dealloc(t.addr), s);
  }

  /** What realloc does with the live chunk i, given to the program as r. */
  ghost predicate Reallocated(s: seq<Tile>, m: Mem, i: int, n: nat, os: Answer, minHunk: int, s': seq<Tile>, m': Mem,
                              r: int, res: int, c: Tile, events: seq<Event>)
    requires 0 <= i < |s| && s[i].Live?
  {
    && Resized(s, m, s[i], n, s', m', res, c)
    && events == ReallocMoves(s, i, n, os, minHunk)
    && (res == 0 <==> events == [Refused] && s[i].size < Need(n))
    && (res != 0 && |events| < 2 ==> res == r)
  }

  /** The chunk behind is free, and large enough to make `need` bytes of both. */
  predicate RoomAt(s: seq<Tile>, i: int, need: int) {
    0 <= i && i + 1 < |s| && !s[i].Sbrk? && s[i + 1].Free? && s[i].size + s[i + 1].size >= need
  }

  /** A block of that size has to be moved: it is larger by more than two headers, or too small, without room behind. */
  predicate MustMove(s: seq<Tile>, i: int, need: int) {
    0 <= i < |s| && !s[i].Sbrk? && (s[i].size > need + 32 || (s[i].size < need && !RoomAt(s, i, need)))
  }

  lemma OnlyAt(s: seq<Tile>, i: int, a: int)
    requires Tiled(s) && IsLiveAt(s, i, a)
    ensures forall k {:trigger IsLiveAt(s, k, a)} :: IsLiveAt(s, k, a) ==> k == i
  {
    forall k {:trigger IsLiveAt(s, k, a)} | IsLiveAt(s, k, a) ensures k == i {
      SlotOfTile(s, i);
      SlotOfTile(s, k);
    }
  }

  lemma WholePayloadFits(t: Tile, n: nat)
    requires t.Live? && WellFormed(t) && t.size < Need(n)
    ensures 0 <= t.size - ALLOC_EXTRA <= n
  {
  }

  lemma AbsorbIsResize(s: seq<Tile>, m: Mem, i: int, n: nat, m': Mem)
    requires Tiled(s) && 0 <= i && i + 1 < |s| && s[i].Live? && s[i + 1].Free?
    requires s[i].size < Need(n) <= s[i].size + s[i + 1].size && PayloadsKept(m, m', LiveTiles(s))
    ensures Resized(s, m, s[i], n, Absorb(s, i), m', s[i].addr + ALLOC_EXTRA, Absorb(s, i)[i])
  {
    assert WellFormed(s[i]);
    WholePayloadFits(s[i], n);
    AbsorbKeeps(s, i);
    AbsorbedIsNew(s, i);
    PayloadBytesIn(s, m, m', s[i], LiveTiles(s), s[i].size - ALLOC_EXTRA);
  }

  /** The links of the swallowed chunk read the same after the stores that realloc makes before. */
  lemma AbsorbOrder(m: Mem, head: int, s: seq<Tile>, i: int)
    requires Image(m, head, s) && 0 <= i && i + 1 < |s| && s[i].Live? && s[i + 1].Free?
    ensures var p, nx := s[i].addr, s[i + 1].addr;
            var m1 := m[p + SIZE := s[i].size + s[i + 1].size];
            && Prev(m1, nx) == Prev(m, nx) && Next(m1, nx) == Next(m, nx)
            && Next(m1[Prev(m, nx) + NEXT := Next(m, nx)], nx) == Next(m, nx)
  {
    assert WellFormed(s[i]) && WellFormed(s[i + 1]) && Joined(s, i + 1);
  }

  class Heap {
    const head: int     // where _mchunk_free_list is
    var mem: Mem
    var minHunk: int
    var maxHunk: int
    var errno: int
    ghost var tiles: seq<Tile>

    ghost predicate Valid()
      reads this
    {
      && Image(mem, head, tiles)
      && AtRest(tiles)
      && HunksInRange()
    }

    predicate HunksInRange()
      reads this
    {
      && 0 <= minHunk <= ADDRESS_LIMIT - PAGE_SIZE
      && (minHunk < maxHunk ==> maxHunk <= (ADDRESS_LIMIT - PAGE_SIZE) / 2)
    }

    /** The program as it is loaded: the list head is linked to itself. */
    constructor (head: int, contents: Mem)
      requires 0 < head && head % 4 == 0
      ensures Valid() && tiles == [] && this.head == head && minHunk == 8192 && maxHunk == 32768 && errno == 0
    {
      this.head := head;
      mem := contents[head + VALID := VAL_FREE][head + NEXT := head][head + PREV := head][head + SIZE := 0];
      minHunk, maxHunk, errno := 8192, 32 * 1024, 0;
      tiles := [];
    }

    /** __mallocChunkSize */
    method ChunkSize(siz: int)
      requires Valid() && 0 <= siz <= ADDRESS_LIMIT - PAGE_SIZE
      modifies this`minHunk, this`maxHunk
      ensures Valid() && minHunk == maxHunk == siz
    {
      maxHunk := siz;
      minHunk := siz;
    }

    /** The first node of the list from which `need` bytes can be had, or the list head. */
    method FindFirstFit(need: int) returns (q: int)
      requires Image(mem, head, tiles)
      ensures FirstFit(tiles, need) == |tiles| ==> q == head
      ensures FirstFit(tiles, need) < |tiles| ==> q == tiles[FirstFit(tiles, need)].addr && q != head
    {
      ghost var ring := Ring(head, tiles);
      RingIsSpread(head, tiles);
      assert Next(mem, ring[0]) == ring[1];
      q := Long(mem, head + NEXT);
      ghost var k := 1;
      while q != head && (Long(mem, q + SIZE) < need || Long(mem, q + VALID) == VAL_SBRK)
        invariant 0 < k < |ring| && q == ring[k]
        invariant forall j {:trigger ring[j]} :: 0 < j < k ==>
                    Long(mem, ring[j] + SIZE) < need || Long(mem, ring[j] + VALID) == VAL_SBRK
        decreases |ring| - k
      {
        assert Next(mem, ring[k]) == ring[k + 1];
        q := Long(mem, q + NEXT);
        k := k + 1;
      }
      if 0 < k < |ring| - 1 { Apart(ring, 0, k); }
      FirstFitAtPlace(mem, head, tiles, need, k);
    }

    /** The first node of the list that does not lie below a, or the list head. */
    method FindAfter(a: int) returns (p: int)
      requires Tiled(tiles) && HeadApart(head, tiles) && Linked(mem, Ring(head, tiles))
      ensures Place(tiles, Slot(tiles, a)) < |Ring(head, tiles)|
      ensures p == Ring(head, tiles)[Place(tiles, Slot(tiles, a))]
    {
      ghost var ring := Ring(head, tiles);
      RingIsSpread(head, tiles);
      assert Next(mem, ring[0]) == ring[1];
      p := Long(mem, head + NEXT);
      ghost var k := 1;
      while p != head && p < a
        invariant 0 < k < |ring| && p == ring[k]
        invariant forall j {:trigger ring[j]} :: 0 < j < k ==> ring[j] < a
        decreases |ring| - k
      {
        assert Next(mem, ring[k]) == ring[k + 1];
        p := Long(mem, p + NEXT);
        k := k + 1;
      }
      if 0 < k < |ring| - 1 { Apart(ring, 0, k); }
      PlaceOfSlot(head, tiles, a, k);
    }

    /** No answer, or a region of the size that malloc asks for which overlaps nothing of this program's. */
    ghost predicate Possible(os: Answer, n: int)
      reads this
    {
      os.q == 0 || Granted(head, tiles, os.q, RegionSize(Need(n), minHunk))
    }

    /** Takes sz bytes at os.q into the list, as a header and one free chunk at c. */
    method AddToList(os: Answer, sz: int) returns (c: int)
      requires Image(mem, head, tiles) && Granted(head, tiles, os.q, sz) && sz >= SBRK_EXTRA + ALLOC_EXTRA
      modifies this`mem, this`tiles
      ensures Image(mem, head, tiles) && tiles == AddRegion(old(tiles), os.q, sz) && c == os.q + SBRK_EXTRA
      ensures PayloadsKept(old(mem), mem, LiveTiles(old(tiles)))
    {
      var q := os.q;
      mem := HandedOut(mem, os, sz);
      ContentsDoNotMatter(old(mem), mem, head, tiles, q, sz);
      var p := FindAfter(q);
      ghost var m := mem;
      AddRegionImage(m, head, tiles, q, sz);
      ghost var k := Place(tiles, Slot(tiles, q));
      RegionOutsideRing(head, tiles, q, sz);
      assert Prev(m, p) == Ring(head, tiles)[k - 1];
      c := StoreRegion(q, sz, p);
      tiles := AddRegion(tiles, q, sz);
      PayloadsKeptTwice(old(mem), m, mem, LiveTiles(old(tiles)), LiveTiles(old(tiles)), LiveTiles(old(tiles)));
    }

    /** Fills in the region's header and that of its one chunk, and links both in before p. */
    method StoreRegion(q: int, sz: int, p: int) returns (c: int)
      requires sz >= SBRK_EXTRA + ALLOC_EXTRA && (p + ALLOC_EXTRA <= q || q + sz <= p)
      requires Prev(mem, p) + ALLOC_EXTRA <= q || q + sz <= Prev(mem, p)
      modifies this`mem
      ensures mem == RegionStores(old(mem), q, sz, p) && c == q + SBRK_EXTRA
    {
      StoreHeader(q, sz, p);
      c := q + SBRK_EXTRA;
      mem := mem[c + SIZE := sz - SBRK_EXTRA];
      mem := mem[c + VALID := VAL_FREE];
      mem := mem[c + NEXT := p];
      mem := mem[Long(mem, c + NEXT) + PREV := c];
    }

    method StoreHeader(q: int, sz: int, p: int)
      requires sz >= SBRK_EXTRA + ALLOC_EXTRA && (p + ALLOC_EXTRA <= q || q + sz <= p)
      requires Prev(mem, p) + ALLOC_EXTRA <= q || q + sz <= Prev(mem, p)
      modifies this`mem
      ensures mem == HeaderStores(old(mem), q, sz, p)
    {
      mem := mem[q + SIZE := SBRK_EXTRA];
      mem := mem[q + VALID := VAL_SBRK];
      mem := mem[q + ROOM := sz - SBRK_EXTRA];
      mem := mem[q + NEXT := q + SBRK_EXTRA];
      assert Long(mem, p + PREV) == old(Prev(mem, p));
      mem := mem[q + PREV := Long(mem, p + PREV)];
      mem := mem[Long(mem, q + PREV) + NEXT := q];
      mem := mem[Long(mem, q + NEXT) + PREV := q];
    }

    /** Takes `need` bytes from the free chunk i at q. */
    method Take(q: int, need: int, ghost i: int) returns (p: int)
      requires Image(mem, head, tiles) && Request(need)
      requires 0 <= i < |tiles| && tiles[i].Free? && tiles[i].size >= need && q == tiles[i].addr
      modifies this`mem, this`tiles
      ensures Image(mem, head, tiles) && tiles == Carve(old(tiles), i, need)
      ensures p == Carved(old(tiles), i, need).addr + ALLOC_EXTRA
      ensures PayloadsKept(old(mem), mem, LiveTiles(old(tiles)))
    {
      assert InMemory(mem, tiles[i]);
      if Long(mem, q + SIZE) > need + ALLOC_EXTRA {
        p := TakeTail(q, need, i);
      } else {
        TakeWhole(q, need, i);
        p := q + ALLOC_EXTRA;
      }
    }

    /** The request comes off the upper end of the chunk; the rest stays where it is on the list. */
    method TakeTail(q: int, need: int, ghost i: int) returns (p: int)
      requires Image(mem, head, tiles) && Request(need)
      requires 0 <= i < |tiles| && tiles[i].Free? && tiles[i].size > need + ALLOC_EXTRA && q == tiles[i].addr
      modifies this`mem, this`tiles
      ensures Image(mem, head, tiles) && tiles == Carve(old(tiles), i, need)
      ensures p == Carved(old(tiles), i, need).addr + ALLOC_EXTRA
      ensures PayloadsKept(old(mem), mem, LiveTiles(old(tiles)))
    {
      ghost var m := mem;
      assert InMemory(m, tiles[i]) && WellFormed(tiles[i]);
      mem := mem[q + SIZE := Long(mem, q + SIZE) - need];
      var b := q + Long(mem, q + SIZE);
      mem := mem[b + SIZE := need];
      mem := mem[b + VALID := VAL_ALLOC];
      SplitImage(m, mem, head, tiles, i, need);
      tiles := Carve(tiles, i, need);
      p := b + ALLOC_EXTRA;
    }

    /** The chunk is hardly larger than the request and goes out whole. */
    method TakeWhole(q: int, ghost need: int, ghost i: int)
      requires Image(mem, head, tiles) && Request(need) && 0 <= i < |tiles| && tiles[i].Free?
      requires need <= tiles[i].size <= need + ALLOC_EXTRA && q == tiles[i].addr
      modifies this`mem, this`tiles
      ensures Image(mem, head, tiles) && tiles == Carve(old(tiles), i, need)
      ensures PayloadsKept(old(mem), mem, LiveTiles(old(tiles)))
    {
      ghost var m := mem;
      OnItsPlace(m, head, tiles, i);
      UnlinkOrder(m, head, tiles, i);
      mem := mem[Long(mem, q + NEXT) + PREV := Long(mem, q + PREV)];
      mem := mem[Long(mem, q + PREV) + NEXT := Long(mem, q + NEXT)];
      mem := mem[q + VALID := VAL_ALLOC];
      WholeImage(m, mem, head, tiles, i, need);
      tiles := Carve(tiles, i, need);
    }

    /** The tiles are those of s with the chunk c carved out of the first free one that suffices. */
    ghost predicate From(s: seq<Tile>, need: int, c: Tile)
      reads this
    {
      FirstFit(s, need) < |s| && tiles == Carve(s, FirstFit(s, need), need) && c == Carved(s, FirstFit(s, need), need)
    }

    method Malloc(n: nat, os: Answer) returns (p: int, ghost e: Event, ghost c: Tile)
      requires Valid() && n <= MAX_REQUEST && Possible(os, n)
      modifies this`mem, this`tiles, this`minHunk, this`errno
      ensures Valid()
      ensures Step(old(tiles), e, tiles)
      ensures PayloadsKept(old(mem), mem, LiveTiles(old(tiles)))
      ensures e == MallocMove(old(tiles), Need(n), os, old(minHunk))
      ensures p == 0 <==> FirstFit(old(tiles), Need(n)) == |old(tiles)| && os.q == 0
      ensures FirstFit(old(tiles), Need(n)) < |old(tiles)| ==> From(old(tiles), Need(n), c)
      ensures FirstFit(old(tiles), Need(n)) == |old(tiles)| && os.q != 0 ==>
                From(AddRegion(old(tiles), os.q, RegionSize(Need(n), old(minHunk))), Need(n), c)
      ensures minHunk == if FirstFit(old(tiles), Need(n)) == |old(tiles)| && Need(n) + 20 <= old(minHunk) < maxHunk
                         then 2 * old(minHunk) else old(minHunk)
      ensures p == 0 <==> e == Refused
      ensures p == 0 ==> tiles == old(tiles) && mem == old(mem) && errno == ENOMEM
      ensures p != 0 ==> errno == old(errno) && IsBlock(c, p, n) && c !in LiveTiles(old(tiles))
                         && LiveTiles(tiles) == LiveTiles(old(tiles)) + {c}
      ensures minHunk == if e.Alloc? then old(minHunk) else NextHunk(Need(n), old(minHunk), maxHunk)
    {
      var q;
      c := Tile.Free(0, 0, 0);
      q, e := Reserve(n, os);
      if q == 0 {
        return 0, e, c;
      }
      p, c := TakeBlock(q, n, old(mem), old(tiles), e);
    }

    /** Takes the block for a request of n bytes from the first chunk that fits, which is at q. Before the request
        the memory was `before` and the tiles were s0. */
    method TakeBlock(q: int, n: nat, ghost before: Mem, ghost s0: seq<Tile>, ghost e: Event)
      returns (p: int, ghost c: Tile)
      requires Image(mem, head, tiles) && HunksInRange()
      requires FirstFit(tiles, Need(n)) < |tiles| && q == tiles[FirstFit(tiles, Need(n))].addr
      requires LiveTiles(tiles) == LiveTiles(s0) && PayloadsKept(before, mem, LiveTiles(tiles))
      requires Step(s0, e, Carve(tiles, FirstFit(tiles, Need(n)), Need(n)))
      requires AtRest(Carve(tiles, FirstFit(tiles, Need(n)), Need(n)))
      modifies this`mem, this`tiles
      ensures Valid() && Step(s0, e, tiles) && PayloadsKept(before, mem, LiveTiles(s0))
      ensures p != 0 && IsBlock(c, p, n) && c !in LiveTiles(s0) && LiveTiles(tiles) == LiveTiles(s0) + {c}
      ensures From(old(tiles), Need(n), c)
    {
      ghost var m, s, i := mem, tiles, FirstFit(tiles, Need(n));
      c := Carved(s, i, Need(n));
      CarvedIsBlock(s, i, n);
      NeedIsRequest(n);
      p := Take(q, Need(n), i);
      PayloadsKeptTwice(before, m, mem, LiveTiles(s), LiveTiles(s), LiveTiles(s));
    }

    /** Finds the first chunk that fits, in a new region if there is none so far. */
    method Reserve(n: nat, os: Answer) returns (q: int, ghost e: Event)
      requires Valid() && Possible(os, n)
      modifies this`mem, this`tiles, this`minHunk, this`errno
      ensures Image(mem, head, tiles) && HunksInRange() && (q == 0 ==> Valid())
      ensures e == MallocMove(old(tiles), Need(n), os, old(minHunk)) && (q == 0 <==> e == Refused)
      ensures FirstFit(old(tiles), Need(n)) < |old(tiles)| ==> tiles == old(tiles)
      ensures FirstFit(old(tiles), Need(n)) == |old(tiles)| && os.q != 0 ==>
                tiles == AddRegion(old(tiles), os.q, RegionSize(Need(n), old(minHunk)))
      ensures q == 0 ==> tiles == old(tiles) && mem == old(mem) && errno == ENOMEM
      ensures q != 0 ==>
                errno == old(errno)
                && FirstFit(tiles, Need(n)) < |tiles| && q == tiles[FirstFit(tiles, Need(n))].addr
                         && Step(old(tiles), e, Carve(tiles, FirstFit(tiles, Need(n)), Need(n)))
                         && AtRest(Carve(tiles, FirstFit(tiles, Need(n)), Need(n)))
      ensures LiveTiles(tiles) == LiveTiles(old(tiles)) && PayloadsKept(old(mem), mem, LiveTiles(tiles))
      ensures minHunk == if e.Alloc? then old(minHunk) else NextHunk(Need(n), old(minHunk), maxHunk)
    {
      var need := ALLOC_EXTRA + (n + 3) / 4 * 4;
      NeedIsRequest(n);
      q := FindFirstFit(need);
      e := Alloc(need);
      if q == head {
        var sz := NextRegionSize(need);
        q := os.q;
        if q == 0 {
          errno := ENOMEM;
          return 0, Refused;
        }
        e := AllocNew(need, q, sz);
        q := AddRegionFor(need, os, sz);
      } else {
        assert WellFormed(tiles[FirstFit(tiles, need)]);
        StepLeavesRest(tiles, e, Carve(tiles, FirstFit(tiles, need), need));
      }
    }

    /** Takes a new region into the list; its one chunk is then the first that fits. */
    method AddRegionFor(need: int, os: Answer, sz: int) returns (c: int)
      requires Image(mem, head, tiles) && AtRest(tiles) && Request(need) && FirstFit(tiles, need) == |tiles|
      requires Granted(head, tiles, os.q, sz) && sz >= need + SBRK_EXTRA
      modifies this`mem, this`tiles
      ensures Image(mem, head, tiles) && FirstFit(tiles, need) < |tiles| && c == tiles[FirstFit(tiles, need)].addr
              && c > 0 && tiles == AddRegion(old(tiles), os.q, sz)
      ensures Step(old(tiles), AllocNew(need, os.q, sz), Carve(tiles, FirstFit(tiles, need), need))
      ensures AtRest(Carve(tiles, FirstFit(tiles, need), need))
      ensures LiveTiles(tiles) == LiveTiles(old(tiles)) && PayloadsKept(old(mem), mem, LiveTiles(tiles))
    {
      ghost var s := tiles;
      c := AddToList(os, sz);
      NewRegionIsFirstFit(s, os.q, sz, need);
      AddRegionMembers(s, os.q, sz);
      StepLeavesRest(s, AllocNew(need, os.q, sz), Carve(tiles, FirstFit(tiles, need), need));
    }

    method NextRegionSize(need: int) returns (sz: int)
      requires HunksInRange()
      modifies this`minHunk
      ensures HunksInRange() && sz == RegionSize(need, old(minHunk)) && minHunk == NextHunk(need, old(minHunk), maxHunk)
      ensures sz >= old(minHunk) && sz >= need + SBRK_EXTRA && sz % PAGE_SIZE == 0
    {
      if need + SBRK_EXTRA > minHunk {
        sz := need + SBRK_EXTRA;
      } else {
        sz := minHunk;
        if minHunk < maxHunk {
          minHunk := 2 * minHunk;
        }
      }
      sz := (sz + PAGE_SIZE - 1) / PAGE_SIZE * PAGE_SIZE;
    }

    /** Links the live chunk i at r into the list as a free one. */
    method LinkFreed(r: int, ghost i: int) returns (next: int)
      requires Image(mem, head, tiles) && 0 <= i < |tiles| && tiles[i].Live? && tiles[i].addr == r
      modifies this`mem, this`tiles
      ensures Image(mem, head, tiles) && tiles == SetFree(old(tiles), i) && next == Next(mem, r)
      ensures LiveTiles(tiles) == LiveTiles(old(tiles)) - {old(tiles)[i]}
      ensures PayloadsKept(old(mem), mem, LiveTiles(tiles))
    {
      ghost var m := mem;
      SlotOfTile(tiles, i);
      RingIsSpread(head, tiles);
      ChunkAgainstRing(head, tiles, i, r);
      TagStoreKeepsLinks(m, Ring(head, tiles), r, VALID, VAL_FREE);
      mem := mem[r + VALID := VAL_FREE];
      next := FindAfter(r);
      ghost var k, ring := Place(tiles, i), Ring(head, tiles);
      assert Prev(mem, ring[k]) == ring[k - 1] && Gap(ring[k], r);
      assert Gap(ring[k - 1], r);
      StoreLinks(r, next);
      LinkFreeImage(m, mem, head, tiles, i);
      SetFreeLives(tiles, i);
      LinkFreeRing(head, tiles, i, [Tile.Free(r, tiles[i].size, tiles[i].lim)]);
      tiles := SetFree(tiles, i);
      OnItsPlace(mem, head, tiles, i);
    }

    method StoreLinks(r: int, next: int)
      requires Gap(next, r) && Gap(Prev(mem, next), r)
      modifies this`mem
      ensures mem == LinkIn(old(mem), r, next, Prev(old(mem), next))
    {
      mem := mem[r + NEXT := next];
      mem := mem[r + PREV := Long(mem, next + PREV)];
      mem := mem[Long(mem, r + PREV) + NEXT := r];
      mem := mem[Long(mem, r + NEXT) + PREV := r];
    }

    /** Lets the free chunk i at r swallow the free chunk i + 1 at s. */
    method MergeChunks(r: int, s: int, ghost i: int)
      requires Image(mem, head, tiles) && 0 <= i && i + 1 < |tiles| && tiles[i].Free? && tiles[i + 1].Free?
      requires r == tiles[i].addr && s == tiles[i + 1].addr
      modifies this`mem, this`tiles
      ensures Image(mem, head, tiles) && tiles == Merge(old(tiles), i)
      ensures LiveTiles(tiles) == LiveTiles(old(tiles)) && PayloadsKept(old(mem), mem, LiveTiles(tiles))
    {
      ghost var m := mem;
      assert InMemory(m, tiles[i]) && InMemory(m, tiles[i + 1]) && WellFormed(tiles[i]) && Joined(tiles, i + 1);
      mem := mem[r + SIZE := Long(mem, r + SIZE) + Long(mem, s + SIZE)];
      mem := mem[r + NEXT := Long(mem, s + NEXT)];
      mem := mem[Long(mem, r + NEXT) + PREV := r];
      MergeImage(m, mem, head, tiles, i);
      MergeLives(tiles, i);
      tiles := Merge(tiles, i);
    }

    /** free. A pointer whose header does not carry the mark of a live chunk is left alone. */
    method Free(p: int)
      requires Valid()
      requires p == 0 || Long(mem, p - ALLOC_EXTRA + VALID) != VAL_ALLOC || HasLive(tiles, p - ALLOC_EXTRA)
      modifies this`mem, this`tiles
      ensures Valid()
      ensures p == 0 || old(Long(mem, p - ALLOC_EXTRA + VALID)) != VAL_ALLOC ==> mem == old(mem) && tiles == old(tiles)
      ensures p != 0 && old(Long(mem, p - ALLOC_EXTRA + VALID)) == VAL_ALLOC ==>
                && Step(old(tiles), Dealloc(p - ALLOC_EXTRA), tiles)
                && LiveTiles(tiles) == (set t | t in LiveTiles(old(tiles)) && t.addr != p - ALLOC_EXTRA)
      ensures PayloadsKept(old(mem), mem, LiveTiles(tiles))
    {
      if p == 0 {
        return;
      }
      var r := p - ALLOC_EXTRA;
      if Long(mem, r + VALID) != VAL_ALLOC {
        return;
      }
      ghost var i :| IsLiveAt(tiles, i, r);
      ReleaseKeeps(tiles, i);
      ReleaseRemovesOne(tiles, i);
      LiveByAddress(tiles, i);
      FreeChunk(r, i);
    }

    /** The work of free on the live chunk i at r0. */
    method FreeChunk(r0: int, ghost i: int)
      requires Image(mem, head, tiles) && IsLiveAt(tiles, i, r0)
      modifies this`mem, this`tiles
      ensures Image(mem, head, tiles) && tiles == Release(old(tiles), i)
      ensures PayloadsKept(old(mem), mem, LiveTiles(old(tiles)) - {old(tiles)[i]})
    {
      var r := r0;
      ghost var s, live := tiles, LiveTiles(tiles) - {tiles[i]};
      var next := LinkFreed(r, i);
      ghost var m1 := mem;
      MergeAfter(r, next, i);
      ghost var m2 := mem;
      PayloadsKeptTwice(old(mem), m1, m2, live, live, live);
      ghost var j;
      r, j := MergeBefore(r, i);
      ghost var m3 := mem;
      PayloadsKeptTwice(old(mem), m2, m3, live, live, live);
      MergedThenDropped(s, i);
      DropIfIdle(r, j);
      PayloadsKeptTwice(old(mem), m3, mem, live, live, live);
    }

    /** Joins the chunk with the free one right above it, if there is one. */
    method MergeAfter(r: int, next: int, ghost i: int)
      requires Image(mem, head, tiles) && 0 <= i < |tiles| && tiles[i].Free? && tiles[i].addr == r
               && next == Next(mem, r)
      modifies this`mem, this`tiles
      ensures Image(mem, head, tiles) && tiles == MergeNext(old(tiles), i) && tiles[i].Free? && tiles[i].addr == r
      ensures LiveTiles(tiles) == LiveTiles(old(tiles)) && PayloadsKept(old(mem), mem, LiveTiles(tiles))
    {
      OnItsPlace(mem, head, tiles, i);
      NextIsAdjacent(mem, head, tiles, i);
      assert InMemory(mem, tiles[i]);
      if r + Long(mem, r + SIZE) == next && Long(mem, next + VALID) == VAL_FREE {
        MergeChunks(r, next, i);
      }
    }

    /** Joins the chunk with the free one right below it, if there is one. */
    method MergeBefore(r0: int, ghost i: int) returns (r: int, ghost j: int)
      requires Image(mem, head, tiles) && 0 <= i < |tiles| && tiles[i].Free? && tiles[i].addr == r0
      modifies this`mem, this`tiles
      ensures Image(mem, head, tiles) && (tiles, j) == MergePrev(old(tiles), i)
      ensures 0 <= j < |tiles| && tiles[j].Free? && tiles[j].addr == r
      ensures LiveTiles(tiles) == LiveTiles(old(tiles)) && PayloadsKept(old(mem), mem, LiveTiles(tiles))
    {
      r, j := r0, i;
      PrevIsAdjacent(mem, head, tiles, i);
      var prev := Long(mem, r + PREV);
      if prev != head && Long(mem, prev + VALID) == VAL_FREE && prev + Long(mem, prev + SIZE) == r {
        MergeChunks(prev, r, i - 1);
        r, j := prev, i - 1;
      }
    }

    /** Gives the region of the free chunk j at r back when that chunk is all there is in it. */
    method DropIfIdle(r: int, ghost j: int)
      requires Image(mem, head, tiles) && 0 <= j < |tiles| && tiles[j].Free? && tiles[j].addr == r
      modifies this`mem, this`tiles
      ensures Image(mem, head, tiles) && tiles == DropIdle(old(tiles), j)
      ensures PayloadsKept(old(mem), mem, LiveTiles(old(tiles)))
    {
      assert InMemory(mem, tiles[j]);
      PrevIsFullHeader(mem, head, tiles, j);
      var prev := Long(mem, r + PREV);
      if prev != head && Long(mem, prev + VALID) == VAL_SBRK && Long(mem, prev + ROOM) == Long(mem, r + SIZE) {
        DropRegion(prev, r, j);
      }
    }

    /** Takes the header h and the one free chunk r of a region out of the list; the region goes back with Mfree. */
    method DropRegion(h: int, r: int, ghost j: int)
      requires Image(mem, head, tiles) && 0 < j < |tiles| && tiles[j].Free? && tiles[j - 1].Sbrk?
      requires tiles[j - 1].Room() == tiles[j].size && h == tiles[j - 1].addr && r == tiles[j].addr
      modifies this`mem, this`tiles
      ensures Image(mem, head, tiles) && tiles == old(tiles)[..j - 1] + old(tiles)[j + 1..]
      ensures PayloadsKept(old(mem), mem, LiveTiles(old(tiles)))
    {
      ghost var m := mem;
      ghost var k, ring := Place(tiles, j - 1), Ring(head, tiles);
      TwoPlaces(m, head, tiles, j - 1);
      RingIsSpread(head, tiles);
      Apart(ring, k - 1, k);
      Apart(ring, k - 1, k + 1);
      mem := mem[Long(mem, h + PREV) + NEXT := Long(mem, r + NEXT)];
      mem := mem[Long(mem, r + NEXT) + PREV := Long(mem, h + PREV)];
      DropImage(m, mem, head, tiles, j);
      tiles := tiles[..j - 1] + tiles[j + 1..];
    }

    /** The program stores a byte into block i of its own. */
    method StoreByte(a: int, v: Byte, ghost i: int)
      requires Valid() && 0 <= i < |tiles| && tiles[i].Live? && tiles[i].addr + ALLOC_EXTRA <= a < tiles[i].End()
      modifies this`mem
      ensures Valid() && ByteAt(mem, a) == v
      ensures PayloadsKept(old(mem), mem, LiveTiles(tiles) - {tiles[i]})
    {
      assert WellFormed(tiles[i]);
      SetByteFrame(mem, a, v, a);
      ghost var m := mem;
      mem := SetByte(mem, a, v);
      PayloadStore(m, mem, head, tiles, i);
    }

    /** Copies the first k bytes of the live chunk j into the live chunk i. */
    method CopyPayload(dest: int, src: int, k: nat, ghost i: int, ghost j: int)
      requires Valid() && 0 <= i < |tiles| && tiles[i].Live? && 0 <= j < |tiles| && tiles[j].Live?
      requires dest == tiles[i].addr + ALLOC_EXTRA && src == tiles[j].addr + ALLOC_EXTRA
      requires k <= tiles[i].size - ALLOC_EXTRA && k <= tiles[j].size - ALLOC_EXTRA
      modifies this`mem
      ensures Valid() && Bytes(mem, dest, k) == old(Bytes(mem, src, k))
      ensures PayloadsKept(old(mem), mem, LiveTiles(tiles) - {tiles[i]})
    {
      assert WellFormed(tiles[i]);
      ghost var m := mem;
      mem := Memcpy(mem, dest, src, k);
      forall w | Long(mem, w) != Long(m, w) ensures dest <= w < tiles[i].End() {
        CopiedLongs(m, mem, dest, src, k, w);
      }
      PayloadStore(m, mem, head, tiles, i);
    }

    /** What realloc does when it has to move a block: a new block, k bytes copied, the old block freed. */
    method MoveBlock(r: int, n: nat, k: nat, os: Answer, ghost t: Tile)
      returns (newr: int, ghost c: Tile, ghost events: seq<Event>)
      requires Valid() && n <= MAX_REQUEST && Possible(os, n)
      requires t in LiveTiles(tiles) && r == t.addr + ALLOC_EXTRA
      requires k == if n < t.size - ALLOC_EXTRA then n else t.size - ALLOC_EXTRA
      modifies this`mem, this`tiles, this`minHunk, this`errno
      ensures Valid() && Steps(old(tiles), events, tiles)
      ensures events == MovingMoves(MallocMove(old(tiles), Need(n), os, old(minHunk)), t.addr)
      ensures newr == 0 <==> events == [Refused]
      ensures Resized(old(tiles), old(mem), t, n, tiles, mem, newr, c)
      ensures PayloadsKept(old(mem), mem, LiveTiles(old(tiles)) - {t})
      ensures errno == if newr == 0 then ENOMEM else old(errno)
    {
      ghost var m0, s0 := mem, tiles;
      ghost var e;
      newr, e, c := Malloc(n, os);
      ghost var s1, m1 := tiles, mem;
      events := [e];
      if newr != 0 {
        CopyAndFree(newr, r, k, c, t);
        events := [e, Dealloc(t.addr)];
        MovedBlock(s0, m0, e, s1, m1, tiles, mem, t, n, k, newr, c);
      } else {
        OneStep(s0, e, tiles);
      }
    }

    method CopyAndFree(newr: int, r: int, k: nat, ghost c: Tile, ghost t: Tile)
      requires Valid() && c in LiveTiles(tiles) && t in LiveTiles(tiles) && c != t
      requires newr == c.addr + ALLOC_EXTRA && r == t.addr + ALLOC_EXTRA
      requires k <= c.size - ALLOC_EXTRA && k <= t.size - ALLOC_EXTRA
      modifies this`mem, this`tiles
      ensures Valid() && Step(old(tiles), Dealloc(t.addr), tiles)
      ensures LiveTiles(tiles) == LiveTiles(old(tiles)) - {t}
      ensures Bytes(mem, newr, k) == old(Bytes(mem, r, k))
      ensures PayloadsKept(old(mem), mem, LiveTiles(old(tiles)) - {c, t})
    {
      ghost var i :| 0 <= i < |tiles| && tiles[i] == c;
      ghost var j :| 0 <= j < |tiles| && tiles[j] == t;
      CopyPayload(newr, r, k, i, j);
      ghost var s, m := tiles, mem;
      assert WellFormed(s[j]) && InMemory(m, s[j]) && IsLiveAt(s, j, t.addr);
      LiveByAddress(s, j);
      Free(r);
      PayloadBytesIn(s, m, mem, c, LiveTiles(tiles), k);
      PayloadsKeptTwice(old(mem), m, mem, LiveTiles(s) - {c}, LiveTiles(s) - {t}, LiveTiles(s) - {c, t});
    }

    /** The live chunks other than the one of block r. */
    ghost function Others(r: int): set<Tile>
      reads this
    {
      set t | t in LiveTiles(tiles) && t.addr != r - ALLOC_EXTRA
    }

    method Realloc(r: int, n: nat, os: Answer) returns (res: int, ghost c: Tile, ghost events: seq<Event>)
      requires Valid() && n <= MAX_REQUEST && Possible(os, n)
      requires r == 0 || Long(mem, r - ALLOC_EXTRA + VALID) != VAL_ALLOC || HasLive(tiles, r - ALLOC_EXTRA)
      modifies this`mem, this`tiles, this`minHunk, this`errno
      ensures Valid()
      ensures Steps(old(tiles), events, tiles)
      ensures PayloadsKept(old(mem), mem, old(Others(r)))
      // realloc(NULL, n) is malloc(n)
      ensures r == 0 ==>
                events == [MallocMove(old(tiles), Need(n), os, old(minHunk))]
                && (res == 0 <==> events == [Refused])
      ensures r == 0 && res == 0 ==> tiles == old(tiles) && mem == old(mem) && errno == ENOMEM
      ensures r == 0 ==> (res == 0 <==> FirstFit(old(tiles), Need(n)) == |old(tiles)| && os.q == 0)
      ensures r == 0 && res != 0 ==>
                IsBlock(c, res, n)
                && c !in LiveTiles(old(tiles)) && LiveTiles(tiles) == LiveTiles(old(tiles)) + {c}
      // realloc(r, 0) is free(r)
      ensures r != 0 && n == 0 ==> res == 0
      ensures r != 0 && n == 0 && old(Long(mem, r - ALLOC_EXTRA + VALID)) == VAL_ALLOC ==>
                events == [Dealloc(r - ALLOC_EXTRA)] && LiveTiles(tiles) == old(Others(r))
      // no block of this heap, or one freed already
      ensures r != 0 && old(Long(mem, r - ALLOC_EXTRA + VALID)) != VAL_ALLOC ==>
                res == 0 && tiles == old(tiles) && mem == old(mem) && (n != 0 ==> errno == EINVAL)
      // otherwise the block, moved or not, with its contents; or failure, and the old block untouched
      ensures r != 0 && n != 0 && old(Long(mem, r - ALLOC_EXTRA + VALID)) == VAL_ALLOC ==>
                && (res == 0 ==> errno == ENOMEM)
                && forall i {:trigger IsLiveAt(old(tiles), i, r - ALLOC_EXTRA)} ::
                     IsLiveAt(old(tiles), i, r - ALLOC_EXTRA) ==>
                     Reallocated(old(tiles), old(mem), i, n, os, old(minHunk), tiles, mem, r, res, c, events)
      ensures r != 0 && n != 0 && old(Long(mem, r - ALLOC_EXTRA + VALID)) == VAL_ALLOC ==>
                forall i {:trigger IsLiveAt(old(tiles), i, r - ALLOC_EXTRA)} ::
                  IsLiveAt(old(tiles), i, r - ALLOC_EXTRA) ==>
                  && (Need(n) <= old(tiles)[i].size <= Need(n) + 32 ==> res == r && tiles == old(tiles))
                  && (old(tiles)[i].size < Need(n) && RoomAt(old(tiles), i, Need(n)) ==>
                        res == r && tiles == Absorb(old(tiles), i))
                  && (MustMove(old(tiles), i, Need(n)) ==>
                        if FirstFit(old(tiles), Need(n)) == |old(tiles)| && os.q == 0 then
                          tiles == old(tiles) && mem == old(mem) && (res == 0 <==> old(tiles)[i].size < Need(n))
                        else |events| == 2)
    {
      events, c := [], Tile.Free(0, 0, 0);
      if r == 0 {
        ghost var e;
        res, e, c := Malloc(n, os);
        events := [e];
        OneStep(old(tiles), e, tiles);
        return;
      }
      var p := r - ALLOC_EXTRA;
      if n == 0 {
        if Long(mem, p + VALID) == VAL_ALLOC {
          events := [Dealloc(p)];
        }
        Free(r);
        if events != [] { OneStep(old(tiles), Dealloc(p), tiles); }
        return 0, c, events;
      }
      if Long(mem, p + VALID) != VAL_ALLOC {
        errno := EINVAL;
        return 0, c, events;
      }
      ghost var i :| IsLiveAt(tiles, i, p);
      LiveByAddress(tiles, i);
      res, c, events := Resize(r, n, os, i);
      OnlyAt(old(tiles), i, p);
    }

    /** realloc of the live chunk i. */
    method Resize(r: int, n: nat, os: Answer, ghost i: int) returns (res: int, ghost c: Tile, ghost events: seq<Event>)
      requires Valid() && n <= MAX_REQUEST && Possible(os, n) && IsLiveAt(tiles, i, r - ALLOC_EXTRA)
      modifies this`mem, this`tiles, this`minHunk, this`errno
      ensures Valid()
      ensures Steps(old(tiles), events, tiles) && events == ReallocMoves(old(tiles), i, n, os, old(minHunk))
      ensures PayloadsKept(old(mem), mem, LiveTiles(old(tiles)) - {old(tiles[i])})
      ensures Resized(old(tiles), old(mem), old(tiles)[i], n, tiles, mem, res, c)
      ensures res == 0 <==> events == [Refused] && old(tiles)[i].size < Need(n)
      ensures res != 0 && |events| < 2 ==> res == r
      ensures res == 0 ==> errno == ENOMEM
      // large enough, and not by more than two headers too large: it stays
      ensures Need(n) <= old(tiles)[i].size <= Need(n) + 32 ==>
                res == r && tiles == old(tiles) && mem == old(mem) && errno == old(errno) && minHunk == old(minHunk)
      // too small, with a free chunk behind that makes up for it: that is taken over
      ensures old(tiles)[i].size < Need(n) && RoomAt(old(tiles), i, Need(n)) ==>
                res == r && tiles == Absorb(old(tiles), i) && errno == old(errno) && minHunk == old(minHunk)
      // otherwise it is moved, if a new block can be had as by malloc
      ensures MustMove(old(tiles), i, Need(n)) && FirstFit(old(tiles), Need(n)) < |old(tiles)| ==>
                events == [Alloc(Need(n)), Dealloc(old(tiles)[i].addr)] && res != 0
      ensures MustMove(old(tiles), i, Need(n)) && FirstFit(old(tiles), Need(n)) == |old(tiles)| && os.q != 0 ==>
                && events == [AllocNew(Need(n), os.q, RegionSize(Need(n), old(minHunk))), Dealloc(old(tiles)[i].addr)]
                && res != 0
      ensures MustMove(old(tiles), i, Need(n)) && FirstFit(old(tiles), Need(n)) == |old(tiles)| && os.q == 0 ==>
                && tiles == old(tiles) && mem == old(mem) && errno == ENOMEM
                && res == if old(tiles)[i].size < Need(n) then 0 else r
    {
      var p := r - ALLOC_EXTRA;
      ghost var t := tiles[i];
      assert InMemory(mem, t) && WellFormed(t);
      events := [];
      c := t;
      var sz := ALLOC_EXTRA + (n + 3) / 4 * 4;
      if Long(mem, p + SIZE) > sz + 2 * ALLOC_EXTRA {
        var newr;
        ghost var c1;
        newr, c1, events := MoveBlock(r, n, n, os, t);
        if newr != 0 {
          c := c1;
          res := newr;
        } else {
          res := r;
        }
      } else if Long(mem, p + SIZE) < sz {
        res, c, events := Grow(r, n, sz, os, i);
      } else {
        res := r;
      }
    }

    /** realloc of a block that is too small. */
    method Grow(r: int, n: nat, sz: int, os: Answer, ghost i: int)
      returns (res: int, ghost c: Tile, ghost events: seq<Event>)
      requires Valid() && n <= MAX_REQUEST && Possible(os, n) && IsLiveAt(tiles, i, r - ALLOC_EXTRA)
      requires sz == Need(n) && tiles[i].size < sz
      modifies this`mem, this`tiles, this`minHunk, this`errno
      ensures Valid()
      ensures Steps(old(tiles), events, tiles) && events == ReallocMoves(old(tiles), i, n, os, old(minHunk))
      ensures PayloadsKept(old(mem), mem, LiveTiles(old(tiles)) - {old(tiles)[i]})
      ensures Resized(old(tiles), old(mem), old(tiles)[i], n, tiles, mem, res, c)
      ensures res == 0 <==> events == [Refused]
      ensures res != 0 && |events| < 2 ==> res == r
      ensures errno == if res == 0 then ENOMEM else old(errno)
      ensures RoomAt(old(tiles), i, sz) ==> tiles == Absorb(old(tiles), i) && minHunk == old(minHunk)
    {
      var p := r - ALLOC_EXTRA;
      assert InMemory(mem, tiles[i]) && WellFormed(tiles[i]);
      var next, here := RoomBehind(p, sz, i);
      if here {
        c := GrowInPlace(p, next, n, i);
        res, events := r, [Extend(p)];
      } else {
        WholePayloadFits(tiles[i], n);
        res, c, events := MoveBlock(r, n, Long(mem, p + SIZE) - ALLOC_EXTRA, os, tiles[i]);
      }
    }

    /** Is the chunk behind the live chunk i at p free, and large enough to make sz bytes of both? */
    method RoomBehind(p: int, sz: int, ghost i: int) returns (next: int, here: bool)
      requires Image(mem, head, tiles) && IsLiveAt(tiles, i, p)
      ensures here <==> i + 1 < |tiles| && tiles[i + 1].Free? && tiles[i].size + tiles[i + 1].size >= sz
      ensures here ==> next == tiles[i + 1].addr
    {
      assert InMemory(mem, tiles[i]);
      next := FindAfter(p);
      SlotOfTile(tiles, i);
      PlaceOfNext(tiles, i);
      NextIsAdjacent(mem, head, tiles, i);
      if i + 1 < |tiles| && tiles[i + 1].Free? { assert InMemory(mem, tiles[i + 1]); }
      var s := p + Long(mem, p + SIZE);
      here := s == next && Long(mem, p + SIZE) + Long(mem, next + SIZE) >= sz && Long(mem, next + VALID) == VAL_FREE;
    }

    /** The live chunk i at p takes over the free chunk right behind it, at next. */
    method GrowInPlace(p: int, next: int, ghost n: nat, ghost i: int) returns (ghost c: Tile)
      requires Valid() && 0 <= i && i + 1 < |tiles| && tiles[i].Live? && tiles[i + 1].Free?
      requires p == tiles[i].addr && next == tiles[i + 1].addr
      requires tiles[i].size < Need(n) <= tiles[i].size + tiles[i + 1].size
      modifies this`mem, this`tiles
      ensures Valid() && Steps(old(tiles), [Extend(p)], tiles) && tiles == Absorb(old(tiles), i)
      ensures Resized(old(tiles), old(mem), old(tiles)[i], n, tiles, mem, p + ALLOC_EXTRA, c)
      ensures PayloadsKept(old(mem), mem, LiveTiles(old(tiles)) - {old(tiles)[i]})
    {
      ghost var m, s := mem, tiles;
      MergeInMemory(p, next, i);
      AbsorbKeeps(s, i);
      AbsorbIsResize(s, m, i, n, mem);
      c := Absorb(s, i)[i];
      assert IsLiveAt(s, i, p) && WellFormed(s[i]);
      OneStep(s, Extend(p), tiles);
    }

    method MergeInMemory(p: int, next: int, ghost i: int)
      requires Image(mem, head, tiles) && 0 <= i && i + 1 < |tiles| && tiles[i].Live? && tiles[i + 1].Free?
      requires p == tiles[i].addr && next == tiles[i + 1].addr
      modifies this`mem, this`tiles
      ensures Image(mem, head, tiles) && tiles == Absorb(old(tiles), i)
      ensures PayloadsKept(old(mem), mem, LiveTiles(old(tiles)))
    {
      ghost var m := mem;
      assert InMemory(m, tiles[i]) && InMemory(m, tiles[i + 1]);
      OnItsPlace(m, head, tiles, i + 1);
      AbsorbOrder(m, head, tiles, i);
      StoreAbsorb(p, next);
      AbsorbImage(m, mem, head, tiles, i);
      tiles := Absorb(tiles, i);
    }

    method StoreAbsorb(p: int, next: int)
      requires var m1 := mem[p + SIZE := Long(mem, p + SIZE) + Long(mem, next + SIZE)];
               && Prev(m1, next) == Prev(mem, next) && Next(m1, next) == Next(mem, next)
               && Next(m1[Prev(mem, next) + NEXT := Next(mem, next)], next) == Next(mem, next)
      modifies this`mem
      ensures mem == LinkOut(old(mem)[p + SIZE := old(Long(mem, p + SIZE) + Long(mem, next + SIZE))],
                             old(Next(mem, next)), old(Prev(mem, next)))
    {
      mem := mem[p + SIZE := Long(mem, p + SIZE) + Long(mem, next + SIZE)];
      var prev := Long(mem, next + PREV);
      mem := mem[prev + NEXT := Long(mem, next + NEXT)];
      mem := mem[Long(mem, next + NEXT) + PREV := prev];
    }
  }
}
