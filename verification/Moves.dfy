/** What malloc, free and realloc do to the row of tiles, and what every such step keeps. */
module Moves {
  import opened Tiles

  /** The index of the first free chunk of at least `need` bytes, or |s|. */
  function FirstFit(s: seq<Tile>, need: int): (i: nat)
    ensures i <= |s|
    ensures i < |s| ==> s[i].Free? && s[i].size >= need
    ensures forall k :: 0 <= k < i ==> !(s[k].Free? && s[k].size >= need)
  {
    if s == [] || (s[0].Free? && s[0].size >= need) then 0 else 1 + FirstFit(s[1..], need)
  }

  /** What becomes of the free chunk t when `need` bytes of it go to a caller: the tail end is cut off,
      unless the rest could not hold more than a header. */
  function Cut(t: Tile, need: int): (mid: seq<Tile>)
    requires t.Free? && need <= t.size
    ensures mid != [] && mid[|mid| - 1].Live? && mid[|mid| - 1].size >= need
    ensures |mid| == if t.size > need + 16 then 2 else 1
    ensures mid[0].addr == t.addr && mid[|mid| - 1].End() == t.addr + t.size
    ensures mid[0].lim == mid[|mid| - 1].lim == t.lim
    ensures |mid| == 2 ==> mid[0].Free? && mid[0].End() == mid[1].addr && mid[1].size == need
  {
    if t.size > need + ALLOC_EXTRA
    then [Free(t.addr, t.size - need, t.lim), Live(t.addr + (t.size - need), need, t.lim)]
    else [Live(t.addr, t.size, t.lim)]
  }

  function Carve(s: seq<Tile>, i: int, need: int): seq<Tile>
    requires 0 <= i < |s| && s[i].Free? && need <= s[i].size
  {
    Splice(s, i, Cut(s[i], need), i + 1)
  }

  /** The chunk that Carve makes live. */
  function Carved(s: seq<Tile>, i: int, need: int): (t: Tile)
    requires 0 <= i < |s| && s[i].Free? && need <= s[i].size
    ensures t.Live? && t.size >= need
  {
    var mid := Cut(s[i], need); mid[|mid| - 1]
  }

  /** A region of sz bytes at q that overlaps no region held so far. */
  ghost predicate FreshRegion(s: seq<Tile>, q: int, sz: int) {
    && 0 < q && q % 4 == 0 && sz % 4 == 0 && q + sz <= ADDRESS_LIMIT
    && forall i :: 0 <= i < |s| && s[i].Sbrk? ==> s[i].lim <= q || q + sz <= s[i].addr
  }

  /** The index of the first tile that does not lie below q, or |s|. */
  function Slot(s: seq<Tile>, q: int): (i: nat)
    ensures i <= |s|
    ensures forall k :: 0 <= k < i ==> s[k].addr < q
    ensures i < |s| ==> s[i].addr >= q
  {
    if s == [] || s[0].addr >= q then 0 else 1 + Slot(s[1..], q)
  }

  function NewTiles(q: int, sz: int): seq<Tile> {
    [Sbrk(q, q + sz), Free(q + SBRK_EXTRA, sz - SBRK_EXTRA, q + sz)]
  }

  function AddRegion(s: seq<Tile>, q: int, sz: int): seq<Tile> {
    Splice(s, Slot(s, q), NewTiles(q, sz), Slot(s, q))
  }

  /** The free stretch that comes into being when chunk i is freed. */
  function Lo(s: seq<Tile>, i: int): int {
    if 0 < i <= |s| && s[i - 1].Free? then i - 1 else i
  }

  function Hi(s: seq<Tile>, i: int): int {
    if 0 <= i && i + 1 < |s| && s[i + 1].Free? then i + 2 else i + 1
  }

  function Stretch(s: seq<Tile>, i: int): Tile
    requires 0 <= i < |s|
  {
    var before := if Lo(s, i) < i then s[i - 1].Size() else 0;
    var after := if Hi(s, i) > i + 1 then s[i + 1].Size() else 0;
    Free(s[i].addr - before, before + s[i].Size() + after, s[i].lim)
  }

  /** The region of chunk i would be free as a whole. */
  predicate Idle(s: seq<Tile>, i: int)
    requires 0 <= i < |s|
  {
    0 < Lo(s, i) && s[Lo(s, i) - 1].Sbrk? && Stretch(s, i).End() == s[i].lim
  }

  /** free: the chunk and its free neighbours become one free chunk, or vanish together with the header of
      their region if nothing else is in it. */
  function Release(s: seq<Tile>, i: int): seq<Tile>
    requires 0 <= i < |s|
  {
    if Idle(s, i) then s[..Lo(s, i) - 1] + s[Hi(s, i)..] else Splice(s, Lo(s, i), [Stretch(s, i)], Hi(s, i))
  }

  /** realloc in place: the live chunk swallows the free chunk behind it. */
  function Absorb(s: seq<Tile>, i: int): seq<Tile>
    requires 0 <= i && i + 1 < |s| && s[i].Live? && s[i + 1].Free?
  {
    Splice(s, i, [Live(s[i].addr, s[i].size + s[i + 1].size, s[i].lim)], i + 2)
  }

  ghost function LiveTiles(s: seq<Tile>): set<Tile> {
    set t | t in s && t.Live?
  }

  ghost function Headers(s: seq<Tile>): set<Tile> {
    set t | t in s && t.Sbrk?
  }

  // ----- malloc

  lemma CutFits(s: seq<Tile>, i: int, need: int)
    requires Tiled(s) && 0 <= i < |s| && s[i].Free? && ALLOC_EXTRA <= need <= s[i].size && need % 4 == 0
    ensures FitsIn(s, i, Cut(s[i], need), i + 1)
  {
    assert WellFormed(s[i]);
    assert i > 0 ==> Joined(s, i);
    assert i + 1 < |s| ==> Joined(s, i + 1);
    var mid := Cut(s[i], need);
    if |mid| == 2 {
      assert WellFormed(mid[0]) && WellFormed(mid[1]) && Joined(mid, 1);
    } else {
      assert WellFormed(mid[0]);
    }
  }

  lemma CarveKeeps(s: seq<Tile>, i: int, need: int)
    requires Tiled(s) && 0 <= i < |s| && s[i].Free? && ALLOC_EXTRA <= need <= s[i].size && need % 4 == 0
    ensures Tiled(Carve(s, i, need))
    ensures AtRest(s) ==> AtRest(Carve(s, i, need))
  {
    CutFits(s, i, need);
    SpliceTiled(s, i, Cut(s[i], need), i + 1);
    if AtRest(s) {
      assert i > 0 ==> Quiet(s, i);
      assert WellFormed(s[i]);
      SpliceAtRest(s, i, Cut(s[i], need), i + 1);
    }
  }

  /** malloc adds exactly one live chunk, and it keeps every region. */
  lemma CarveAddsOne(s: seq<Tile>, i: int, need: int)
    requires Tiled(s) && 0 <= i < |s| && s[i].Free? && ALLOC_EXTRA <= need <= s[i].size && need % 4 == 0
    ensures var c := Carved(s, i, need);
            LiveTiles(Carve(s, i, need)) == LiveTiles(s) + {c} && c !in s
    ensures Headers(Carve(s, i, need)) == Headers(s)
  {
    var c, r := Carved(s, i, need), Carve(s, i, need);
    var mid := Cut(s[i], need);
    SpliceMembers(s, i, mid, i + 1);
    if c in s {
      var k :| 0 <= k < |s| && s[k] == c;
      assert WellFormed(s[i]) && WellFormed(s[k]);
      LiveChunksAreDisjoint(s, k, i, c.addr);
    }
  }

  /** A fresh region goes between two regions, never inside one. */
  lemma SlotIsBetweenRegions(s: seq<Tile>, q: int, sz: int)
    requires Tiled(s) && FreshRegion(s, q, sz) && sz >= SBRK_EXTRA + ALLOC_EXTRA
    ensures forall k :: 0 <= k < Slot(s, q) ==> s[k].End() <= q && s[k].lim <= q
    ensures Slot(s, q) < |s| ==> s[Slot(s, q)].Sbrk? && q + sz <= s[Slot(s, q)].addr
    ensures Slot(s, q) > 0 ==> s[Slot(s, q) - 1].End() == s[Slot(s, q) - 1].lim
  {
    var i := Slot(s, q);
    forall k | 0 <= k < i ensures s[k].End() <= q && s[k].lim <= q {
      var h := HeaderOf(s, k);
      if h < k { Ordered(s, h, k); }
      assert WellFormed(s[k]) && WellFormed(s[h]);
    }
    if i < |s| {
      if i > 0 { assert Joined(s, i); }
      var h := HeaderOf(s, i);
      assert WellFormed(s[i]);
    }
  }

  lemma AddRegionKeeps(s: seq<Tile>, q: int, sz: int)
    requires Tiled(s) && FreshRegion(s, q, sz) && sz >= SBRK_EXTRA + ALLOC_EXTRA
    ensures Tiled(AddRegion(s, q, sz))
  {
    var i, mid := Slot(s, q), NewTiles(q, sz);
    SlotIsBetweenRegions(s, q, sz);
    assert WellFormed(mid[0]) && WellFormed(mid[1]) && Joined(mid, 1);
    assert i > 0 ==> Follows(s[i - 1], mid[0]);
    assert i < |s| ==> Follows(mid[1], s[i]);
    SpliceTiled(s, i, mid, i);
  }

  /** The header of the region that tile k belongs to. */
  lemma {:induction false} HeaderOf(s: seq<Tile>, k: int) returns (h: int)
    requires Tiled(s) && 0 <= k < |s|
    ensures 0 <= h <= k && s[h].Sbrk? && s[h].lim == s[k].lim
    ensures forall j :: h < j <= k ==> !s[j].Sbrk?
    decreases k
  {
    if s[k].Sbrk? {
      h := k;
    } else {
      assert Joined(s, k);
      h := HeaderOf(s, k - 1);
    }
  }

  /** When nothing fits, the chunk of a new region is the first one that does. */
  lemma NewRegionIsFirstFit(s: seq<Tile>, q: int, sz: int, need: int)
    requires FirstFit(s, need) == |s| && need <= sz - SBRK_EXTRA
    ensures FirstFit(AddRegion(s, q, sz), need) == Slot(s, q) + 1
  {
    var r, i := AddRegion(s, q, sz), Slot(s, q);
    assert r[i].Sbrk? && r[i + 1].Free? && r[i + 1].size >= need;
    assert forall k :: 0 <= k < i ==> r[k] == s[k];
  }

  /** malloc out of a new region leaves the heap at rest as well: the region is in use at once. */
  lemma CarveNewKeeps(s: seq<Tile>, q: int, sz: int, need: int)
    requires Tiled(s) && AtRest(s) && FreshRegion(s, q, sz)
    requires ALLOC_EXTRA <= need <= sz - SBRK_EXTRA && need % 4 == 0
    ensures var r := AddRegion(s, q, sz);
            var i := Slot(s, q) + 1;
            && i < |r| && r[i].Free? && need <= r[i].size
            && Tiled(Carve(r, i, need)) && AtRest(Carve(r, i, need))
  {
    var r, i := AddRegion(s, q, sz), Slot(s, q);
    AddRegionKeeps(s, q, sz);
    var f := Free(q + SBRK_EXTRA, sz - SBRK_EXTRA, q + sz);
    assert r[i + 1] == f;
    CarveKeeps(r, i + 1, need);
    SlotIsBetweenRegions(s, q, sz);
    RestOfNewRegion(s, i, Sbrk(q, q + sz), f, need);
    CarveNewIsSplice(s, i, Sbrk(q, q + sz), f, need);
  }

  lemma RestOfNewRegion(s: seq<Tile>, i: int, h: Tile, f: Tile, need: int)
    requires AtRest(s) && 0 <= i <= |s| && h.Sbrk? && f.Free? && ALLOC_EXTRA <= need <= f.size
    requires f.End() <= f.lim && (i < |s| ==> s[i].Sbrk?)
    ensures AtRest(Splice(s, i, [h] + Cut(f, need), i))
  {
    SpliceAtRest(s, i, [h] + Cut(f, need), i);
  }

  lemma CarveNewIsSplice(s: seq<Tile>, i: int, h: Tile, f: Tile, need: int)
    requires 0 <= i <= |s| && f.Free? && need <= f.size
    ensures Carve(Splice(s, i, [h, f], i), i + 1, need) == Splice(s, i, [h] + Cut(f, need), i)
  {
    var r := Splice(s, i, [h, f], i);
    assert r[..i + 1] == s[..i] + [h];
    assert r[i + 2..] == s[i..];
  }

  lemma AddRegionMembers(s: seq<Tile>, q: int, sz: int)
    requires Tiled(s) && FreshRegion(s, q, sz) && sz >= SBRK_EXTRA + ALLOC_EXTRA
    ensures LiveTiles(AddRegion(s, q, sz)) == LiveTiles(s)
    ensures Headers(AddRegion(s, q, sz)) == Headers(s) + {Sbrk(q, q + sz)}
  {
    SpliceMembers(s, Slot(s, q), NewTiles(q, sz), Slot(s, q));
  }

  // ----- free

  lemma StretchFits(s: seq<Tile>, i: int)
    requires Tiled(s) && 0 <= i < |s| && s[i].Live?
    ensures var lo, hi, f := Lo(s, i), Hi(s, i), Stretch(s, i);
            && 0 < lo < hi <= |s| && s[lo - 1].lim == f.lim && s[lo - 1].End() == f.addr && WellFormed(f)
            && (hi < |s| ==> (s[hi].Sbrk? <==> f.End() == f.lim) && Follows(f, s[hi]))
            && (hi == |s| ==> f.End() == f.lim)
    ensures AtRest(s) ==> !s[Lo(s, i) - 1].Free? && (Hi(s, i) < |s| ==> !s[Hi(s, i)].Free?)
  {
    StretchBegins(s, i);
    StretchEnds(s, i);
  }

  lemma StretchBegins(s: seq<Tile>, i: int)
    requires Tiled(s) && 0 <= i < |s| && s[i].Live?
    ensures var lo, f := Lo(s, i), Stretch(s, i);
            && 0 < lo <= i && s[lo - 1].lim == f.lim && s[lo - 1].End() == f.addr && 0 < f.addr && f.addr % 4 == 0
    ensures AtRest(s) ==> !s[Lo(s, i) - 1].Free?
  {
    assert Joined(s, i) && WellFormed(s[i]) && WellFormed(s[i - 1]);
    if Lo(s, i) < i { assert Joined(s, i - 1); assert AtRest(s) ==> Quiet(s, i - 1); }
  }

  lemma StretchEnds(s: seq<Tile>, i: int)
    requires Tiled(s) && 0 < i < |s| && s[i].Live?
    ensures var hi, f := Hi(s, i), Stretch(s, i);
            && i < hi <= |s| && f.lim == s[i].lim && f.lim <= ADDRESS_LIMIT && f.End() == s[hi - 1].End() <= f.lim
            && f.size % 4 == 0 && f.size >= ALLOC_EXTRA
            && (hi < |s| ==> (s[hi].Sbrk? <==> f.End() == f.lim) && Follows(f, s[hi]))
            && (hi == |s| ==> f.End() == f.lim)
    ensures AtRest(s) ==> Hi(s, i) < |s| ==> !s[Hi(s, i)].Free?
  {
    StretchSize(s, i);
    if Hi(s, i) < |s| { BoundaryAt(s, Hi(s, i)); }
  }

  lemma StretchSize(s: seq<Tile>, i: int)
    requires Tiled(s) && 0 < i < |s| && s[i].Live?
    ensures var hi, f := Hi(s, i), Stretch(s, i);
            && i < hi <= |s| && f.lim == s[i].lim == s[hi - 1].lim && f.End() == s[hi - 1].End()
            && WellFormed(s[hi - 1]) && !s[hi - 1].Sbrk? && (s[hi - 1].Free? || hi == i + 1)
            && f.size % 4 == 0 && f.size >= ALLOC_EXTRA
    ensures AtRest(s) ==> Hi(s, i) < |s| ==> !s[Hi(s, i)].Free?
  {
    assert WellFormed(s[i]) && WellFormed(s[i - 1]);
    if Hi(s, i) > i + 1 {
      assert Joined(s, i + 1) && WellFormed(s[i + 1]);
      assert AtRest(s) && i + 2 < |s| ==> Quiet(s, i + 2);
    }
  }

  /** A chunk is the last of its region exactly when a header, or nothing, comes next. */
  lemma BoundaryAt(s: seq<Tile>, k: int)
    requires Tiled(s) && 0 < k < |s|
    ensures s[k].Sbrk? <==> s[k - 1].End() == s[k - 1].lim
    ensures Follows(s[k - 1], s[k])
  {
    assert Joined(s, k) && WellFormed(s[k]) && WellFormed(s[k - 1]);
  }

  /** free leaves the heap tiled and at rest. */
  lemma ReleaseKeeps(s: seq<Tile>, i: int)
    requires Tiled(s) && 0 <= i < |s| && s[i].Live?
    ensures Tiled(Release(s, i))
    ensures AtRest(s) ==> AtRest(Release(s, i))
  {
    var lo, hi, f := Lo(s, i), Hi(s, i), Stretch(s, i);
    StretchFits(s, i);
    if Idle(s, i) {
      RemoveRegion(s, lo - 1, hi);
    } else {
      SpliceTiled(s, lo, [f], hi);
      if AtRest(s) { SpliceAtRest(s, lo, [f], hi); }
    }
  }

  /** free takes away exactly the chunk it was given, and no region but the one of that chunk. */
  lemma ReleaseRemovesOne(s: seq<Tile>, i: int)
    requires Tiled(s) && 0 <= i < |s| && s[i].Live?
    ensures LiveTiles(Release(s, i)) == LiveTiles(s) - {s[i]}
    ensures Idle(s, i) ==> Headers(Release(s, i)) == Headers(s) - {s[Lo(s, i) - 1]}
    ensures !Idle(s, i) ==> Headers(Release(s, i)) == Headers(s)
    ensures Idle(s, i) ==> s[Lo(s, i) - 1] in Headers(s) && s[Lo(s, i) - 1].lim == s[i].lim
  {
    StretchFits(s, i);
    if Idle(s, i) {
      MembersWhenIdle(s, i);
    } else {
      MembersWhenBusy(s, i);
    }
  }

  lemma MembersWhenIdle(s: seq<Tile>, i: int)
    requires Tiled(s) && 0 <= i < |s| && s[i].Live? && Idle(s, i)
    ensures forall t: Tile :: !t.Free? ==> (t in Release(s, i) <==> t in s && t != s[i] && t != s[Lo(s, i) - 1])
  {
    var lo, hi := Lo(s, i), Hi(s, i);
    SpliceMembers(s, lo - 1, [], hi);
    assert Splice(s, lo - 1, [], hi) == Release(s, i);
    StretchOnly(s, i, lo - 1, hi);
  }

  lemma MembersWhenBusy(s: seq<Tile>, i: int)
    requires Tiled(s) && 0 <= i < |s| && s[i].Live? && !Idle(s, i) && 0 < Lo(s, i)
    ensures forall t: Tile :: !t.Free? ==> (t in Release(s, i) <==> t in s && t != s[i])
  {
    StretchOnly(s, i, Lo(s, i), Hi(s, i));
    SpliceMembers(s, Lo(s, i), [Stretch(s, i)], Hi(s, i));
    StretchHoldsOne(s, i);
  }

  lemma StretchHoldsOne(s: seq<Tile>, i: int)
    requires 0 <= i < |s|
    ensures 0 <= Lo(s, i) <= Hi(s, i) <= |s|
    ensures forall t :: t in s[Lo(s, i)..Hi(s, i)] ==> t == s[i] || t.Free?
  {
  }

  /** Apart from its header, the stretch holds chunk i and free chunks, and what it holds is nowhere else. */
  lemma StretchOnly(s: seq<Tile>, i: int, a: int, b: int)
    requires Tiled(s) && 0 <= i < |s| && s[i].Live? && 0 < Lo(s, i)
    requires (a == Lo(s, i) || (a == Lo(s, i) - 1 && s[a].Sbrk?)) && b == Hi(s, i)
    ensures a <= b <= |s|
    ensures forall t :: t in s[a..b] ==> t == s[i] || t.Free? || t == s[Lo(s, i) - 1]
    ensures a == Lo(s, i) - 1 ==> s[a] !in s[..a] && s[a] !in s[b..]
    ensures s[i] !in s[..a] && s[i] !in s[b..]
  {
    AppearsOnce(s, i);
    AppearsOnce(s, a);
  }

  lemma AppearsOnce(s: seq<Tile>, i: int)
    requires Tiled(s) && 0 <= i < |s|
    ensures forall k :: 0 <= k < |s| && k != i ==> s[k] != s[i]
  {
    forall k | 0 <= k < |s| && k != i ensures s[k] != s[i] {
      assert WellFormed(s[k]) && WellFormed(s[i]);
      if k < i { Ordered(s, k, i); } else { Ordered(s, i, k); }
    }
  }

  // ----- realloc in place

  lemma AbsorbKeeps(s: seq<Tile>, i: int)
    requires Tiled(s) && 0 <= i && i + 1 < |s| && s[i].Live? && s[i + 1].Free?
    ensures Tiled(Absorb(s, i))
    ensures AtRest(s) ==> AtRest(Absorb(s, i))
    ensures LiveTiles(Absorb(s, i)) == LiveTiles(s) - {s[i]} + {Absorb(s, i)[i]}
    ensures Headers(Absorb(s, i)) == Headers(s)
  {
    var g := Live(s[i].addr, s[i].size + s[i + 1].size, s[i].lim);
    assert WellFormed(s[i]) && WellFormed(s[i + 1]) && Joined(s, i + 1);
    assert i > 0 ==> Joined(s, i);
    assert i + 2 < |s| ==> Joined(s, i + 2);
    SpliceTiled(s, i, [g], i + 2);
    if AtRest(s) {
      assert i > 0 ==> Quiet(s, i);
      assert i + 2 < |s| ==> Quiet(s, i + 2);
      SpliceAtRest(s, i, [g], i + 2);
    }
    SpliceMembers(s, i, [g], i + 2);
    AppearsOnce(s, i);
    AppearsOnce(s, i + 1);
  }
  lemma SpliceMembers(s: seq<Tile>, i: int, mid: seq<Tile>, j: int)
    requires 0 <= i <= j <= |s|
    ensures forall t :: t in Splice(s, i, mid, j) <==> t in s[..i] || t in mid || t in s[j..]
    ensures forall t :: t in s <==> t in s[..i] || t in s[i..j] || t in s[j..]
  {
    assert s == s[..i] + s[i..j] + s[j..];
  }
}
