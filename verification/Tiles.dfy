/** The heap seen as a row of tiles in ascending address order: one header per region obtained from the
    operating system, followed by the free and the live chunks that region was cut into. */
module Tiles {

  const ALLOC_EXTRA := 16       // sizeof(struct mem_chunk) on the 68000
  const SBRK_EXTRA := 20        // the same plus one long for the size of the region
  const ADDRESS_LIMIT := 0x1_0000_0000

  /** `lim` is the address at which the region of the tile ends. */
  datatype Tile =
    | Sbrk(addr: int, lim: int)
    | Free(addr: int, size: int, lim: int)
    | Live(addr: int, size: int, lim: int)
  {
    function Size(): int {
      if Sbrk? then SBRK_EXTRA else size
    }
    function End(): int {
      addr + Size()
    }
    /** The bytes of the region that chunks may use; kept by the region header as SBRK_SIZE. */
    function Room(): int {
      lim - addr - SBRK_EXTRA
    }
  }

  // ----- what a row of tiles has to look like

  predicate WellFormed(t: Tile) {
    && 0 < t.addr && t.addr % 4 == 0 && t.lim <= ADDRESS_LIMIT
    && t.Size() % 4 == 0 && t.Size() >= ALLOC_EXTRA
    && (if t.Sbrk? then t.End() < t.lim else t.End() <= t.lim)
  }

  /** b may come right after a: it starts where a ends, or a completes its region and b heads a later one. */
  predicate Follows(a: Tile, b: Tile) {
    if b.Sbrk? then a.End() == a.lim && a.lim <= b.addr
    else a.End() == b.addr && a.lim == b.lim
  }

  predicate Joined(s: seq<Tile>, i: int)
    requires 0 < i < |s|
  {
    Follows(s[i - 1], s[i])
  }

  /** No gap and no overlap: every region is covered exactly by its header and its chunks. */
  ghost predicate Tiled(s: seq<Tile>) {
    && (forall i {:trigger WellFormed(s[i])} :: 0 <= i < |s| ==> WellFormed(s[i]))
    && (forall i :: 0 < i < |s| ==> Joined(s, i))
    && (|s| > 0 ==> s[0].Sbrk? && s[|s| - 1].End() == s[|s| - 1].lim)
  }

  /** Two neighbours that free has to treat: free chunks to merge, or a region that is free as a whole. */
  predicate Settled(a: Tile, b: Tile) {
    && !(a.Free? && b.Free?)
    && !(a.Sbrk? && b.Free? && b.End() == b.lim)
  }

  predicate Quiet(s: seq<Tile>, i: int)
    requires 0 < i < |s|
  {
    Settled(s[i - 1], s[i])
  }

  /** Fully coalesced, and no region without a live chunk. */
  ghost predicate AtRest(s: seq<Tile>) {
    forall i :: 0 < i < |s| ==> Quiet(s, i)
  }

  // ----- consequences

  lemma {:induction false} Ordered(s: seq<Tile>, i: int, j: int)
    requires Tiled(s) && 0 <= i < j < |s|
    ensures s[i].End() <= s[j].addr
    decreases j
  {
    assert Joined(s, j);
    assert WellFormed(s[j - 1]);
    if i < j - 1 {
      Ordered(s, i, j - 1);
    }
  }

  function TotalSize(s: seq<Tile>): int {
    if s == [] then 0 else TotalSize(s[..|s| - 1]) + s[|s| - 1].Size()
  }

  /** s[h..e] is one whole region: a header and everything up to the next header. */
  ghost predicate IsRegion(s: seq<Tile>, h: int, e: int) {
    && 0 <= h < e <= |s| && s[h].Sbrk?
    && (forall k :: h < k < e ==> !s[k].Sbrk?)
    && (e == |s| || s[e].Sbrk?)
  }

  /** Chunks telescope: from the header on, the sizes add up to the distance of the addresses. */
  lemma {:induction false} Telescope(s: seq<Tile>, h: int, e: int)
    requires Tiled(s) && 0 <= h < e <= |s| && s[h].Sbrk?
    requires forall k :: h < k < e ==> !s[k].Sbrk?
    ensures TotalSize(s[h + 1..e]) == s[e - 1].End() - s[h].End()
    ensures s[e - 1].lim == s[h].lim
    decreases e
  {
    if e - 1 > h {
      Telescope(s, h, e - 1);
      assert Joined(s, e - 1);
      assert s[h + 1..e][..e - h - 2] == s[h + 1..e - 1];
    }
  }

  /** The chunks of a region add up to the SBRK_SIZE its header records. */
  lemma RegionIsCovered(s: seq<Tile>, h: int, e: int)
    requires Tiled(s) && IsRegion(s, h, e)
    ensures TotalSize(s[h + 1..e]) == s[h].Room()
    ensures s[e - 1].End() == s[h].lim
  {
    Telescope(s, h, e);
    if e < |s| {
      assert Joined(s, e);
    }
  }

  /** At rest, a region that is held is a region in use. */
  lemma RegionIsInUse(s: seq<Tile>, h: int, e: int)
    requires Tiled(s) && AtRest(s) && IsRegion(s, h, e)
    ensures exists k :: h < k < e && s[k].Live?
  {
    RegionIsCovered(s, h, e);
    assert WellFormed(s[h]);
    assert h + 1 < e;
    if !s[h + 1].Live? {
      assert Joined(s, h + 1) && Quiet(s, h + 1) && WellFormed(s[h + 1]);
      assert h + 2 < e;
      assert Quiet(s, h + 2);
      assert s[h + 2].Live?;
    }
  }

  /** As long as anything is held, something is live; so freeing the last block returns every region. */
  lemma HeldMeansInUse(s: seq<Tile>)
    requires Tiled(s) && AtRest(s) && s != []
    ensures exists i :: 0 <= i < |s| && s[i].Live?
  {
    assert WellFormed(s[0]);
    assert |s| > 1;
    if !s[1].Live? {
      assert Joined(s, 1) && Quiet(s, 1);
      assert |s| > 2;
      assert Joined(s, 2) && Quiet(s, 2);
      assert s[2].Live?;
    }
  }

  /** Live chunks never share a byte, whatever regions they are in. */
  lemma LiveChunksAreDisjoint(s: seq<Tile>, i: int, j: int, b: int)
    requires Tiled(s) && 0 <= i < |s| && 0 <= j < |s| && i != j
    requires s[i].addr <= b < s[i].End()
    ensures !(s[j].addr <= b < s[j].End())
  {
    if i < j { Ordered(s, i, j); } else { Ordered(s, j, i); }
  }

  // ----- rewriting a stretch of tiles

  ghost predicate FitsIn(s: seq<Tile>, i: int, mid: seq<Tile>, j: int)
    requires 0 <= i <= j <= |s| && mid != []
  {
    && (forall k :: 0 <= k < |mid| ==> WellFormed(mid[k]))
    && (forall k :: 0 < k < |mid| ==> Joined(mid, k))
    && (if i == 0 then mid[0].Sbrk? else Follows(s[i - 1], mid[0]))
    && (if j == |s| then mid[|mid| - 1].End() == mid[|mid| - 1].lim else Follows(mid[|mid| - 1], s[j]))
  }

  ghost predicate RestsIn(s: seq<Tile>, i: int, mid: seq<Tile>, j: int)
    requires 0 <= i <= j <= |s| && mid != []
  {
    && (forall k :: 0 < k < |mid| ==> Quiet(mid, k))
    && (i > 0 ==> Settled(s[i - 1], mid[0]))
    && (j < |s| ==> Settled(mid[|mid| - 1], s[j]))
  }

  function Splice(s: seq<Tile>, i: int, mid: seq<Tile>, j: int): seq<Tile>
    requires 0 <= i <= j <= |s|
  {
    s[..i] + mid + s[j..]
  }

  lemma SpliceElement(s: seq<Tile>, i: int, mid: seq<Tile>, j: int, k: int)
    requires Tiled(s) && 0 <= i <= j <= |s| && 0 <= k < |Splice(s, i, mid, j)|
    requires forall l :: 0 <= l < |mid| ==> WellFormed(mid[l])
    ensures WellFormed(Splice(s, i, mid, j)[k])
  {
    if k < i {
      assert WellFormed(s[k]);
    } else if k >= i + |mid| {
      assert WellFormed(s[k - i - |mid| + j]);
    }
  }

  lemma SpliceTiled(s: seq<Tile>, i: int, mid: seq<Tile>, j: int)
    requires Tiled(s) && 0 <= i <= j <= |s| && mid != [] && FitsIn(s, i, mid, j)
    ensures Tiled(Splice(s, i, mid, j))
  {
    var r := Splice(s, i, mid, j);
    forall k | 0 < k < |r| ensures Joined(r, k) {
      if k < i {
        assert Joined(s, k);
      } else if i < k < i + |mid| {
        assert Joined(mid, k - i);
      } else if k > i + |mid| {
        assert Joined(s, k - i - |mid| + j);
      }
    }
    forall k | 0 <= k < |r| ensures WellFormed(r[k]) { SpliceElement(s, i, mid, j, k); }
    if j < |s| { assert r[|r| - 1] == s[|s| - 1]; }
  }

  lemma SpliceAtRest(s: seq<Tile>, i: int, mid: seq<Tile>, j: int)
    requires AtRest(s) && 0 <= i <= j <= |s| && mid != [] && RestsIn(s, i, mid, j)
    ensures AtRest(Splice(s, i, mid, j))
  {
    var r := Splice(s, i, mid, j);
    forall k | 0 < k < |r| ensures Quiet(r, k) {
      if k < i {
        assert Quiet(s, k);
      } else if i < k < i + |mid| {
        assert Quiet(mid, k - i);
      } else if k > i + |mid| {
        assert Quiet(s, k - i - |mid| + j);
      }
    }
  }

  /** Whole regions can be taken out of the row. */
  lemma RemoveRegion(s: seq<Tile>, i: int, j: int)
    requires Tiled(s) && 0 <= i < j <= |s| && s[i].Sbrk? && (j < |s| ==> s[j].Sbrk?)
    ensures Tiled(s[..i] + s[j..])
    ensures AtRest(s) ==> AtRest(s[..i] + s[j..])
  {
    var r := s[..i] + s[j..];
    if i > 0 {
      assert Joined(s, i) && WellFormed(s[i - 1]);
      if j < |s| { Ordered(s, i, j); assert WellFormed(s[i]); }
    }
    forall k | 0 < k < |r| ensures Joined(r, k) {
      if k < i { assert Joined(s, k); } else if k > i { assert Joined(s, k - i + j); }
    }
    forall k | 0 <= k < |r| ensures WellFormed(r[k]) {
      if k < i { assert WellFormed(s[k]); } else { assert WellFormed(s[k - i + j]); }
    }
    if AtRest(s) {
      forall k | 0 < k < |r| ensures Quiet(r, k) {
        if k < i { assert Quiet(s, k); } else if k > i { assert Quiet(s, k - i + j); }
      }
    }
  }
}
