/** The allocator as a state machine: the moves it can make, and what holds over every run of them. */
module HeapRuns {
  import opened Tiles
  import opened Moves

  datatype Event =
    | Alloc(need: int)                       // first fit in what is held already
    | AllocNew(need: int, q: int, sz: int)   // a new region of sz bytes at q, and the block out of it
    | Refused                                // the operating system had nothing to give
    | Dealloc(addr: int)
    | Extend(addr: int)                      // realloc in place

  /** What malloc makes of a request: header included and rounded up to whole longs. */
  predicate Request(need: int) {
    need >= ALLOC_EXTRA && need % 4 == 0
  }

  ghost predicate IsLiveAt(s: seq<Tile>, i: int, addr: int) {
    0 <= i < |s| && s[i].Live? && s[i].addr == addr
  }

  ghost predicate HasLive(s: seq<Tile>, addr: int) {
    exists i :: IsLiveAt(s, i, addr)
  }

  ghost predicate Step(s: seq<Tile>, e: Event, s': seq<Tile>) {
    match e
    case Alloc(need) =>
      Request(need) && FirstFit(s, need) < |s| && s' == Carve(s, FirstFit(s, need), need)
    case AllocNew(need, q, sz) =>
      && Request(need) && FirstFit(s, need) == |s| && FreshRegion(s, q, sz) && need + SBRK_EXTRA <= sz
      && FirstFit(AddRegion(s, q, sz), need) < |AddRegion(s, q, sz)|
      && s' == Carve(AddRegion(s, q, sz), FirstFit(AddRegion(s, q, sz), need), need)
    case Refused => s' == s
    case Dealloc(addr) => exists i :: IsLiveAt(s, i, addr) && s' == Release(s, i)
    case Extend(addr) => exists i :: IsLiveAt(s, i, addr) && i + 1 < |s| && s[i + 1].Free? && s' == Absorb(s, i)
  }

  /** How the set of live chunks may change in one step. */
  ghost predicate LiveChange(e: Event, live: set<Tile>, live': set<Tile>) {
    match e
    case Alloc(need) => exists c: Tile :: c !in live && c.Live? && c.size >= need && live' == live + {c}
    case AllocNew(need, _, _) => exists c: Tile :: c !in live && c.Live? && c.size >= need && live' == live + {c}
    case Refused => live' == live
    case Dealloc(addr) => exists c: Tile :: c in live && c.addr == addr && live' == live - {c}
    case Extend(addr) =>
      exists c: Tile, c': Tile ::
        c in live && c.Live? && c'.Live? && c.addr == addr == c'.addr && c'.size >= c.size
                                          && c' !in live && live' == live - {c} + {c'}
  }

  lemma StepKeeps(s: seq<Tile>, e: Event, s': seq<Tile>)
    requires Tiled(s) && AtRest(s) && Step(s, e, s')
    ensures Tiled(s') && AtRest(s')
    ensures LiveChange(e, LiveTiles(s), LiveTiles(s'))
  {
    match e
    case Alloc(need) =>
      CarveKeeps(s, FirstFit(s, need), need);
      CarveAddsOne(s, FirstFit(s, need), need);
    case AllocNew(need, q, sz) =>
      AllocNewKeeps(s, need, q, sz);
    case Refused =>
    case Dealloc(addr) =>
      var i :| IsLiveAt(s, i, addr) && s' == Release(s, i);
      ReleaseKeeps(s, i);
      ReleaseRemovesOne(s, i);
    case Extend(addr) =>
      var i :| IsLiveAt(s, i, addr) && i + 1 < |s| && s[i + 1].Free? && s' == Absorb(s, i);
      ExtendKeeps(s, i);
  }

  lemma StepLeavesRest(s: seq<Tile>, e: Event, s': seq<Tile>)
    requires Tiled(s) && AtRest(s) && Step(s, e, s')
    ensures AtRest(s')
  {
    StepKeeps(s, e, s');
  }

  lemma AllocNewKeeps(s: seq<Tile>, need: int, q: int, sz: int)
    requires Tiled(s) && AtRest(s) && Request(need) && FirstFit(s, need) == |s|
    requires FreshRegion(s, q, sz) && need + SBRK_EXTRA <= sz
    ensures var r := AddRegion(s, q, sz);
            var i := FirstFit(r, need);
            && i < |r| && Tiled(Carve(r, i, need)) && AtRest(Carve(r, i, need))
            && LiveChange(AllocNew(need, q, sz), LiveTiles(s), LiveTiles(Carve(r, i, need)))
  {
    var r := AddRegion(s, q, sz);
    NewRegionIsFirstFit(s, q, sz, need);
    AddRegionKeeps(s, q, sz);
    AddRegionMembers(s, q, sz);
    CarveNewKeeps(s, q, sz, need);
    CarveAddsOne(r, Slot(s, q) + 1, need);
  }

  lemma AbsorbedIsNew(s: seq<Tile>, i: int)
    requires Tiled(s) && 0 <= i && i + 1 < |s| && s[i].Live? && s[i + 1].Free?
    ensures Absorb(s, i)[i] !in s
  {
    var g := Absorb(s, i)[i];
    assert WellFormed(s[i]) && WellFormed(s[i + 1]);
    if g in s {
      var k :| 0 <= k < |s| && s[k] == g;
      assert WellFormed(s[k]);
      LiveChunksAreDisjoint(s, i, k, s[i].addr);
    }
  }

  lemma ExtendKeeps(s: seq<Tile>, i: int)
    requires Tiled(s) && AtRest(s) && 0 <= i && i + 1 < |s| && s[i].Live? && s[i + 1].Free?
    ensures Tiled(Absorb(s, i)) && AtRest(Absorb(s, i))
    ensures LiveChange(Extend(s[i].addr), LiveTiles(s), LiveTiles(Absorb(s, i)))
  {
    AbsorbKeeps(s, i);
    AbsorbedIsNew(s, i);
    assert WellFormed(s[i + 1]);
    assert s[i] in LiveTiles(s) && Absorb(s, i)[i] !in LiveTiles(s);
  }

  /** A live chunk is known by its address. */
  lemma LiveByAddress(s: seq<Tile>, i: int)
    requires Tiled(s) && 0 <= i < |s| && s[i].Live?
    ensures forall t :: t in LiveTiles(s) && t.addr == s[i].addr ==> t == s[i]
    ensures (set t | t in LiveTiles(s) && t.addr != s[i].addr) == LiveTiles(s) - {s[i]}
  {
    forall t | t in LiveTiles(s) && t.addr == s[i].addr ensures t == s[i] {
      var k :| 0 <= k < |s| && s[k] == t;
      assert WellFormed(s[k]) && WellFormed(s[i]);
      if k < i { Ordered(s, k, i); } else if i < k { Ordered(s, i, k); }
    }
  }

  // ----- runs

  /** Several steps in a row. */
  ghost predicate Steps(s: seq<Tile>, events: seq<Event>, s': seq<Tile>)
    decreases |events|
  {
    if events == [] then s' == s
    else exists m :: Step(s, events[0], m) && Steps(m, events[1..], s')
  }

  lemma OneStep(s: seq<Tile>, e: Event, s': seq<Tile>)
    requires Step(s, e, s')
    ensures Steps(s, [e], s')
  {
    assert Steps(s', [], s') && [e][1..] == [];
  }

  lemma TwoSteps(s: seq<Tile>, e: Event, m: seq<Tile>, e': Event, s': seq<Tile>)
    requires Step(s, e, m) && Step(m, e', s')
    ensures Steps(s, [e, e'], s')
  {
    OneStep(m, e', s');
    assert [e, e'][1..] == [e'];
  }

  ghost predicate Run(states: seq<seq<Tile>>, events: seq<Event>) {
    && |states| == |events| + 1
    && states[0] == []
    && forall k :: 0 <= k < |events| ==> Step(states[k], events[k], states[k + 1])
  }

  /** Safety: after any sequence of calls the regions are tiled exactly, fully coalesced and all in use. */
  lemma {:induction false} RunSafety(states: seq<seq<Tile>>, events: seq<Event>, k: nat)
    requires Run(states, events) && k < |states|
    ensures Tiled(states[k]) && AtRest(states[k])
  {
    if k > 0 {
      RunSafety(states, events, k - 1);
      StepKeeps(states[k - 1], events[k - 1], states[k]);
    }
  }

  /** A block stays where it is, at its size, until it is freed or extended itself. */
  lemma {:induction false} BlockStays(states: seq<seq<Tile>>, events: seq<Event>, j: nat, k: nat, t: Tile)
    requires Run(states, events) && j <= k < |states| && t in LiveTiles(states[j])
    requires forall n :: j <= n < k ==> events[n] != Dealloc(t.addr) && events[n] != Extend(t.addr)
    ensures t in LiveTiles(states[k])
    decreases k
  {
    if j < k {
      BlockStays(states, events, j, k - 1, t);
      RunSafety(states, events, k - 1);
      StepKeeps(states[k - 1], events[k - 1], states[k]);
    }
  }

  function Balance(events: seq<Event>): int {
    if events == [] then 0
    else Balance(events[..|events| - 1]) +
         match events[|events| - 1] { case Alloc(_) => 1 case AllocNew(_, _, _) => 1 case Dealloc(_) => -1 case _ => 0 }
  }

  lemma {:induction false} LiveCount(states: seq<seq<Tile>>, events: seq<Event>)
    requires Run(states, events)
    ensures |LiveTiles(states[|events|])| == Balance(events)
    decreases |events|
  {
    if events != [] {
      var k := |events| - 1;
      LiveCount(states[..k + 1], events[..k]);
      RunSafety(states, events, k);
      StepKeeps(states[k], events[k], states[k + 1]);
      SizeChange(events[k], LiveTiles(states[k]), LiveTiles(states[k + 1]));
    }
  }

  lemma SizeChange(e: Event, live: set<Tile>, live': set<Tile>)
    requires LiveChange(e, live, live')
    ensures |live'| == |live| + match e {
                                  case Alloc(_) => 1
                                  case AllocNew(_, _, _) => 1
                                  case Dealloc(_) => -1
                                  case _ => 0
                                }
  {
  }

  /** The heap holds memory exactly as long as some block has not been given back:
      a run with as many frees as allocations has returned every region to the operating system. */
  lemma EmptyExactlyWhenBalanced(states: seq<seq<Tile>>, events: seq<Event>)
    requires Run(states, events)
    ensures states[|events|] == [] <==> Balance(events) == 0
  {
    var s := states[|events|];
    LiveCount(states, events);
    RunSafety(states, events, |events|);
    if s != [] {
      HeldMeansInUse(s);
      var i :| 0 <= i < |s| && s[i].Live?;
      assert s[i] in LiveTiles(s);
    } else {
      assert LiveTiles(s) == {};
    }
  }

  // ----- when a region goes back

  lemma {:induction false} LimitBelow(s: seq<Tile>, k: int, q: int)
    requires Tiled(s) && 0 <= k < q < |s| && s[q].Sbrk?
    ensures s[k].lim <= s[q].addr
    decreases q - k
  {
    assert Joined(s, k + 1);
    assert WellFormed(s[k + 1]) && WellFormed(s[q]);
    if k + 1 < q {
      LimitBelow(s, k + 1, q);
      Ordered(s, k + 1, q);
    }
  }

  /** The tile k lies in the region whose header has the same limit. */
  lemma HeaderIsUnique(s: seq<Tile>, h: int, k: int)
    requires Tiled(s) && 0 <= h < |s| && 0 <= k < |s| && s[h].Sbrk? && s[h].lim == s[k].lim
    ensures h <= k && forall j :: h < j <= k ==> !s[j].Sbrk?
  {
    var h' := HeaderOf(s, k);
    assert WellFormed(s[h]) && WellFormed(s[h']);
    if h < h' { LimitBelow(s, h, h'); } else if h' < h { LimitBelow(s, h', h); }
  }

  lemma {:induction false} RegionEnd(s: seq<Tile>, h: int, e: int) returns (e': int)
    requires Tiled(s) && 0 <= h < e <= |s| && s[h].Sbrk? && forall k :: h < k < e ==> !s[k].Sbrk?
    ensures IsRegion(s, h, e') && e <= e'
    decreases |s| - e
  {
    if e == |s| || s[e].Sbrk? { e' := e; } else { e' := RegionEnd(s, h, e + 1); }
  }

  /** free gives a region back exactly when it frees the last live chunk of that region. */
  lemma RegionGoesWithLastBlock(s: seq<Tile>, i: int, h: Tile)
    requires Tiled(s) && AtRest(s) && 0 <= i < |s| && s[i].Live? && h in Headers(s) && h.lim == s[i].lim
    ensures h in Headers(Release(s, i)) <==> exists k :: 0 <= k < |s| && k != i && s[k].Live? && s[k].lim == h.lim
  {
    ReleaseRemovesOne(s, i);
    var m :| 0 <= m < |s| && s[m] == h;
    HeaderIsUnique(s, m, i);
    if Idle(s, i) {
      IdleMeansAlone(s, i, m);
    } else {
      ReleaseKeeps(s, i);
      StillInUse(s, i, Release(s, i), h);
    }
  }

  lemma IdleMeansAlone(s: seq<Tile>, i: int, m: int)
    requires Tiled(s) && 0 <= i < |s| && s[i].Live? && Idle(s, i)
    requires 0 <= m < |s| && s[m].Sbrk? && s[m].lim == s[i].lim
    ensures m == Lo(s, i) - 1
    ensures forall k :: 0 <= k < |s| && k != i && s[k].Live? ==> s[k].lim != s[i].lim
  {
    StretchFits(s, i);
    HeaderIsUnique(s, m, i);
    HeaderIsUnique(s, Lo(s, i) - 1, i);
    forall k | 0 <= k < |s| && k != i && s[k].Live? ensures s[k].lim != s[i].lim {
      if s[k].lim == s[i].lim {
        HeaderIsUnique(s, m, k);
      }
    }
  }

  lemma StillInUse(s: seq<Tile>, i: int, r: seq<Tile>, h: Tile)
    requires 0 <= i < |s| && Tiled(r) && AtRest(r) && h in Headers(r) && LiveTiles(r) == LiveTiles(s) - {s[i]}
    ensures exists k :: 0 <= k < |s| && k != i && s[k].Live? && s[k].lim == h.lim
  {
    var p :| 0 <= p < |r| && r[p] == h;
    var e := RegionEnd(r, p, p + 1);
    RegionIsInUse(r, p, e);
    var k :| p < k < e && r[k].Live?;
    Telescope(r, p, k + 1);
    assert r[k] in LiveTiles(r);
  }
}
