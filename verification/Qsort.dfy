/** qsort: quicksort with an explicit stack down to small segments, then one insertion sort without a
    lower bounds check. Pointers into the array are element numbers here. */
module Qsort {
  import opened Machine
  import opened Memory
  import opened Elements
  import opened SortOrder

  const MAX_THRESH := 4
  const STACK_SIZE := 32    // 8 * sizeof(unsigned long)
  const SIZE_LIMIT := 0x1_0000_0000

  method Load(a: array<Byte>, w: nat, n: nat, k: nat) returns (e: Elem)
    requires a.Length == n * w && k < n
    ensures e == View(a[..], w, n)[k]
  {
    MulLe(k + 1, n, w);
    e := a[k * w..(k + 1) * w];
  }

  method Compare(a: array<Byte>, w: nat, n: nat, cmp: (Elem, Elem) -> int, x: nat, y: nat) returns (r: int)
    requires a.Length == n * w && x < n && y < n
    ensures r == cmp(View(a[..], w, n)[x], View(a[..], w, n)[y])
  {
    var ex := Load(a, w, n, x);
    var ey := Load(a, w, n, y);
    r := cmp(ex, ey);
  }

  // ----- one partition step

  /** Swaps the elements at x and y if the one at y comes before the one at x. */
  method PutInOrder(a: array<Byte>, w: nat, n: nat, cmp: (Elem, Elem) -> int, x: nat, y: nat,
                    ghost lo: nat, ghost hi: nat, ghost v0: seq<Elem>) returns (swapped: bool)
    requires a.Length == n * w && w > 0 && lo <= x < y <= hi < n && StrictWeakOrder(cmp)
    requires Rearranged(v0, View(a[..], w, n), lo, hi)
    modifies a
    ensures var v := old(View(a[..], w, n));
            && swapped == Less(cmp, v[y], v[x])
            && View(a[..], w, n) == if swapped then Swapped(v, y, x) else v
    ensures Rearranged(v0, View(a[..], w, n), lo, hi)
    ensures !Less(cmp, View(a[..], w, n)[y], View(a[..], w, n)[x])
  {
    ghost var v := View(a[..], w, n);
    var c := Compare(a, w, n, cmp, y, x);
    swapped := c < 0;
    assert Asymmetric(cmp, v[y], v[x]);
    if swapped {
      SwapWithin(a, w, n, y, x, lo, hi, v0);
    }
  }

  /** Puts the elements at lo, mid and hi in order. */
  method MedianOfThree(a: array<Byte>, w: nat, n: nat, cmp: (Elem, Elem) -> int, lo: nat, mid: nat, hi: nat)
    requires a.Length == n * w && w > 0 && lo < mid < hi < n && StrictWeakOrder(cmp)
    modifies a
    ensures Rearranged(old(View(a[..], w, n)), View(a[..], w, n), lo, hi)
    ensures var v := View(a[..], w, n); !Less(cmp, v[mid], v[lo]) && !Less(cmp, v[hi], v[mid])
  {
    ghost var v0 := View(a[..], w, n);
    RearrangedSame(v0, lo, hi);
    var swapped := PutInOrder(a, w, n, cmp, lo, mid, lo, hi, v0);
    ghost var v1 := View(a[..], w, n);
    swapped := PutInOrder(a, w, n, cmp, mid, hi, lo, hi, v0);
    if swapped {
      assert !Less(cmp, View(a[..], w, n)[hi], View(a[..], w, n)[lo]);
      swapped := PutInOrder(a, w, n, cmp, lo, mid, lo, hi, v0);
    }
  }

  /** SWAP within a stretch that already is a rearrangement of v0. */
  method SwapWithin(a: array<Byte>, w: nat, n: nat, i: nat, j: nat, ghost lo: nat, ghost hi: nat, ghost v0: seq<Elem>)
    requires a.Length == n * w && w > 0 && lo <= i <= hi < n && lo <= j <= hi && i != j
    requires Rearranged(v0, View(a[..], w, n), lo, hi)
    modifies a
    ensures View(a[..], w, n) == Swapped(old(View(a[..], w, n)), i, j)
    ensures Rearranged(v0, View(a[..], w, n), lo, hi)
  {
    ghost var v := View(a[..], w, n);
    SwapElements(a, w, n, i, j);
    SwapRearranges(v, i, j, lo, hi);
    RearrangedTwice(v0, v, View(a[..], w, n), lo, hi);
  }

  /** Everything in lo..left-1 is at most the pivot, everything in right+1..hi is at least the pivot. */
  ghost predicate Walls(cmp: (Elem, Elem) -> int, v: seq<Elem>, pivot: Elem, lo: nat, left: nat, right: int, hi: nat)
    requires hi < |v|
  {
    && (forall k {:trigger v[k]} :: lo <= k < left && k <= hi ==> !Less(cmp, pivot, v[k]))
    && (forall k {:trigger v[k]} :: right < k <= hi && 0 <= k ==> !Less(cmp, v[k], pivot))
  }

  /** Splits a segment around the median of three of its elements. */
  method Partition(a: array<Byte>, w: nat, n: nat, cmp: (Elem, Elem) -> int, lo: nat, hi: nat)
    returns (left: nat, right: nat)
    requires a.Length == n * w && w > 0 && lo + MAX_THRESH <= hi < n && StrictWeakOrder(cmp)
    modifies a
    ensures lo <= right < left <= hi && left <= right + 2
    ensures Rearranged(old(View(a[..], w, n)), View(a[..], w, n), lo, hi)
    ensures CutWithin(cmp, View(a[..], w, n), lo, right + 1, hi)
    ensures CutWithin(cmp, View(a[..], w, n), lo, left, hi)
  {
    ghost var v0 := View(a[..], w, n);
    var mid := lo + (hi - lo) / 2;
    MedianOfThree(a, w, n, cmp, lo, mid, hi);
    var pivot := Load(a, w, n, mid);
    left, right := lo + 1, hi - 1;
    assert Walls(cmp, View(a[..], w, n), pivot, lo, left, right, hi);
    while left <= right
      invariant lo < left <= hi && lo <= right < hi && left <= right + 1
      invariant Rearranged(v0, View(a[..], w, n), lo, hi)
      invariant Walls(cmp, View(a[..], w, n), pivot, lo, left, right, hi)
      decreases right + 2 - left
    {
      left := ScanUp(a, w, n, cmp, pivot, lo, left, right, hi);
      right := ScanDown(a, w, n, cmp, pivot, lo, left, right, hi);
      WallsStep(cmp, View(a[..], w, n), pivot, lo, left, right, hi);
      if left < right {
        SwapWithin(a, w, n, left, right, lo, hi, v0);
        left := left + 1;
        right := right - 1;
      } else if left == right {
        left := left + 1;
        right := right - 1;
        break;
      }
    }
    WallsCut(cmp, View(a[..], w, n), pivot, lo, left, right, hi);
  }

  method ScanUp(a: array<Byte>, w: nat, n: nat, cmp: (Elem, Elem) -> int, pivot: Elem, ghost lo: nat, left0: nat,
                ghost right: nat, ghost hi: nat) returns (left: nat)
    requires a.Length == n * w && lo < left0 <= right < hi < n && StrictWeakOrder(cmp)
    requires Walls(cmp, View(a[..], w, n), pivot, lo, left0, right, hi)
    ensures left0 <= left <= right + 1 && !Less(cmp, View(a[..], w, n)[left], pivot)
    ensures Walls(cmp, View(a[..], w, n), pivot, lo, left, right, hi)
  {
    ghost var v := View(a[..], w, n);
    left := left0;
    var e := Load(a, w, n, left);
    while cmp(e, pivot) < 0
      invariant left0 <= left <= right + 1 && e == v[left]
      invariant Walls(cmp, v, pivot, lo, left, right, hi)
      decreases hi - left
    {
      assert Less(cmp, v[left], pivot) && Asymmetric(cmp, v[left], pivot);
      left := left + 1;
      e := Load(a, w, n, left);
    }
  }

  method ScanDown(a: array<Byte>, w: nat, n: nat, cmp: (Elem, Elem) -> int, pivot: Elem, ghost lo: nat, ghost left: nat,
                  right0: nat, ghost hi: nat) returns (right: nat)
    requires a.Length == n * w && lo < left <= right0 + 1 && right0 < hi < n && StrictWeakOrder(cmp)
    requires Walls(cmp, View(a[..], w, n), pivot, lo, left, right0, hi)
    ensures left - 1 <= right <= right0 && !Less(cmp, pivot, View(a[..], w, n)[right])
    ensures Walls(cmp, View(a[..], w, n), pivot, lo, left, right, hi)
  {
    ghost var v := View(a[..], w, n);
    right := right0;
    var e := Load(a, w, n, right);
    while cmp(pivot, e) < 0
      invariant left - 1 <= right <= right0 && e == v[right]
      invariant Walls(cmp, v, pivot, lo, left, right, hi)
      decreases right
    {
      assert Less(cmp, pivot, v[right]) && Asymmetric(cmp, pivot, v[right]);
      right := right - 1;
      e := Load(a, w, n, right);
    }
  }

  /** Where both scans have stopped, the walls can be moved: past each other, or after a swap. */
  lemma WallsStep(cmp: (Elem, Elem) -> int, v: seq<Elem>, pivot: Elem, lo: nat, left: nat, right: nat, hi: nat)
    requires lo < left <= hi < |v| && lo <= right < hi && Walls(cmp, v, pivot, lo, left, right, hi)
    requires !Less(cmp, v[left], pivot) && !Less(cmp, pivot, v[right])
    ensures left == right ==> Walls(cmp, v, pivot, lo, left + 1, right - 1, hi)
    ensures left < right ==> Walls(cmp, Swapped(v, left, right), pivot, lo, left + 1, right - 1, hi)
  {
  }

  lemma WallsCut(cmp: (Elem, Elem) -> int, v: seq<Elem>, pivot: Elem, lo: nat, left: nat, right: nat, hi: nat)
    requires hi < |v| && lo <= right < left <= hi && StrictWeakOrder(cmp)
    requires Walls(cmp, v, pivot, lo, left, right, hi)
    ensures CutWithin(cmp, v, lo, right + 1, hi) && CutWithin(cmp, v, lo, left, hi)
  {
    forall i, j | lo <= i < left && right < j <= hi ensures !Less(cmp, v[j], v[i]) {
      assert !Less(cmp, v[j], pivot) && !Less(cmp, pivot, v[i]) && NegativelyTransitive(cmp, v[j], pivot, v[i]);
    }
  }

  // ----- the quicksort phase

  datatype Segment = Segment(lo: nat, hi: nat)

  lemma {:induction false} Pow2Grows(j: nat, k: nat)
    requires j <= k
    ensures Pow2(j) <= Pow2(k)
    decreases k
  {
    if j < k { Pow2Grows(j, k - 1); }
  }

  /** A segment that is still to be partitioned lies between two cuts and holds none. */
  ghost predicate Open(cuts: set<nat>, g: Segment, n: nat) {
    && g.lo + MAX_THRESH <= g.hi < n
    && g.lo in cuts && g.hi + 1 in cuts
    && forall c {:trigger c in cuts} :: c in cuts ==> c <= g.lo || g.hi < c
  }

  predicate Disjoint(g: Segment, h: Segment) {
    g.hi < h.lo || h.hi < g.lo
  }

  predicate Holds(g: Segment, i: nat) {
    g.lo <= i <= g.hi
  }

  /** A cut follows i within five places. */
  ghost predicate CutSoon(cuts: set<nat>, i: nat) {
    exists c :: c in cuts && i < c <= i + MAX_THRESH + 1
  }

  /** Where the quicksort phase stands: the cuts made so far, the segments pushed, and all of them
      with the current one last. Whatever is in no open segment is in a segment of at most five. */
  ghost predicate Progress(cmp: (Elem, Elem) -> int, v: seq<Elem>, cuts: set<nat>, open: seq<Segment>) {
    && (forall c {:trigger c in cuts} :: c in cuts ==> c <= |v| && Cut(cmp, v, c))
    && (forall k {:trigger Open(cuts, open[k], |v|)} :: 0 <= k < |open| ==> Open(cuts, open[k], |v|))
    && (forall j, k {:trigger Disjoint(open[j], open[k])} :: 0 <= j < k < |open| ==> Disjoint(open[j], open[k]))
    && (forall i {:trigger CutSoon(cuts, i)} :: 0 <= i < |v| && !CutSoon(cuts, i) ==> InOpen(open, i))
  }

  ghost predicate InOpen(open: seq<Segment>, i: nat) {
    exists k :: 0 <= k < |open| && Holds(open[k], i)
  }

  /** Segment k of the stack is at most n / 2^k large: the larger part is pushed, the smaller one continued. */
  ghost predicate Shrinking(open: seq<Segment>, n: nat) {
    forall k {:trigger open[k]} :: 0 <= k < |open| ==> (open[k].hi - open[k].lo + 1) * Pow2(k) <= n
  }

  /** Pending work; every partition step makes it less. */
  function Work(open: seq<Segment>): int {
    if open == [] then 0
    else Work(open[..|open| - 1]) + 2 * (open[|open| - 1].hi - open[|open| - 1].lo + 1) - 1
  }

  lemma {:induction false} WorkConcat(a: seq<Segment>, b: seq<Segment>)
    ensures Work(a + b) == Work(a) + Work(b)
    decreases |b|
  {
    if b == [] {
      assert a + b == a;
    } else {
      WorkConcat(a, b[..|b| - 1]);
      assert (a + b)[..|a + b| - 1] == a + b[..|b| - 1];
    }
  }

  /** One step: the last open segment is replaced by those of its parts that are still too large. */
  lemma ProgressStep(cmp: (Elem, Elem) -> int, v: seq<Elem>, v': seq<Elem>, cuts: set<nat>, rest: seq<Segment>,
                     g: Segment, right: nat, left: nat, parts: seq<Segment>)
    requires Progress(cmp, v, cuts, rest + [g])
    requires Rearranged(v, v', g.lo, g.hi) && g.lo <= right < left <= g.hi && left <= right + 2
    requires CutWithin(cmp, v', g.lo, right + 1, g.hi) && CutWithin(cmp, v', g.lo, left, g.hi)
    requires forall p :: p in parts ==> p == Segment(g.lo, right) || p == Segment(left, g.hi)
    requires forall j, k :: 0 <= j < k < |parts| ==> parts[j] != parts[k]
    requires right - g.lo <= MAX_THRESH <==> Segment(g.lo, right) !in parts
    requires g.hi - left <= MAX_THRESH <==> Segment(left, g.hi) !in parts
    ensures Progress(cmp, v', cuts + {right + 1, left}, rest + parts)
  {
    var open, cuts', open' := rest + [g], cuts + {right + 1, left}, rest + parts;
    assert open[|rest|] == g;
    assert Open(cuts, open[|rest|], |v|);
    StepCuts(cmp, v, v', cuts, g, right, left);
    forall k | 0 <= k < |open'| ensures Open(cuts', open'[k], |v'|) {
      if k < |rest| {
        assert open'[k] == open[k] && Open(cuts, open[k], |v|) && Disjoint(open[k], open[|rest|]);
      } else {
        assert open'[k] in parts;
      }
    }
    forall j, k | 0 <= j < k < |open'| ensures Disjoint(open'[j], open'[k]) {
      if k < |rest| {
        assert Disjoint(open[j], open[k]);
      } else if j < |rest| {
        assert Disjoint(open[j], open[|rest|]) && open'[k] in parts;
      } else {
        assert open'[j] == parts[j - |rest|] && open'[k] == parts[k - |rest|];
        assert open'[j] in parts && open'[k] in parts;
      }
    }
    forall i | 0 <= i < |v'| && !CutSoon(cuts', i) ensures InOpen(open', i) {
      CutStaysSoon(cuts, cuts', i);
      StillOpen(cuts, rest, g, right, left, parts, i);
    }
  }

  lemma CutStaysSoon(cuts: set<nat>, cuts': set<nat>, i: nat)
    requires cuts <= cuts'
    ensures CutSoon(cuts, i) ==> CutSoon(cuts', i)
  {
  }

  lemma StepCuts(cmp: (Elem, Elem) -> int, v: seq<Elem>, v': seq<Elem>, cuts: set<nat>, g: Segment,
                 right: nat, left: nat)
    requires (forall c {:trigger c in cuts} :: c in cuts ==> c <= |v| && Cut(cmp, v, c)) && Open(cuts, g, |v|)
    requires Rearranged(v, v', g.lo, g.hi) && g.lo <= right < left <= g.hi
    requires CutWithin(cmp, v', g.lo, right + 1, g.hi) && CutWithin(cmp, v', g.lo, left, g.hi)
    ensures forall c {:trigger c in cuts + {right + 1, left}} ::
              c in cuts + {right + 1, left} ==> c <= |v'| && Cut(cmp, v', c)
  {
    forall c | c in cuts ensures Cut(cmp, v', c) { CutSurvives(cmp, v, v', g.lo, g.hi, c); }
    CutExtends(cmp, v', g.lo, right + 1, g.hi);
    CutExtends(cmp, v', g.lo, left, g.hi);
  }

  lemma StillOpen(cuts: set<nat>, rest: seq<Segment>, g: Segment, right: nat, left: nat, parts: seq<Segment>, i: nat)
    requires InOpen(rest + [g], i) && g.hi + 1 in cuts && g.lo <= right < left <= g.hi && left <= right + 2
    requires !CutSoon(cuts + {right + 1, left}, i)
    requires right - g.lo <= MAX_THRESH <==> Segment(g.lo, right) !in parts
    requires g.hi - left <= MAX_THRESH <==> Segment(left, g.hi) !in parts
    ensures InOpen(rest + parts, i)
  {
    var open, open', cuts' := rest + [g], rest + parts, cuts + {right + 1, left};
    var k :| 0 <= k < |open| && Holds(open[k], i);
    assert right + 1 in cuts' && left in cuts' && g.hi + 1 in cuts';
    if k < |rest| {
      assert Holds(open'[k], i);
    } else {
      var p := if i <= right then Segment(g.lo, right) else Segment(left, g.hi);
      assert Holds(p, i);
      assert p in parts;
      var m :| 0 <= m < |parts| && parts[m] == p;
      assert open'[|rest| + m] == p;
    }
  }

  lemma FitsOn(size: nat, all: nat, d: nat, k: nat, n: nat)
    requires all * Pow2(d) <= n && ((k == d && size <= all) || (k == d + 1 && 2 * size <= all))
    ensures size * Pow2(k) <= n
  {
    if k == d {
      MulLe(size, all, Pow2(d));
    } else {
      MulLe(2 * size, all, Pow2(d));
      assert size * Pow2(d + 1) == 2 * size * Pow2(d);
    }
  }

  /** Continuing with one part, or pushing the larger part and continuing with the smaller, keeps the bound. */
  lemma ShrinkingStep(rest: seq<Segment>, g: Segment, parts: seq<Segment>, n: nat)
    requires Shrinking(rest + [g], n) && g.lo <= g.hi
    requires forall p :: p in parts ==> g.lo <= p.lo <= p.hi <= g.hi
    requires |parts| <= 1 || (|parts| == 2 && 2 * (parts[1].hi - parts[1].lo + 1) <= g.hi - g.lo + 1)
    ensures Shrinking(rest + parts, n)
  {
    var open, open' := rest + [g], rest + parts;
    var d := |rest|;
    assert open[d] == g;
    forall k | 0 <= k < |open'| ensures (open'[k].hi - open'[k].lo + 1) * Pow2(k) <= n {
      if k < d {
        assert open'[k] == open[k];
      } else {
        var p := parts[k - d];
        assert p in parts;
        var size, all := p.hi - p.lo + 1, g.hi - g.lo + 1;
        FitsOn(size, all, d, k, n);
      }
    }
  }

  /** With segments of at least five elements, an array that fits the address space leaves the stack half empty. */
  lemma StackSuffices(open: seq<Segment>, n: nat)
    requires Shrinking(open, n) && n < SIZE_LIMIT && open != []
    requires forall k {:trigger open[k]} :: 0 <= k < |open| ==> open[k].lo + MAX_THRESH <= open[k].hi
    ensures |open| <= 30
  {
    var k := |open| - 1;
    assert 5 * Pow2(k) <= n by {
      MulLe(5, open[k].hi - open[k].lo + 1, Pow2(k));
    }
    if k >= 30 {
      Pow2Grows(30, k);
      assert Pow2(30) == 0x4000_0000 by { Pow2At30(); }
    }
  }

  lemma Pow2At30()
    ensures Pow2(30) == 0x4000_0000
  {
    assert Pow2(10) == 1024;
    assert Pow2(20) == 1024 * Pow2(10);
    assert Pow2(30) == 1024 * Pow2(20);
  }

  lemma WorkShrinks(rest: seq<Segment>, g: Segment, parts: seq<Segment>, right: nat, left: nat)
    requires g.lo <= right < left <= g.hi
    requires parts == [] || parts == [Segment(g.lo, right)] || parts == [Segment(left, g.hi)]
          || parts == [Segment(g.lo, right), Segment(left, g.hi)]
          || parts == [Segment(left, g.hi), Segment(g.lo, right)]
    ensures Work(rest + parts) < Work(rest + [g])
  {
    WorkConcat(rest, parts);
    WorkConcat(rest, [g]);
    assert [g][..0] == [];
    if |parts| >= 1 { assert parts[..|parts| - 1][..0] == []; }
    if |parts| == 2 { assert parts[..1] == [parts[0]]; assert [parts[0]][..0] == []; }
  }

  lemma {:induction false} WorkIsPositive(open: seq<Segment>)
    requires forall k {:trigger open[k]} :: 0 <= k < |open| ==> open[k].lo <= open[k].hi
    ensures Work(open) >= 0
    decreases |open|
  {
    if open != [] { WorkIsPositive(open[..|open| - 1]); }
  }

  /** The parts that one step leaves on the stack, the one to continue with last. */
  predicate PartsOf(g: Segment, right: nat, left: nat, parts: seq<Segment>) {
    var l, r := Segment(g.lo, right), Segment(left, g.hi);
    if right - g.lo <= MAX_THRESH then
      if g.hi - left <= MAX_THRESH then parts == [] else parts == [r]
    else if g.hi - left <= MAX_THRESH then parts == [l]
    else if right - g.lo > g.hi - left then parts == [l, r]
    else parts == [r, l]
  }

  lemma StepDone(cmp: (Elem, Elem) -> int, v: seq<Elem>, v': seq<Elem>, cuts: set<nat>, rest: seq<Segment>,
                 g: Segment, right: nat, left: nat, parts: seq<Segment>)
    requires Progress(cmp, v, cuts, rest + [g]) && Shrinking(rest + [g], |v|) && |v| < SIZE_LIMIT
    requires Rearranged(v, v', g.lo, g.hi) && g.lo <= right < left <= g.hi && left <= right + 2
    requires CutWithin(cmp, v', g.lo, right + 1, g.hi) && CutWithin(cmp, v', g.lo, left, g.hi)
    requires PartsOf(g, right, left, parts)
    ensures Progress(cmp, v', cuts + {right + 1, left}, rest + parts)
    ensures Shrinking(rest + parts, |v|)
    ensures 0 <= Work(rest + parts) < Work(rest + [g])
    ensures |rest + parts| <= STACK_SIZE - 2
  {
    var open := rest + parts;
    ProgressStep(cmp, v, v', cuts, rest, g, right, left, parts);
    ShrinkingStep(rest, g, parts, |v|);
    WorkShrinks(rest, g, parts, right, left);
    forall k | 0 <= k < |open| ensures open[k].lo + MAX_THRESH <= open[k].hi {
      assert Open(cuts + {right + 1, left}, open[k], |v'|);
    }
    WorkIsPositive(open);
    if open != [] { StackSuffices(open, |v|); }
  }

  lemma FirstOpen(cmp: (Elem, Elem) -> int, v: seq<Elem>)
    requires MAX_THRESH < |v|
    ensures Progress(cmp, v, {0, |v|}, [Segment(0, |v| - 1)])
    ensures Shrinking([Segment(0, |v| - 1)], |v|)
  {
    var open := [Segment(0, |v| - 1)];
    forall i | 0 <= i < |v| ensures InOpen(open, i) { assert Holds(open[0], i); }
  }

  lemma AllClosed(cmp: (Elem, Elem) -> int, v: seq<Elem>, cuts: set<nat>)
    requires Progress(cmp, v, cuts, [])
    ensures OrderedSegments(cmp, v)
  {
    forall i | 0 <= i < |v| ensures SegmentEndsSoon(cmp, v, i) {
      assert CutSoon(cuts, i);
      var c :| c in cuts && i < c <= i + MAX_THRESH + 1;
    }
  }

  /** The stack, as the segments it holds above its unused first entry, with the current one on top. */
  ghost function OpenSegments(stack: seq<Segment>, top: nat, lo: nat, hi: nat): seq<Segment>
    requires top <= |stack|
  {
    if top == 0 then [] else stack[1..top] + [Segment(lo, hi)]
  }

  /** Which of the two parts is put off, and which one comes next. */
  method NextSegment(stack: array<Segment>, top0: nat, lo0: nat, hi0: nat, right: nat, left: nat)
    returns (top: nat, lo: nat, hi: nat, ghost parts: seq<Segment>)
    requires stack.Length == STACK_SIZE && 0 < top0 <= STACK_SIZE - 2 && lo0 <= right < left <= hi0
    modifies stack
    ensures top <= top0 + 1
    ensures OpenSegments(stack[..], top, lo, hi) == old(stack[1..top0]) + parts
    ensures PartsOf(Segment(lo0, hi0), right, left, parts)
  {
    top, lo, hi := top0, lo0, hi0;
    if right - lo <= MAX_THRESH {
      if hi - left <= MAX_THRESH {
        // POP
        top := top - 1;
        lo, hi := stack[top].lo, stack[top].hi;
        parts := [];
      } else {
        lo := left;
        parts := [Segment(left, hi)];
      }
    } else if hi - left <= MAX_THRESH {
      hi := right;
      parts := [Segment(lo, right)];
    } else if right - lo > hi - left {
      // PUSH(lo, right_ptr)
      stack[top] := Segment(lo, right);
      top := top + 1;
      lo := left;
      parts := [Segment(lo0, right), Segment(left, hi)];
    } else {
      // PUSH(left_ptr, hi)
      stack[top] := Segment(left, hi);
      top := top + 1;
      hi := right;
      parts := [Segment(left, hi0), Segment(lo, right)];
    }
  }

  /** One turn of the loop: splits the segment in hand, and goes on with a part of it or with a pending one. */
  method QuickStep(a: array<Byte>, n: nat, w: nat, cmp: (Elem, Elem) -> int, stack: array<Segment>, top0: nat, lo0: nat,
                   hi0: nat, ghost v0: seq<Elem>, ghost cuts0: set<nat>, ghost open0: seq<Segment>)
    returns (top: nat, lo: nat, hi: nat, ghost v: seq<Elem>, ghost cuts: set<nat>, ghost open: seq<Segment>)
    requires a.Length == n * w && w > 0 && MAX_THRESH < n < SIZE_LIMIT && StrictWeakOrder(cmp)
    requires stack.Length == STACK_SIZE && 0 < top0 <= STACK_SIZE - 2
    requires open0 == OpenSegments(stack[..], top0, lo0, hi0) && v0 == View(a[..], w, n)
    requires Progress(cmp, v0, cuts0, open0) && Shrinking(open0, n)
    modifies a, stack
    ensures top <= STACK_SIZE - 2 && open == OpenSegments(stack[..], top, lo, hi)
    ensures v == View(a[..], w, n) && multiset(v) == multiset(v0)
    ensures Progress(cmp, v, cuts, open) && Shrinking(open, n) && 0 <= Work(open) < Work(open0)
  {
    ghost var rest, g := stack[1..top0], Segment(lo0, hi0);
    assert open0 == rest + [g] && open0[|rest|] == g;
    assert Open(cuts0, open0[|rest|], n);
    var left, right := Partition(a, w, n, cmp, lo0, hi0);
    v := View(a[..], w, n);
    RearrangedPermutes(v0, v, lo0, hi0);
    ghost var parts;
    top, lo, hi, parts := NextSegment(stack, top0, lo0, hi0, right, left);
    StepDone(cmp, v0, v, cuts0, rest, g, right, left, parts);
    cuts := cuts0 + {right + 1, left};
    open := rest + parts;
    assert top > 0 ==> |open| == top;
  }

  method QuickPhase(a: array<Byte>, n: nat, w: nat, cmp: (Elem, Elem) -> int)
    requires a.Length == n * w && w > 0 && MAX_THRESH < n < SIZE_LIMIT && StrictWeakOrder(cmp)
    modifies a
    ensures multiset(View(a[..], w, n)) == multiset(old(View(a[..], w, n)))
    ensures OrderedSegments(cmp, View(a[..], w, n))
  {
    var lo: nat, hi: nat := 0, n - 1;
    var stack := new Segment[STACK_SIZE];
    var top: nat := 1;
    ghost var cuts: set<nat> := {0, n};
    ghost var v := View(a[..], w, n);
    FirstOpen(cmp, v);
    ghost var open := [Segment(0, n - 1)];
    while top > 0
      invariant top <= STACK_SIZE - 2 && open == OpenSegments(stack[..], top, lo, hi)
      invariant v == View(a[..], w, n) && multiset(v) == multiset(old(View(a[..], w, n)))
      invariant Progress(cmp, v, cuts, open) && Shrinking(open, n)
      decreases Work(open)
    {
      top, lo, hi, v, cuts, open := QuickStep(a, n, w, cmp, stack, top, lo, hi, v, cuts, open);
    }
    AllClosed(cmp, v, cuts);
  }

  // ----- the insertion phase

  /** Element 0 is the least: the sentinel of the unguarded scan below. */
  ghost predicate LeastFirst(cmp: (Elem, Elem) -> int, v: seq<Elem>) {
    |v| > 0 && forall k {:trigger v[k]} :: 0 <= k < |v| ==> !Less(cmp, v[k], v[0])
  }

  lemma FewAreOrdered(cmp: (Elem, Elem) -> int, v: seq<Elem>)
    requires |v| <= MAX_THRESH
    ensures OrderedSegments(cmp, v)
  {
    forall i | 0 <= i < |v| ensures SegmentEndsSoon(cmp, v, i) { assert Cut(cmp, v, |v|); }
  }

  /** A least one of the first five elements, which is a least one of all. */
  method FindLeast(a: array<Byte>, n: nat, w: nat, cmp: (Elem, Elem) -> int) returns (tmp: nat)
    requires a.Length == n * w && n > 0 && StrictWeakOrder(cmp) && OrderedSegments(cmp, View(a[..], w, n))
    ensures tmp < n && tmp <= MAX_THRESH
    ensures forall k :: 0 <= k < n ==> !Less(cmp, View(a[..], w, n)[k], View(a[..], w, n)[tmp])
  {
    ghost var v := View(a[..], w, n);
    var thresh := if n - 1 < MAX_THRESH then n - 1 else MAX_THRESH;
    tmp := 0;
    var run: nat := 1;
    assert Asymmetric(cmp, v[0], v[0]);
    while run <= thresh
      invariant 0 < run <= thresh + 1 && tmp < run && tmp <= thresh
      invariant forall k :: 0 <= k < run ==> !Less(cmp, v[k], v[tmp])
    {
      var c := Compare(a, w, n, cmp, run, tmp);
      if c < 0 {
        NewLeast(cmp, v, run, tmp);
        tmp := run;
      }
      run := run + 1;
    }
    MinimumInFront(cmp, v, tmp);
  }

  /** Brings it to the front of the array. */
  method PlaceSentinel(a: array<Byte>, n: nat, w: nat, cmp: (Elem, Elem) -> int)
    requires a.Length == n * w && w > 0 && n > 0 && StrictWeakOrder(cmp) && OrderedSegments(cmp, View(a[..], w, n))
    modifies a
    ensures multiset(View(a[..], w, n)) == multiset(old(View(a[..], w, n)))
    ensures LeastFirst(cmp, View(a[..], w, n))
  {
    ghost var v := View(a[..], w, n);
    var tmp := FindLeast(a, n, w, cmp);
    if tmp != 0 {
      SwapElements(a, w, n, tmp, 0);
      SwapRearranges(v, tmp, 0, 0, n - 1);
      RearrangedPermutes(v, View(a[..], w, n), 0, n - 1);
      LeastSwapped(cmp, v, tmp);
    }
  }

  lemma LeastSwapped(cmp: (Elem, Elem) -> int, v: seq<Elem>, tmp: nat)
    requires tmp < |v| && forall k :: 0 <= k < |v| ==> !Less(cmp, v[k], v[tmp])
    ensures LeastFirst(cmp, Swapped(v, tmp, 0))
  {
  }

  lemma NewLeast(cmp: (Elem, Elem) -> int, v: seq<Elem>, run: nat, tmp: nat)
    requires StrictWeakOrder(cmp) && tmp < run < |v| && Less(cmp, v[run], v[tmp])
    requires forall k :: 0 <= k < run ==> !Less(cmp, v[k], v[tmp])
    ensures forall k :: 0 <= k <= run ==> !Less(cmp, v[k], v[run])
  {
    assert Asymmetric(cmp, v[run], v[tmp]) && Asymmetric(cmp, v[run], v[run]);
    forall k | 0 <= k < run ensures !Less(cmp, v[k], v[run]) {
      assert NegativelyTransitive(cmp, v[k], v[tmp], v[run]);
    }
  }

  /** Where element r belongs among the sorted ones before it: the scan has no bound but the sentinel. */
  method InsertionPoint(a: array<Byte>, n: nat, w: nat, cmp: (Elem, Elem) -> int, r: nat) returns (t: nat)
    requires a.Length == n * w && 0 < r < n && LeastFirst(cmp, View(a[..], w, n))
    ensures 0 < t <= r
    ensures var v := View(a[..], w, n);
            !Less(cmp, v[r], v[t - 1]) && forall k :: t <= k < r ==> Less(cmp, v[r], v[k])
  {
    ghost var v := View(a[..], w, n);
    var tmp: nat := r - 1;
    var c := Compare(a, w, n, cmp, r, tmp);
    while c < 0
      invariant tmp < r && c == cmp(v[r], v[tmp])
      invariant forall k :: tmp < k < r ==> Less(cmp, v[r], v[k])
      decreases tmp
    {
      assert Less(cmp, v[r], v[tmp]);
      tmp := tmp - 1;
      c := Compare(a, w, n, cmp, r, tmp);
    }
    t := tmp + 1;
  }

  method InsertionPhase(a: array<Byte>, n: nat, w: nat, cmp: (Elem, Elem) -> int)
    requires a.Length == n * w && w > 0 && n > 0 && StrictWeakOrder(cmp) && LeastFirst(cmp, View(a[..], w, n))
    modifies a
    ensures multiset(View(a[..], w, n)) == multiset(old(View(a[..], w, n)))
    ensures Sorted(cmp, View(a[..], w, n))
  {
    var end := n - 1;
    var run: nat := 1;
    ghost var v := View(a[..], w, n);
    while run + 1 <= end
      invariant 1 <= run <= n && (run == n ==> n == 1)
      invariant v == View(a[..], w, n) && multiset(v) == multiset(old(View(a[..], w, n)))
      invariant LeastFirst(cmp, v)
      invariant run < n ==> Sorted(cmp, v[..run + 1])
      decreases end - run
    {
      run := run + 1;
      InsertOne(a, n, w, cmp, run);
      v := View(a[..], w, n);
    }
    assert run < n ==> v[..run + 1] == v;
  }

  method InsertOne(a: array<Byte>, n: nat, w: nat, cmp: (Elem, Elem) -> int, run: nat)
    requires a.Length == n * w && 0 < run < n && StrictWeakOrder(cmp) && LeastFirst(cmp, View(a[..], w, n))
    requires Sorted(cmp, View(a[..], w, n)[..run])
    modifies a
    ensures multiset(View(a[..], w, n)) == multiset(old(View(a[..], w, n)))
    ensures LeastFirst(cmp, View(a[..], w, n)) && Sorted(cmp, View(a[..], w, n)[..run + 1])
  {
    ghost var v := View(a[..], w, n);
    var t := InsertionPoint(a, n, w, cmp, run);
    Inserted(cmp, v, t, run);
    if t != run {
      RotateElements(a, w, n, t, run);
    }
  }

  lemma Inserted(cmp: (Elem, Elem) -> int, v: seq<Elem>, t: nat, r: nat)
    requires StrictWeakOrder(cmp) && LeastFirst(cmp, v) && 0 < t <= r < |v| && Sorted(cmp, v[..r])
    requires !Less(cmp, v[r], v[t - 1]) && forall k :: t <= k < r ==> Less(cmp, v[r], v[k])
    ensures var u := Rotated(v, t, r);
            multiset(u) == multiset(v) && LeastFirst(cmp, u) && Sorted(cmp, u[..r + 1]) && (t == r ==> u == v)
  {
    InsertionSorts(cmp, v, t, r);
    LeastStays(cmp, v, t, r);
    assert t == r ==> Rotated(v, t, r) == v;
  }

  lemma LeastStays(cmp: (Elem, Elem) -> int, v: seq<Elem>, t: nat, r: nat)
    requires LeastFirst(cmp, v) && 0 < t <= r < |v|
    ensures LeastFirst(cmp, Rotated(v, t, r))
  {
    RotatedAt(v, t, r, 0);
    forall k | 0 <= k < |v| ensures !Less(cmp, Rotated(v, t, r)[k], v[0]) { RotatedAt(v, t, r, k); }
  }

  /** For every strict weak order, every length and every width: a sorted permutation. */
  method QSort(a: array<Byte>, nel: nat, width: nat, cmp: (Elem, Elem) -> int)
    requires a.Length == nel * width && width > 0 && nel < SIZE_LIMIT && StrictWeakOrder(cmp)
    modifies a
    ensures multiset(View(a[..], width, nel)) == multiset(old(View(a[..], width, nel)))
    ensures Sorted(cmp, View(a[..], width, nel))
    ensures var v := View(a[..], width, nel); forall i, j :: 0 <= i < j < nel ==> cmp(v[j], v[i]) >= 0
  {
    if nel == 0 {
      return;
    }
    if nel > MAX_THRESH {
      QuickPhase(a, nel, width, cmp);
    } else {
      FewAreOrdered(cmp, View(a[..], width, nel));
    }
    PlaceSentinel(a, nel, width, cmp);
    InsertionPhase(a, nel, width, cmp);
  }
}
