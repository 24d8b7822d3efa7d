/** What qsort may rely on, what it promises, and what its partitions achieve on the way. */
module SortOrder {
  import opened Elements

  /** qsort only ever asks whether the comparison is negative. */
  predicate Less<T>(cmp: (T, T) -> int, x: T, y: T) {
    cmp(x, y) < 0
  }

  predicate Asymmetric<T>(cmp: (T, T) -> int, x: T, y: T) {
    !(Less(cmp, x, y) && Less(cmp, y, x))
  }

  predicate NegativelyTransitive<T>(cmp: (T, T) -> int, x: T, y: T, z: T) {
    !Less(cmp, x, y) && !Less(cmp, y, z) ==> !Less(cmp, x, z)
  }

  ghost predicate StrictWeakOrder<T(!new)>(cmp: (T, T) -> int) {
    && (forall x, y :: Asymmetric(cmp, x, y))
    && (forall x, y, z :: NegativelyTransitive(cmp, x, y, z))
  }

  ghost predicate Sorted<T>(cmp: (T, T) -> int, v: seq<T>) {
    forall i, j :: 0 <= i < j < |v| ==> !Less(cmp, v[j], v[i])
  }

  /** Nothing behind place c belongs before it. */
  ghost predicate Cut<T>(cmp: (T, T) -> int, v: seq<T>, c: nat) {
    forall i, j {:trigger Less(cmp, v[j], v[i])} :: 0 <= i < c <= j < |v| ==> !Less(cmp, v[j], v[i])
  }

  /** v' arises from v by rearranging places lo to hi. */
  ghost predicate Rearranged<T>(v: seq<T>, v': seq<T>, lo: nat, hi: nat) {
    && |v'| == |v| && lo <= hi < |v|
    && v'[..lo] == v[..lo] && v'[hi + 1..] == v[hi + 1..]
    && multiset(v'[lo..hi + 1]) == multiset(v[lo..hi + 1])
  }

  lemma RearrangedTwice<T>(u: seq<T>, v: seq<T>, w: seq<T>, lo: nat, hi: nat)
    requires Rearranged(u, v, lo, hi) && Rearranged(v, w, lo, hi)
    ensures Rearranged(u, w, lo, hi)
  {
  }

  lemma RearrangedSame<T>(v: seq<T>, lo: nat, hi: nat)
    requires lo <= hi < |v|
    ensures Rearranged(v, v, lo, hi)
  {
  }

  lemma SwapRearranges<T>(v: seq<T>, i: nat, j: nat, lo: nat, hi: nat)
    requires lo <= i <= hi < |v| && lo <= j <= hi && i != j
    ensures Rearranged(v, Swapped(v, i, j), lo, hi)
  {
    var r := Swapped(v, i, j);
    var s, t := v[lo..hi + 1], r[lo..hi + 1];
    assert t == s[i - lo := s[j - lo]][j - lo := s[i - lo]];
    assert r[..lo] == v[..lo] && r[hi + 1..] == v[hi + 1..];
  }

  lemma RearrangedElement<T>(v: seq<T>, v': seq<T>, lo: nat, hi: nat, k: nat) returns (l: nat)
    requires Rearranged(v, v', lo, hi) && k < |v|
    ensures l < |v| && v'[k] == v[l]
    ensures if lo <= k <= hi then lo <= l <= hi else l == k
  {
    if k < lo {
      assert v'[..lo][k] == v[..lo][k];
      l := k;
    } else if k > hi {
      assert v'[hi + 1..][k - hi - 1] == v[hi + 1..][k - hi - 1];
      l := k;
    } else {
      var s, t := v[lo..hi + 1], v'[lo..hi + 1];
      assert t[k - lo] in multiset(t);
      assert t[k - lo] in s;
      var m :| 0 <= m < |s| && s[m] == t[k - lo];
      l := lo + m;
    }
  }

  lemma RearrangedPermutes<T>(v: seq<T>, v': seq<T>, lo: nat, hi: nat)
    requires Rearranged(v, v', lo, hi)
    ensures multiset(v') == multiset(v)
  {
    assert v == v[..lo] + v[lo..hi + 1] + v[hi + 1..];
    assert v' == v'[..lo] + v'[lo..hi + 1] + v'[hi + 1..];
  }

  /** A cut outside of a stretch survives any rearrangement of the stretch. */
  lemma CutSurvives<T>(cmp: (T, T) -> int, v: seq<T>, v': seq<T>, lo: nat, hi: nat, c: nat)
    requires Rearranged(v, v', lo, hi) && Cut(cmp, v, c) && (c <= lo || hi < c)
    ensures Cut(cmp, v', c)
  {
    forall i, j | 0 <= i < c <= j < |v'| ensures !Less(cmp, v'[j], v'[i]) {
      var i' := RearrangedElement(v, v', lo, hi, i);
      var j' := RearrangedElement(v, v', lo, hi, j);
      assert !Less(cmp, v[j'], v[i']);
    }
  }

  /** Nothing in lo..c-1 comes after anything in c..hi. */
  ghost predicate CutWithin<T>(cmp: (T, T) -> int, v: seq<T>, lo: nat, c: nat, hi: nat)
    requires hi < |v|
  {
    forall i, j {:trigger Less(cmp, v[j], v[i])} :: lo <= i < c <= j <= hi ==> !Less(cmp, v[j], v[i])
  }

  /** A cut of a stretch between two cuts is a cut of the whole. */
  lemma CutExtends<T>(cmp: (T, T) -> int, v: seq<T>, lo: nat, c: nat, hi: nat)
    requires hi < |v| && lo <= c <= hi + 1 && CutWithin(cmp, v, lo, c, hi) && Cut(cmp, v, lo) && Cut(cmp, v, hi + 1)
    ensures Cut(cmp, v, c)
  {
    forall i, j | 0 <= i < c <= j < |v| ensures !Less(cmp, v[j], v[i]) {
      if i < lo {
        assert i < lo <= j;
      } else if j > hi {
        assert i < hi + 1 <= j;
      }
    }
  }

  /** What the quicksort phase is for: segments of at most five elements, in order among each other. */
  ghost predicate OrderedSegments<T>(cmp: (T, T) -> int, v: seq<T>) {
    forall i :: 0 <= i < |v| ==> SegmentEndsSoon(cmp, v, i)
  }

  ghost predicate SegmentEndsSoon<T>(cmp: (T, T) -> int, v: seq<T>, i: nat) {
    exists c :: i < c <= i + 5 && c <= |v| && Cut(cmp, v, c)
  }

  /** Then the least of the first five elements is the least of all. */
  lemma MinimumInFront<T(!new)>(cmp: (T, T) -> int, v: seq<T>, m: nat)
    requires StrictWeakOrder(cmp) && OrderedSegments(cmp, v) && m < |v| && m < 5
    requires forall k :: 0 <= k < |v| && k < 5 ==> !Less(cmp, v[k], v[m])
    ensures forall k :: 0 <= k < |v| ==> !Less(cmp, v[k], v[m])
  {
    assert SegmentEndsSoon(cmp, v, 0);
    var c :| 0 < c <= 5 && c <= |v| && Cut(cmp, v, c);
    forall k | 5 <= k < |v| ensures !Less(cmp, v[k], v[m]) {
      assert !Less(cmp, v[k], v[0]) && !Less(cmp, v[0], v[m]) && NegativelyTransitive(cmp, v[k], v[0], v[m]);
    }
  }

  /** Inserting element r in front of place t, where it belongs, makes one more element sorted. */
  lemma InsertionSorts<T(!new)>(cmp: (T, T) -> int, v: seq<T>, t: nat, r: nat)
    requires StrictWeakOrder(cmp) && 0 < t <= r < |v| && Sorted(cmp, v[..r])
    requires !Less(cmp, v[r], v[t - 1])
    requires forall k :: t <= k < r ==> Less(cmp, v[r], v[k])
    ensures Sorted(cmp, Rotated(v, t, r)[..r + 1])
    ensures multiset(Rotated(v, t, r)) == multiset(v)
  {
    var u := Rotated(v, t, r);
    forall i, j | 0 <= i < j < r + 1 ensures !Less(cmp, u[j], u[i]) {
      RotatedAt(v, t, r, i);
      RotatedAt(v, t, r, j);
      var i' := if i == t then r else if i < t then i else i - 1;
      var j' := if j == t then r else if j < t then j else j - 1;
      if i != t && j != t {
        assert !Less(cmp, v[..r][j'], v[..r][i']);
      } else if i == t {
        assert Less(cmp, v[r], v[j']) && Asymmetric(cmp, v[r], v[j']);
      } else {
        assert i < t - 1 ==> !Less(cmp, v[..r][t - 1], v[..r][i]);
        assert NegativelyTransitive(cmp, v[r], v[t - 1], v[i]);
      }
    }
    assert v == v[..t] + v[t..r] + [v[r]] + v[r + 1..];
  }
}
