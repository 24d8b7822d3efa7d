/** The list of screen resolutions of chgres.c and its sort: a table of pointers, sorted by qsort and relinked. */
module ResTable {
  import opened Memory
  import opened Elements
  import opened SortOrder
  import Qsort

  const NULL := 0
  const POINTER_SIZE := 4

  /** struct res, as far as the order of the list depends on it. */
  datatype Res = Res(next: int, virtHres: int, virtVres: int, hres: int, vres: int, flags: int, freq: int)
  {
    /** flags & FLAG_INFO */
    predicate Info() {
      flags % 2 == 1
    }
  }

  function CmpRes(r1: Res, r2: Res): int {
    if r1.virtHres > r2.virtHres
       || (r1.virtHres >= r2.virtHres
           && (r1.virtVres > r2.virtVres
               || (r1.virtVres >= r2.virtVres
                   && (r1.hres > r2.hres
                       || (r1.hres >= r2.hres
                           && (r1.vres > r2.vres
                               || (r1.vres >= r2.vres && r1.Info() && (!r2.Info() || r1.freq > r2.freq))))))))
    then -1 else 1
  }

  // ----- cmp_res as an order

  /** What entries are sorted by, each component descending. */
  function Key(r: Res): seq<int> {
    [r.virtHres, r.virtVres, r.hres, r.vres, if r.Info() then 1 else 0, if r.Info() then r.freq else 0]
  }

  predicate Descends(k: seq<int>, l: seq<int>)
    requires |k| == |l|
  {
    k != [] && (k[0] > l[0] || (k[0] == l[0] && Descends(k[1..], l[1..])))
  }

  lemma CmpResIsKeyOrder(r1: Res, r2: Res)
    ensures CmpRes(r1, r2) < 0 <==> Descends(Key(r1), Key(r2))
    ensures CmpRes(r1, r2) != 0
  {
    var k, l := Key(r1), Key(r2);
    assert k[0..] == k && l[0..] == l && k[6..] == [] && l[6..] == [];
    DescendsFrom(k, l, 0);
    DescendsFrom(k, l, 1);
    DescendsFrom(k, l, 2);
    DescendsFrom(k, l, 3);
    DescendsFrom(k, l, 4);
    DescendsFrom(k, l, 5);
  }

  /** In full: larger sizes come first, the virtual width before the virtual height and the real ones; of equal sizes,
      those with information before those without, and those with information by higher frequency. */
  lemma CmpResInFull(a: Res, b: Res)
    ensures var a1, b1 := a.flags % 2 == 1, b.flags % 2 == 1;
            CmpRes(a, b) == -1 <==>
            if a.virtHres != b.virtHres then a.virtHres > b.virtHres
            else if a.virtVres != b.virtVres then a.virtVres > b.virtVres
            else if a.hres != b.hres then a.hres > b.hres
            else if a.vres != b.vres then a.vres > b.vres
            else a1 && (!b1 || a.freq > b.freq)
    ensures CmpRes(a, b) == -1 || CmpRes(a, b) == 1
  {
  }

  lemma DescendsFrom(k: seq<int>, l: seq<int>, i: nat)
    requires i < |k| == |l|
    ensures Descends(k[i..], l[i..]) <==> k[i] > l[i] || (k[i] == l[i] && Descends(k[i + 1..], l[i + 1..]))
  {
    assert k[i..][1..] == k[i + 1..] && l[i..][1..] == l[i + 1..];
  }

  lemma {:induction false} DescendsAsymmetric(k: seq<int>, l: seq<int>)
    requires |k| == |l|
    ensures !(Descends(k, l) && Descends(l, k))
  {
    if k != [] { DescendsAsymmetric(k[1..], l[1..]); }
  }

  lemma {:induction false} DescendsNegativelyTransitive(k: seq<int>, l: seq<int>, m: seq<int>)
    requires |k| == |l| == |m| && !Descends(k, l) && !Descends(l, m)
    ensures !Descends(k, m)
  {
    if k != [] && k[0] == l[0] == m[0] { DescendsNegativelyTransitive(k[1..], l[1..], m[1..]); }
  }

  // ----- pointers in the table

  function Enc(p: int): Elem {
    [Digit(p, 0), Digit(p, 1), Digit(p, 2), Digit(p, 3)]
  }

  function Ptr(e: Elem): int {
    if |e| == POINTER_SIZE then Compose(0, e) else NULL
  }

  lemma PtrOfEnc(p: int)
    requires 0 <= p < 0x1_0000_0000
    ensures Ptr(Enc(p)) == p
  {
    var top, b := Decompose(p);
    assert Enc(p) == b;
  }

  function NodeAt(nodes: map<int, Res>, p: int): Res {
    if p in nodes then nodes[p] else Res(NULL, 0, 0, 0, 0, 0, 0)
  }

  /** cmp_res as qsort calls it: on the addresses of two table entries. */
  function Comparator(nodes: map<int, Res>): (Elem, Elem) -> int {
    (x, y) => CmpRes(NodeAt(nodes, Ptr(x)), NodeAt(nodes, Ptr(y)))
  }

  /** Though it never answers 0, cmp_res gives qsort the strict weak order it needs. */
  lemma ComparatorIsOrder(nodes: map<int, Res>)
    ensures StrictWeakOrder(Comparator(nodes))
  {
    var cmp := Comparator(nodes);
    forall x, y ensures Asymmetric(cmp, x, y) {
      var r, s := NodeAt(nodes, Ptr(x)), NodeAt(nodes, Ptr(y));
      CmpResIsKeyOrder(r, s);
      CmpResIsKeyOrder(s, r);
      DescendsAsymmetric(Key(r), Key(s));
    }
    forall x, y, z ensures NegativelyTransitive(cmp, x, y, z) {
      var r, s, t := NodeAt(nodes, Ptr(x)), NodeAt(nodes, Ptr(y)), NodeAt(nodes, Ptr(z));
      CmpResIsKeyOrder(r, s);
      CmpResIsKeyOrder(s, t);
      CmpResIsKeyOrder(r, t);
      if !Less(cmp, x, y) && !Less(cmp, y, z) { DescendsNegativelyTransitive(Key(r), Key(s), Key(t)); }
    }
  }

  // ----- the list

  /** From p on, the list runs through the given nodes and ends. */
  ghost predicate Chain(nodes: map<int, Res>, p: int, addrs: seq<int>)
    decreases addrs
  {
    if addrs == [] then p == NULL
    else p == addrs[0] && p in nodes && 0 < p < 0x1_0000_0000 && Chain(nodes, nodes[p].next, addrs[1..])
  }

  ghost predicate Distinct(addrs: seq<int>) {
    forall i, j :: 0 <= i < j < |addrs| ==> addrs[i] != addrs[j]
  }

  lemma {:induction false} ChainMembers(nodes: map<int, Res>, p: int, addrs: seq<int>, i: nat)
    requires Chain(nodes, p, addrs) && i < |addrs|
    ensures addrs[i] in nodes && 0 < addrs[i] < 0x1_0000_0000
    ensures Chain(nodes, addrs[i], addrs[i..])
    decreases addrs
  {
    if i > 0 {
      ChainMembers(nodes, nodes[p].next, addrs[1..], i - 1);
      assert addrs[1..][i - 1..] == addrs[i..];
    } else {
      assert addrs[0..] == addrs;
    }
  }

  /** An acyclic list has no node twice: the rest of the list from a node on has one length. */
  lemma {:induction false} ChainIsUnique(nodes: map<int, Res>, p: int, a: seq<int>, b: seq<int>)
    requires Chain(nodes, p, a) && Chain(nodes, p, b)
    ensures a == b
    decreases a
  {
    if a != [] && b != [] { ChainIsUnique(nodes, nodes[p].next, a[1..], b[1..]); }
  }

  lemma ChainIsDistinct(nodes: map<int, Res>, p: int, addrs: seq<int>)
    requires Chain(nodes, p, addrs)
    ensures Distinct(addrs)
  {
    forall i, j | 0 <= i < j < |addrs| ensures addrs[i] != addrs[j] {
      ChainMembers(nodes, p, addrs, i);
      ChainMembers(nodes, p, addrs, j);
      if addrs[i] == addrs[j] { ChainIsUnique(nodes, addrs[i], addrs[i..], addrs[j..]); }
    }
  }

  /** The addresses a sorted table holds, as a permutation of those it was filled with. */
  function Pointers(v: seq<Elem>): seq<int> {
    seq(|v|, i requires 0 <= i < |v| => Ptr(v[i]))
  }

  function Encoded(addrs: seq<int>): (v: seq<Elem>)
    ensures |v| == |addrs|
  {
    seq(|addrs|, i requires 0 <= i < |addrs| => Enc(addrs[i]))
  }

  /** Along the list the keys descend. */
  ghost predicate InKeyOrder(nodes: map<int, Res>, sorted: seq<int>) {
    forall i, j {:trigger sorted[i], sorted[j]} :: 0 <= i < j < |sorted| ==>
      !Descends(Key(NodeAt(nodes, sorted[j])), Key(NodeAt(nodes, sorted[i])))
  }

  /** Of two nodes, cmp_res does not put the one behind in front. */
  lemma OrderInFull(nodes: map<int, Res>, p: int, sorted: seq<int>)
    requires Chain(nodes, p, sorted) && InKeyOrder(nodes, sorted)
    ensures forall i, j {:trigger sorted[i], sorted[j]} :: 0 <= i < j < |sorted| ==>
              sorted[i] in nodes && sorted[j] in nodes && CmpRes(nodes[sorted[j]], nodes[sorted[i]]) == 1
  {
    forall i, j | 0 <= i < j < |sorted|
      ensures sorted[i] in nodes && sorted[j] in nodes && CmpRes(nodes[sorted[j]], nodes[sorted[i]]) == 1
    {
      ChainMembers(nodes, p, sorted, i);
      ChainMembers(nodes, p, sorted, j);
      CmpResIsKeyOrder(nodes[sorted[j]], nodes[sorted[i]]);
    }
  }

  /** Same nodes, and no field but the links of the nodes in addrs has changed. */
  ghost predicate OnlyLinksChanged(nodes: map<int, Res>, nodes': map<int, Res>, addrs: seq<int>) {
    && nodes'.Keys == nodes.Keys
    && (forall p :: p in nodes' ==> nodes'[p] == nodes[p].(next := nodes'[p].next))
    && (forall p :: p in nodes' && p !in addrs ==> nodes'[p] == nodes[p])
  }

  function Without<T>(v: seq<T>, k: nat): seq<T>
    requires k < |v|
  {
    v[..k] + v[k + 1..]
  }

  lemma WithoutOne<T>(v: seq<T>, k: nat)
    requires k < |v|
    ensures multiset(v) == multiset(Without(v, k)) + multiset{v[k]}
    ensures multiset(Without(v, k)) == multiset(v) - multiset{v[k]}
  {
    assert v == v[..k] + [v[k]] + v[k + 1..];
  }

  lemma RestPermutes<T>(u: seq<T>, v: seq<T>, k: nat)
    requires multiset(u) == multiset(v) && 0 < |u| && k < |v| && v[k] == u[0]
    ensures multiset(Without(u, 0)) == multiset(Without(v, k))
  {
    WithoutOne(u, 0);
    WithoutOne(v, k);
  }

  lemma PointersWithout(v: seq<Elem>, k: nat)
    requires k < |v|
    ensures multiset(Pointers(v)) == multiset(Pointers(Without(v, k))) + multiset{Ptr(v[k])}
  {
    assert Pointers(Without(v, k)) == Without(Pointers(v), k);
    WithoutOne(Pointers(v), k);
  }

  lemma {:induction false} PointersPermute(u: seq<Elem>, v: seq<Elem>)
    requires multiset(u) == multiset(v)
    ensures multiset(Pointers(u)) == multiset(Pointers(v))
    decreases |u|
  {
    if u == [] {
      assert |multiset(v)| == 0;
    } else {
      assert u[0] in multiset(v);
      var k :| 0 <= k < |v| && v[k] == u[0];
      RestPermutes(u, v, k);
      PointersPermute(Without(u, 0), Without(v, k));
      PointersWithout(u, 0);
      PointersWithout(v, k);
    }
  }

  lemma {:induction false} PermutedIsDistinct(a: seq<int>, b: seq<int>)
    requires multiset(a) == multiset(b) && Distinct(a)
    ensures Distinct(b) && |a| == |b|
  {
    assert |multiset(a)| == |a| && |multiset(b)| == |b|;
    forall i, j | 0 <= i < j < |b| ensures b[i] != b[j] {
      if b[i] == b[j] {
        assert b == b[..i] + [b[i]] + b[i + 1..j] + [b[j]] + b[j + 1..];
        assert multiset(a)[b[i]] >= 2;
        CountsOnce(a, b[i]);
      }
    }
  }

  lemma {:induction false} CountsOnce(a: seq<int>, x: int)
    requires Distinct(a)
    ensures multiset(a)[x] <= 1
    decreases |a|
  {
    if a != [] {
      assert a == [a[0]] + a[1..];
      CountsOnce(a[1..], x);
      forall y | y in a[1..] ensures y != a[0] {
        var k :| 0 <= k < |a[1..]| && a[1..][k] == y;
        assert a[k + 1] == y;
      }
    }
  }

  /** The first k nodes are linked to their successors. */
  ghost predicate LinkedUpTo(nodes: map<int, Res>, sorted: seq<int>, k: nat) {
    k < |sorted|
    && forall i {:trigger nodes[sorted[i]]} ::
         0 <= i < k ==> sorted[i] in nodes && nodes[sorted[i]].next == sorted[i + 1]
  }

  lemma LinkOneMore(start: map<int, Res>, nodes: map<int, Res>, sorted: seq<int>, k: nat, q: int)
    requires OnlyLinksChanged(start, nodes, sorted) && LinkedUpTo(nodes, sorted, k) && Distinct(sorted)
             && sorted[k] in nodes
    ensures var nodes' := nodes[sorted[k] := nodes[sorted[k]].(next := q)];
            && OnlyLinksChanged(start, nodes', sorted) && LinkedUpTo(nodes', sorted, k)
            && (k + 1 < |sorted| && q == sorted[k + 1] ==> LinkedUpTo(nodes', sorted, k + 1))
  {
  }

  class ResList {
    var nodes: map<int, Res>

    constructor (nodes: map<int, Res>)
      ensures this.nodes == nodes
    {
      this.nodes := nodes;
    }

    method CountRes(res: int, ghost addrs: seq<int>) returns (count: nat)
      requires Chain(nodes, res, addrs)
      ensures count == |addrs|
    {
      var p := res;
      count := 0;
      while p != NULL
        invariant 0 <= count <= |addrs| && Chain(nodes, p, addrs[count..])
        decreases |addrs| - count
      {
        assert addrs[count..][1..] == addrs[count + 1..];
        p := nodes[p].next;
        count := count + 1;
      }
    }

    /** The table ends up with the addresses of the list's nodes, in order. */
    method FillTable(res: int, table: array<Byte>, count: nat, ghost addrs: seq<int>)
      requires Chain(nodes, res, addrs) && count == |addrs| && table.Length == count * POINTER_SIZE
      modifies table
      ensures View(table[..], POINTER_SIZE, count) == Encoded(addrs)
    {
      var p := res;
      var k := 0;
      while p != NULL
        invariant 0 <= k <= |addrs| && Chain(nodes, p, addrs[k..])
        invariant forall i, b {:trigger ByteOf(table[..], POINTER_SIZE, count, i, b)} ::
                    0 <= i < k && 0 <= b < POINTER_SIZE ==>
                    ByteOf(table[..], POINTER_SIZE, count, i, b) == Enc(addrs[i])[b]
        decreases |addrs| - k
      {
        assert addrs[k..][1..] == addrs[k + 1..];
        StorePointer(table, count, k, p);
        p := nodes[p].next;
        k := k + 1;
      }
      ViewFromBytes(table[..], POINTER_SIZE, count, Encoded(addrs));
    }

    method StorePointer(table: array<Byte>, count: nat, k: nat, p: int)
      requires table.Length == count * POINTER_SIZE && k < count
      modifies table
      ensures forall b {:trigger ByteOf(table[..], POINTER_SIZE, count, k, b)} :: 0 <= b < POINTER_SIZE ==>
                ByteOf(table[..], POINTER_SIZE, count, k, b) == Enc(p)[b]
      ensures forall i, b {:trigger ByteOf(table[..], POINTER_SIZE, count, i, b)} ::
                0 <= i < count && i != k && 0 <= b < POINTER_SIZE ==>
                ByteOf(table[..], POINTER_SIZE, count, i, b) == old(ByteOf(table[..], POINTER_SIZE, count, i, b))
    {
      StoreByteOf(table, POINTER_SIZE, count, k, 0, Digit(p, 0));
      StoreByteOf(table, POINTER_SIZE, count, k, 1, Digit(p, 1));
      StoreByteOf(table, POINTER_SIZE, count, k, 2, Digit(p, 2));
      StoreByteOf(table, POINTER_SIZE, count, k, 3, Digit(p, 3));
    }

    method LoadPointer(table: array<Byte>, count: nat, k: nat) returns (p: int)
      requires table.Length == count * POINTER_SIZE && k < count
      ensures p == Ptr(View(table[..], POINTER_SIZE, count)[k])
    {
      var e := Qsort.Load(table, POINTER_SIZE, count, k);
      p := Ptr(e);
    }

    /** The relinking loop: the nodes in table order, ended by NULL; no other field changes. */
    method Relink(table: array<Byte>, count0: nat, ghost sorted: seq<int>)
      requires count0 > 0 && table.Length == count0 * POINTER_SIZE
      requires sorted == Pointers(View(table[..], POINTER_SIZE, count0)) && Distinct(sorted)
      requires forall i :: 0 <= i < count0 ==> sorted[i] in nodes && 0 < sorted[i] < 0x1_0000_0000
      modifies this
      ensures Chain(nodes, sorted[0], sorted)
      ensures OnlyLinksChanged(old(nodes), nodes, sorted)
    {
      ghost var start := nodes;
      var count, k := count0, 0;
      while count > 1
        invariant 0 <= k && 1 <= count && k + count == count0
        invariant sorted == Pointers(View(table[..], POINTER_SIZE, count0))
        invariant OnlyLinksChanged(start, nodes, sorted)
        invariant LinkedUpTo(nodes, sorted, k)
      {
        var p := LoadPointer(table, count0, k);
        var q := LoadPointer(table, count0, k + 1);
        LinkOneMore(start, nodes, sorted, k, q);
        nodes := nodes[p := nodes[p].(next := q)];
        k := k + 1;
        count := count - 1;
      }
      var last := LoadPointer(table, count0, k);
      LinkOneMore(start, nodes, sorted, k, NULL);
      nodes := nodes[last := nodes[last].(next := NULL)];
      ChainFromLinks(nodes, sorted, 0);
    }

    /** sort_restab; `granted` says whether the operating system had room for the table. For an empty list there is no
        table with a first entry to return. */
    method SortResTab(res: int, granted: bool, ghost addrs: seq<int>) returns (ret: int, ghost sorted: seq<int>)
      requires Chain(nodes, res, addrs) && |addrs| < Qsort.SIZE_LIMIT && (granted ==> addrs != [])
      modifies this
      ensures !granted ==> ret == res && nodes == old(nodes) && sorted == addrs
      ensures Chain(nodes, ret, sorted) && multiset(sorted) == multiset(addrs)
      ensures granted ==> InKeyOrder(nodes, sorted)
      ensures granted ==>
                forall i, j {:trigger sorted[i], sorted[j]} :: 0 <= i < j < |sorted| ==>
                  sorted[i] in nodes && sorted[j] in nodes && CmpRes(nodes[sorted[j]], nodes[sorted[i]]) == 1
      ensures OnlyLinksChanged(old(nodes), nodes, addrs)
      ensures forall p :: p in old(nodes) && p !in addrs ==> p in nodes && nodes[p] == old(nodes)[p]
    {
      var count := CountRes(res, addrs);
      ret := res;
      sorted := addrs;
      if granted {
        var table := new Byte[count * POINTER_SIZE];
        FillTable(res, table, count, addrs);
        ghost var u := View(table[..], POINTER_SIZE, count);
        ComparatorIsOrder(nodes);
        Qsort.QSort(table, count, POINTER_SIZE, Comparator(nodes));
        ghost var v := View(table[..], POINTER_SIZE, count);
        sorted := Pointers(v);
        SortedTable(nodes, res, addrs, u, v);
        ret := LoadPointer(table, count, 0);
        Relink(table, count, sorted);
        OrderKept(old(nodes), nodes, addrs, sorted);
        OrderInFull(nodes, ret, sorted);
      }
    }
  }

  lemma {:induction false} ChainFromLinks(nodes: map<int, Res>, sorted: seq<int>, k: nat)
    requires k < |sorted| && (forall i :: 0 <= i < |sorted| ==> sorted[i] in nodes && 0 < sorted[i] < 0x1_0000_0000)
    requires LinkedUpTo(nodes, sorted, |sorted| - 1)
    requires nodes[sorted[|sorted| - 1]].next == NULL
    ensures Chain(nodes, sorted[k], sorted[k..])
    decreases |sorted| - k
  {
    if k + 1 < |sorted| {
      ChainFromLinks(nodes, sorted, k + 1);
      assert sorted[k..][1..] == sorted[k + 1..];
    } else {
      assert sorted[k..] == [sorted[k]];
      assert [sorted[k]][1..] == [];
    }
  }

  lemma SortedTable(nodes: map<int, Res>, res: int, addrs: seq<int>, u: seq<Elem>, v: seq<Elem>)
    requires Chain(nodes, res, addrs) && u == Encoded(addrs)
    requires multiset(v) == multiset(u) && Sorted(Comparator(nodes), v)
    ensures multiset(Pointers(v)) == multiset(addrs) && Distinct(Pointers(v)) && |v| == |addrs|
    ensures forall i :: 0 <= i < |v| ==> Pointers(v)[i] in nodes && 0 < Pointers(v)[i] < 0x1_0000_0000
    ensures InKeyOrder(nodes, Pointers(v))
  {
    var sorted := Pointers(v);
    forall i | 0 <= i < |addrs| ensures Pointers(u)[i] == addrs[i] {
      ChainMembers(nodes, res, addrs, i);
      PtrOfEnc(addrs[i]);
    }
    assert Pointers(u) == addrs;
    PointersPermute(v, u);
    ChainIsDistinct(nodes, res, addrs);
    PermutedIsDistinct(addrs, sorted);
    forall i | 0 <= i < |v| ensures sorted[i] in nodes && 0 < sorted[i] < 0x1_0000_0000 {
      assert sorted[i] in multiset(sorted);
      var k :| 0 <= k < |addrs| && addrs[k] == sorted[i];
      ChainMembers(nodes, res, addrs, k);
    }
    forall i, j | 0 <= i < j < |v| ensures !Descends(Key(NodeAt(nodes, sorted[j])), Key(NodeAt(nodes, sorted[i]))) {
      assert !Less(Comparator(nodes), v[j], v[i]);
      CmpResIsKeyOrder(NodeAt(nodes, sorted[j]), NodeAt(nodes, sorted[i]));
    }
  }

  /** Relinking changes no key. */
  lemma OrderKept(nodes: map<int, Res>, nodes': map<int, Res>, addrs: seq<int>, sorted: seq<int>)
    requires OnlyLinksChanged(nodes, nodes', sorted) && multiset(sorted) == multiset(addrs) && InKeyOrder(nodes, sorted)
    ensures OnlyLinksChanged(nodes, nodes', addrs) && InKeyOrder(nodes', sorted)
  {
    forall p | p in sorted ensures p in addrs {
      assert p in multiset(sorted);
    }
    forall i, j | 0 <= i < j < |sorted|
      ensures !Descends(Key(NodeAt(nodes', sorted[j])), Key(NodeAt(nodes', sorted[i])))
    {
      assert Key(NodeAt(nodes', sorted[i])) == Key(NodeAt(nodes, sorted[i]));
      assert Key(NodeAt(nodes', sorted[j])) == Key(NodeAt(nodes, sorted[j]));
    }
  }
}
