/** The partition-refinement canonicaliser: vertex signatures, the degree
    partition, equitable refinement (`quotient`), individualisation
    (`terminal`) and the representative two graphs are compared by. */
module Isomorphisms {
  import opened Graphs
  import opened Orders
  import opened Partitions

  // ---------------------------------------------------------------------
  // partAdjacencies

  /** The signature of vert: for each cell, how many of its members are
      neighbours of vert. */
  method VertexSignature(g: Graph, part: Partition, vert: int) returns (sig: Signature)
    requires 0 <= vert < |g.vertices|
    ensures sig == Sig(g.vertices, part, vert)
  {
    var row := g.vertices[vert];
    sig := seq(|part|, c => 0);
    var c := 0;
    while c < |part|
      invariant 0 <= c <= |part| && |sig| == |part|
      invariant forall d :: 0 <= d < c ==> sig[d] == Count(row, part[d])
      invariant forall d :: c <= d < |part| ==> sig[d] == 0
    {
      var k := 0;
      while k < |part[c]|
        invariant 0 <= k <= |part[c]| && |sig| == |part|
        invariant forall d :: 0 <= d < c ==> sig[d] == Count(row, part[d])
        invariant forall d :: c < d < |part| ==> sig[d] == 0
        invariant sig[c] == Count(row, part[c][..k])
      {
        assert part[c][..k + 1][..k] == part[c][..k];
        if part[c][k] in row {
          sig := sig[c := sig[c] + 1];
        }
        k := k + 1;
      }
      assert part[c][..k] == part[c];
      c := c + 1;
    }
  }

  /** The map from every vertex listed in part to its signature. */
  method PartAdjacencies(g: Graph, part: Partition) returns (cellList: map<int, Signature>)
    requires Bounded(part, |g.vertices|)
    ensures forall x :: x in cellList <==> x in Flatten(part)
    ensures forall x :: x in cellList ==> 0 <= x < |g.vertices| && cellList[x] == Sig(g.vertices, part, x)
  {
    cellList := map[];
    var c := 0;
    while c < |part|
      invariant 0 <= c <= |part|
      invariant forall x :: x in cellList <==> x in Flatten(part[..c])
      invariant forall x :: x in cellList ==> 0 <= x < |g.vertices| && cellList[x] == Sig(g.vertices, part, x)
    {
      var k := 0;
      while k < |part[c]|
        invariant 0 <= k <= |part[c]|
        invariant forall x :: x in cellList <==> x in Flatten(part[..c]) + part[c][..k]
        invariant forall x :: x in cellList ==> 0 <= x < |g.vertices| && cellList[x] == Sig(g.vertices, part, x)
      {
        var vert := part[c][k];
        var sig := VertexSignature(g, part, vert);
        cellList := cellList[vert := sig];
        assert part[c][..k + 1] == part[c][..k] + [vert];
        k := k + 1;
      }
      assert part[..c + 1][..c] == part[..c];
      assert part[c][..k] == part[c];
      c := c + 1;
    }
    assert part[..c] == part;
  }

  /** The signatures of all listed vertices in partition order, read off
      the map built by PartAdjacencies. */
  method SignatureList(g: Graph, part: Partition) returns (sigs: seq<Signature>)
    requires Bounded(part, |g.vertices|)
    ensures sigs == SigList(g.vertices, part)
  {
    var cellList := PartAdjacencies(g, part);
    var order := Flatten(part);
    sigs := [];
    var p := 0;
    while p < |order|
      invariant 0 <= p <= |order|
      invariant sigs == SigList(g.vertices, part)[..p]
    {
      assert order[p] in order;
      sigs := sigs + [cellList[order[p]]];
      p := p + 1;
    }
  }

  // ---------------------------------------------------------------------
  // initPartition

  /** The degree of every vertex. */
  function Degrees(vs: Lists): (r: seq<nat>)
    ensures |r| == |vs| && forall x :: 0 <= x < |vs| ==> r[x] == |vs[x]|
  {
    seq(|vs|, x requires 0 <= x < |vs| => |vs[x]|)
  }

  /** The distinct degrees, highest first: `sorted(set(degSeq), reverse=True)`. */
  function Levels(vs: Lists): seq<nat>
  {
    SortedSet(NatGreater, Degrees(vs))
  }

  /** One cell per distinct degree, highest degree first, each holding the
      vertices of that degree in ascending order. */
  function InitPartitionOf(vs: Lists): Partition
  {
    Groups(NatGreater, Range(|vs|), Degrees(vs))
  }

  /** The position of x in s: Python's `s.index(x)`. */
  function IndexOf(s: seq<nat>, x: nat): (r: nat)
    requires x in s
    ensures r < |s| && s[r] == x
  {
    if s[0] == x then 0 else 1 + IndexOf(s[1..], x)
  }

  method InitPartition(g: Graph) returns (part: Partition)
    ensures part == InitPartitionOf(g.vertices)
  {
    var vs := g.vertices;
    var degSeq := DegreeSequence(g);
    var levels := SortedSet(NatGreater, degSeq);
    part := Cells(degSeq, levels);
    assert part == Groups(NatGreater, Range(|vs|), degSeq);
  }

  /** The first loop of `initPartition`: the degree of each vertex. */
  method DegreeSequence(g: Graph) returns (degSeq: seq<nat>)
    ensures degSeq == Degrees(g.vertices)
  {
    var vs := g.vertices;
    degSeq := [];
    var i := 0;
    while i < |vs|
      invariant 0 <= i <= |vs| && degSeq == Degrees(vs)[..i]
    {
      degSeq := degSeq + [|vs[i]|];
      i := i + 1;
    }
  }

  /** The second loop of `initPartition`: each vertex, in ascending order,
      appended to the cell of its degree. */
  method Cells(degSeq: seq<nat>, levels: seq<nat>) returns (part: Partition)
    requires levels == SortedSet(NatGreater, degSeq)
    ensures |part| == |levels|
    ensures forall t :: 0 <= t < |levels| ==> part[t] == Group(Range(|degSeq|), degSeq, levels[t])
  {
    SortedSetSpec(NatGreater, degSeq);
    NatOrders();
    part := seq(|levels|, t => []);
    var i := 0;
    while i < |degSeq|
      invariant 0 <= i <= |degSeq| && |part| == |levels|
      invariant forall t :: 0 <= t < |levels| ==> part[t] == Group(Range(i), degSeq[..i], levels[t])
    {
      assert degSeq[i] in levels;
      var t := IndexOf(levels, degSeq[i]);
      assert Range(i + 1)[..i] == Range(i) && degSeq[..i + 1][..i] == degSeq[..i];
      LevelUnique(levels, t);
      part := part[t := part[t] + [i]];
      i := i + 1;
    }
    assert Range(|degSeq|) == Range(|degSeq|)[..|degSeq|] && degSeq == degSeq[..|degSeq|];
  }

  /** In a strictly descending list, position t is the only one holding its
      value. */
  lemma LevelUnique(levels: seq<nat>, t: int)
    requires 0 <= t < |levels|
    requires forall i, j :: 0 <= i < j < |levels| ==> NatGreater(levels[i], levels[j])
    ensures forall u :: 0 <= u < |levels| ==> (levels[u] == levels[t] <==> u == t)
  {
  }

  /** The vertices of a group taken from 0 .. n-1 ascend and stay below n. */
  lemma {:induction false} GroupRangeAscending(n: nat, keys: seq<nat>, k: nat)
    requires |keys| == n
    ensures forall i :: 0 <= i < |Group(Range(n), keys, k)| ==> 0 <= Group(Range(n), keys, k)[i] < n
    ensures forall i, j :: 0 <= i < j < |Group(Range(n), keys, k)| ==>
      Group(Range(n), keys, k)[i] < Group(Range(n), keys, k)[j]
    decreases n
  {
    if n > 0 {
      assert Range(n)[..n - 1] == Range(n - 1);
      GroupRangeAscending(n - 1, keys[..n - 1], k);
    }
  }

  /** The degree partition is a partition with one cell per distinct degree,
      in strictly descending degree, every member of cell c having degree
      Levels(vs)[c], and ascending vertex ids within a cell. */
  lemma InitPartitionSpec(vs: Lists)
    ensures IsPartition(InitPartitionOf(vs), |vs|)
    ensures |InitPartitionOf(vs)| == |Levels(vs)|
    ensures forall c, k :: 0 <= c < |InitPartitionOf(vs)| && 0 <= k < |InitPartitionOf(vs)[c]| ==>
      0 <= InitPartitionOf(vs)[c][k] < |vs| && |vs[InitPartitionOf(vs)[c][k]]| == Levels(vs)[c]
    ensures forall c, d :: 0 <= c < d < |Levels(vs)| ==> Levels(vs)[c] > Levels(vs)[d]
    ensures forall x :: 0 <= x < |vs| ==> |vs[x]| in Levels(vs)
    ensures forall c, k, l :: 0 <= c < |InitPartitionOf(vs)| && 0 <= k < l < |InitPartitionOf(vs)[c]| ==>
      InitPartitionOf(vs)[c][k] < InitPartitionOf(vs)[c][l]
  {
    var part := InitPartitionOf(vs);
    var degs := Degrees(vs);
    var levels := Levels(vs);
    NatOrders();
    GroupsSpec(NatGreater, Range(|vs|), degs);
    SortedSetSpec(NatGreater, degs);
    forall c, k | 0 <= c < |part| && 0 <= k < |part[c]|
      ensures 0 <= part[c][k] < |vs| && |vs[part[c][k]]| == levels[c]
    {
      assert part[c] == Group(Range(|vs|), degs, levels[c]);
      assert part[c][k] in part[c];
      GroupMember(Range(|vs|), degs, levels[c], part[c][k]);
    }
    forall c, d | 0 <= c < d < |levels|
      ensures levels[c] > levels[d]
    {
      assert NatGreater(levels[c], levels[d]);
    }
    forall x | 0 <= x < |vs|
      ensures |vs[x]| in levels
    {
      assert degs[x] in degs;
    }
    forall c | 0 <= c < |part|
      ensures forall k, l :: 0 <= k < l < |part[c]| ==> part[c][k] < part[c][l]
    {
      GroupRangeAscending(|vs|, degs, levels[c]);
    }
  }

  // ---------------------------------------------------------------------
  // quotient: specification

  /** Python's `<` on signatures. */
  function SigLess(a: Signature, b: Signature): bool
  {
    Lex(NatLess, a, b)
  }

  lemma SigOrder()
    ensures StrictTotal(SigLess)
  {
    NatOrders();
    LexStrictTotal(NatLess);
    var lex := (a: Signature, b: Signature) => Lex(NatLess, a, b);
    assert forall a, b :: SigLess(a, b) == lex(a, b);
  }

  /** x and y lie in a common cell. */
  ghost predicate SameCell(part: Partition, x: int, y: int)
  {
    exists c :: 0 <= c < |part| && x in part[c] && y in part[c]
  }

  /** Every cell of fine lies within a cell of coarse. */
  ghost predicate Refines(fine: Partition, coarse: Partition)
  {
    forall d, x, y :: 0 <= d < |fine| && x in fine[d] && y in fine[d] ==> SameCell(coarse, x, y)
  }

  lemma RefinesTransitive(a: Partition, b: Partition, c: Partition)
    requires Refines(a, b) && Refines(b, c)
    ensures Refines(a, c)
  {
    forall d, x, y | 0 <= d < |a| && x in a[d] && y in a[d]
      ensures SameCell(c, x, y)
    {
      assert SameCell(b, x, y);
      var e :| 0 <= e < |b| && x in b[e] && y in b[e];
    }
  }

  /** The signatures of the members of cell, in order: `revLookup` before
      it is sorted. */
  function CellSigs(vs: Lists, part: Partition, cell: seq<int>): (r: seq<Signature>)
    requires forall k :: 0 <= k < |cell| ==> 0 <= cell[k] < |vs|
    ensures |r| == |cell|
  {
    seq(|cell|, k requires 0 <= k < |cell| => Sig(vs, part, cell[k]))
  }

  /** The subcells one refinement pass makes of cell c: its members grouped
      by signature, in ascending signature order. */
  function Subcells(vs: Lists, part: Partition, c: int): Partition
    requires Bounded(part, |vs|) && 0 <= c < |part|
  {
    Groups(SigLess, part[c], CellSigs(vs, part, part[c]))
  }

  /** `newPart` after a pass has visited cells 0 .. m-1. */
  function SplitUpTo(vs: Lists, part: Partition, m: nat): Partition
    requires Bounded(part, |vs|) && m <= |part|
    decreases m
  {
    if m == 0 then [] else SplitUpTo(vs, part, m - 1) + Subcells(vs, part, m - 1)
  }

  /** One refinement pass over every cell. */
  function Split(vs: Lists, part: Partition): Partition
    requires Bounded(part, |vs|)
  {
    SplitUpTo(vs, part, |part|)
  }

  /** The subcells of one cell are nonempty, lie within it and hold its
      members between them. */
  lemma SubcellsSpec(vs: Lists, part: Partition, c: int)
    requires IsPartition(part, |vs|) && 0 <= c < |part|
    ensures Bounded(part, |vs|)
    ensures multiset(Flatten(Subcells(vs, part, c))) == multiset(part[c])
    ensures |Subcells(vs, part, c)| >= 1
    ensures forall t :: 0 <= t < |Subcells(vs, part, c)| ==> |Subcells(vs, part, c)[t]| > 0
    ensures forall t, x :: 0 <= t < |Subcells(vs, part, c)| && x in Subcells(vs, part, c)[t] ==> x in part[c]
  {
    PartitionBounded(part, |vs|);
    var sigs := CellSigs(vs, part, part[c]);
    var ks := SortedSet(SigLess, sigs);
    SigOrder();
    GroupsSpec(SigLess, part[c], sigs);
    forall t, x | 0 <= t < |ks| && x in Group(part[c], sigs, ks[t])
      ensures x in part[c]
    {
      GroupMember(part[c], sigs, ks[t], x);
    }
  }

  /** The subcells of cell c hold its members. */
  lemma SubcellsBag(vs: Lists, part: Partition, c: int)
    requires Bounded(part, |vs|) && 0 <= c < |part|
    ensures multiset(Flatten(Subcells(vs, part, c))) == multiset(part[c])
  {
    var sigs := CellSigs(vs, part, part[c]);
    SigOrder();
    GroupsSpec(SigLess, part[c], sigs);
  }

  /** The subcells of cell c are nonempty and lie within it. */
  lemma SubcellsWithin(vs: Lists, part: Partition, c: int)
    requires Bounded(part, |vs|) && 0 <= c < |part| && |part[c]| > 0
    ensures |Subcells(vs, part, c)| >= 1
    ensures forall t :: 0 <= t < |Subcells(vs, part, c)| ==> |Subcells(vs, part, c)[t]| > 0
    ensures forall t, x :: 0 <= t < |Subcells(vs, part, c)| && x in Subcells(vs, part, c)[t] ==> x in part[c]
  {
    var sigs := CellSigs(vs, part, part[c]);
    var ks := SortedSet(SigLess, sigs);
    SigOrder();
    GroupsSpec(SigLess, part[c], sigs);
    forall t, x | 0 <= t < |ks| && x in Group(part[c], sigs, ks[t])
      ensures x in part[c]
    {
      GroupMember(part[c], sigs, ks[t], x);
    }
  }

  /** Appending the cells subs, all nonempty and within cell c of part,
      to cells that refine part. */
  lemma AppendCells(prev: Partition, subs: Partition, part: Partition, c: int)
    requires 0 <= c < |part| && Refines(prev, part)
    requires forall d :: 0 <= d < |prev| ==> |prev[d]| > 0
    requires forall t :: 0 <= t < |subs| ==> |subs[t]| > 0
    requires forall t, x :: 0 <= t < |subs| && x in subs[t] ==> x in part[c]
    ensures Refines(prev + subs, part)
    ensures forall d :: 0 <= d < |prev + subs| ==> |(prev + subs)[d]| > 0
  {
    var next := prev + subs;
    forall d, x, y | 0 <= d < |next| && x in next[d] && y in next[d]
      ensures SameCell(part, x, y)
    {
      if d < |prev| {
        assert next[d] == prev[d];
      } else {
        assert next[d] == subs[d - |prev|];
        assert x in part[c] && y in part[c];
      }
    }
    forall d | 0 <= d < |next|
      ensures |next[d]| > 0
    {
      if d < |prev| {
        assert next[d] == prev[d];
      } else {
        assert next[d] == subs[d - |prev|];
      }
    }
  }

  /** The cells of a partial pass hold the members of the cells visited so
      far. */
  lemma {:induction false} SplitUpToBag(vs: Lists, part: Partition, m: nat)
    requires Bounded(part, |vs|) && m <= |part|
    ensures multiset(Flatten(SplitUpTo(vs, part, m))) == multiset(Flatten(part[..m]))
    decreases m
  {
    if m > 0 {
      SplitUpToBag(vs, part, m - 1);
      SplitUpToStep(vs, part, m);
      FlattenPrefix(part, m);
    }
  }

  /** The m-th cell's subcells add its members to the bag. */
  lemma SplitUpToStep(vs: Lists, part: Partition, m: nat)
    requires Bounded(part, |vs|) && 0 < m <= |part|
    ensures multiset(Flatten(SplitUpTo(vs, part, m))) ==
      multiset(Flatten(SplitUpTo(vs, part, m - 1))) + multiset(part[m - 1])
  {
    var prev := SplitUpTo(vs, part, m - 1);
    var subs := Subcells(vs, part, m - 1);
    assert SplitUpTo(vs, part, m) == prev + subs;
    FlattenAppend(prev, subs);
    SubcellsBag(vs, part, m - 1);
  }

  /** A partial pass over m cells makes at least m cells, and exactly m only
      when no visited cell splits. */
  lemma {:induction false} SplitUpToCount(vs: Lists, part: Partition, m: nat)
    requires Bounded(part, |vs|) && (forall c :: 0 <= c < |part| ==> |part[c]| > 0) && m <= |part|
    ensures |SplitUpTo(vs, part, m)| >= m
    ensures |SplitUpTo(vs, part, m)| == m ==> forall c :: 0 <= c < m ==> |Subcells(vs, part, c)| == 1
    decreases m
  {
    if m > 0 {
      SplitUpToCount(vs, part, m - 1);
      var prev := SplitUpTo(vs, part, m - 1);
      var subs := Subcells(vs, part, m - 1);
      SubcellsWithin(vs, part, m - 1);
      assert SplitUpTo(vs, part, m) == prev + subs;
      if |prev + subs| == m {
        assert |prev| == m - 1 && |subs| == 1;
        forall c | 0 <= c < m
          ensures |Subcells(vs, part, c)| == 1
        {
          if c == m - 1 {
            assert Subcells(vs, part, c) == subs;
          }
        }
      }
    }
  }

  /** The cells of a partial pass are nonempty and each lies in a cell of
      the partition. */
  lemma {:induction false} SplitUpToRefines(vs: Lists, part: Partition, m: nat)
    requires Bounded(part, |vs|) && (forall c :: 0 <= c < |part| ==> |part[c]| > 0) && m <= |part|
    ensures forall d :: 0 <= d < |SplitUpTo(vs, part, m)| ==> |SplitUpTo(vs, part, m)[d]| > 0
    ensures Refines(SplitUpTo(vs, part, m), part)
    decreases m
  {
    if m > 0 {
      var prev := SplitUpTo(vs, part, m - 1);
      var subs := Subcells(vs, part, m - 1);
      SplitUpToRefines(vs, part, m - 1);
      SubcellsWithin(vs, part, m - 1);
      AppendCells(prev, subs, part, m - 1);
      assert SplitUpTo(vs, part, m) == prev + subs;
    } else {
      RefinesEmpty(part);
    }
  }

  lemma RefinesEmpty(part: Partition)
    ensures Refines([], part)
  {
  }

  /** The cells of a pass that splits nothing are unchanged by it, and
      all the members of each have one signature. */
  lemma SingleGroup(vs: Lists, part: Partition, c: int)
    requires Bounded(part, |vs|) && 0 <= c < |part| && |Subcells(vs, part, c)| == 1
    ensures Flatten(Subcells(vs, part, c)) == part[c]
    ensures forall k, l :: 0 <= k < |part[c]| && 0 <= l < |part[c]| ==>
      Sig(vs, part, part[c][k]) == Sig(vs, part, part[c][l])
  {
    var sigs := CellSigs(vs, part, part[c]);
    var ks := SortedSet(SigLess, sigs);
    SigOrder();
    SortedSetSpec(SigLess, sigs);
    forall k | 0 <= k < |part[c]|
      ensures sigs[k] == ks[0]
    {
      assert sigs[k] in ks;
    }
    forall k, l | 0 <= k < |part[c]| && 0 <= l < |part[c]|
      ensures Sig(vs, part, part[c][k]) == Sig(vs, part, part[c][l])
    {
      assert sigs[k] == ks[0] == sigs[l];
    }
    GroupLength(part[c], sigs, ks[0]);
    FlattenOne(part[c]);
    assert Subcells(vs, part, c) == [part[c]];
  }

  /** A pass keeps a partition, refines it, never loses cells, and when it
      adds none the partition was already equitable and the pass leaves
      every cell as it was. */
  lemma SplitSpec(vs: Lists, part: Partition)
    requires IsPartition(part, |vs|)
    ensures Bounded(part, |vs|)
    ensures IsPartition(Split(vs, part), |vs|)
    ensures Refines(Split(vs, part), part)
    ensures |Split(vs, part)| >= |part|
    ensures |Split(vs, part)| == |part| ==>
      && Equitable(vs, part)
      && forall c :: 0 <= c < |part| ==> Flatten(Subcells(vs, part, c)) == part[c]
  {
    PartitionBounded(part, |vs|);
    SplitUpToBag(vs, part, |part|);
    SplitUpToCount(vs, part, |part|);
    SplitUpToRefines(vs, part, |part|);
    assert part[..|part|] == part;
    if |Split(vs, part)| == |part| {
      forall c | 0 <= c < |part|
        ensures Flatten(Subcells(vs, part, c)) == part[c]
        ensures forall k, l :: 0 <= k < |part[c]| && 0 <= l < |part[c]| ==>
          Sig(vs, part, part[c][k]) == Sig(vs, part, part[c][l])
      {
        SingleGroup(vs, part, c);
      }
    }
  }

  /** Passes repeated until one adds no cell: the loop of `quotient`. */
  function Refine(vs: Lists, part: Partition): (r: Partition)
    requires IsPartition(part, |vs|)
    ensures IsPartition(r, |vs|) && Bounded(r, |vs|) && Equitable(vs, r)
    ensures Refines(r, part) && |r| >= |part|
    decreases |vs| - |part|
  {
    SplitSpec(vs, part);
    var next := Split(vs, part);
    PartitionSize(next, |vs|);
    if |next| == |part| then
      RefinesSelf(part);
      part
    else
      var r := Refine(vs, next);
      RefinesTransitive(r, next, part);
      r
  }

  lemma RefinesSelf(part: Partition)
    ensures Refines(part, part)
  {
    forall d, x, y | 0 <= d < |part| && x in part[d] && y in part[d]
      ensures SameCell(part, x, y)
    {
    }
  }

  /** The signature of the first vertex of every cell. */
  function FirstSigs(vs: Lists, part: Partition): (r: seq<Signature>)
    requires Bounded(part, |vs|) && forall c :: 0 <= c < |part| ==> |part[c]| > 0
    ensures |r| == |part|
  {
    seq(|part|, c requires 0 <= c < |part| => Sig(vs, part, part[c][0]))
  }

  /** The cells in ascending order of the signature of their first vertex,
      cells with equal such signatures keeping their order. */
  function SortCells(vs: Lists, part: Partition): Partition
    requires Bounded(part, |vs|) && forall c :: 0 <= c < |part| ==> |part[c]| > 0
  {
    Flatten(Groups(SigLess, part, FirstSigs(vs, part)))
  }

  /** The result of `quotient`. */
  function QuotientOf(vs: Lists, part: Partition): Partition
    requires IsPartition(part, |vs|)
  {
    SortCells(vs, Refine(vs, part))
  }

  /** Sorting rearranges whole cells: every sorted cell is a cell of the
      input and the bag of cells is the same. */
  lemma SortCellsCells(vs: Lists, part: Partition)
    requires IsPartition(part, |vs|)
    ensures Bounded(part, |vs|)
    ensures multiset(SortCells(vs, part)) == multiset(part)
    ensures forall d :: 0 <= d < |SortCells(vs, part)| ==>
      exists c :: 0 <= c < |part| && SortCells(vs, part)[d] == part[c]
  {
    PartitionBounded(part, |vs|);
    var sorted := SortCells(vs, part);
    SigOrder();
    GroupsSpec(SigLess, part, FirstSigs(vs, part));
    forall d | 0 <= d < |sorted|
      ensures exists c :: 0 <= c < |part| && sorted[d] == part[c]
    {
      assert sorted[d] in multiset(part);
    }
  }

  /** Cells listed in another order still form a partition, within which
      each cell lies in itself. */
  lemma Rearranged(part: Partition, sorted: Partition, n: nat)
    requires IsPartition(part, n) && multiset(sorted) == multiset(part)
    requires forall d :: 0 <= d < |sorted| ==> exists c :: 0 <= c < |part| && sorted[d] == part[c]
    ensures IsPartition(sorted, n) && Bounded(sorted, n)
    ensures Refines(sorted, part)
    ensures |sorted| == |part|
  {
    FlattenPerm(sorted, part);
    forall d | 0 <= d < |sorted|
      ensures |sorted[d]| > 0
    {
      var c :| 0 <= c < |part| && sorted[d] == part[c];
    }
    forall d, x, y | 0 <= d < |sorted| && x in sorted[d] && y in sorted[d]
      ensures SameCell(part, x, y)
    {
      var c :| 0 <= c < |part| && sorted[d] == part[c];
    }
    PartitionBounded(sorted, n);
    assert |sorted| == |multiset(sorted)| == |multiset(part)| == |part|;
  }

  /** The sorted cells ascend in the signature of their first vertex. */
  lemma SortCellsOrdered(vs: Lists, part: Partition)
    requires IsPartition(part, |vs|)
    ensures Bounded(part, |vs|) && Bounded(SortCells(vs, part), |vs|)
    ensures forall d :: 0 <= d < |SortCells(vs, part)| ==> |SortCells(vs, part)[d]| > 0
    ensures forall i, j :: 0 <= i < j < |SortCells(vs, part)| ==>
      !SigLess(Sig(vs, part, SortCells(vs, part)[j][0]), Sig(vs, part, SortCells(vs, part)[i][0]))
  {
    SortCellsCells(vs, part);
    var sorted := SortCells(vs, part);
    WholeCells(part, sorted, |vs|);
    var keys := FirstSigs(vs, part);
    SigOrder();
    var key := (cell: seq<int>) => if |cell| > 0 && 0 <= cell[0] < |vs| then Sig(vs, part, cell[0]) else [];
    FlattenGroupsOrdered(SigLess, part, keys, key);
    forall i, j | 0 <= i < j < |sorted|
      ensures !SigLess(Sig(vs, part, sorted[j][0]), Sig(vs, part, sorted[i][0]))
    {
      assert key(sorted[i]) == Sig(vs, part, sorted[i][0]);
      assert key(sorted[j]) == Sig(vs, part, sorted[j][0]);
    }
  }

  /** Cells taken whole from a bounded list of nonempty cells are bounded
      and nonempty. */
  lemma WholeCells(part: Partition, sorted: Partition, n: nat)
    requires Bounded(part, n) && forall c :: 0 <= c < |part| ==> |part[c]| > 0
    requires forall d :: 0 <= d < |sorted| ==> exists c :: 0 <= c < |part| && sorted[d] == part[c]
    ensures Bounded(sorted, n) && forall d :: 0 <= d < |sorted| ==> |sorted[d]| > 0
  {
    forall d | 0 <= d < |sorted|
      ensures |sorted[d]| > 0 && forall k :: 0 <= k < |sorted[d]| ==> 0 <= sorted[d][k] < n
    {
      var c :| 0 <= c < |part| && sorted[d] == part[c];
    }
  }

  /** Sorting keeps a partition and an equitable one. */
  lemma SortCellsSpec(vs: Lists, part: Partition)
    requires IsPartition(part, |vs|)
    ensures Bounded(part, |vs|) && Bounded(SortCells(vs, part), |vs|)
    ensures IsPartition(SortCells(vs, part), |vs|)
    ensures |SortCells(vs, part)| == |part|
    ensures Refines(SortCells(vs, part), part)
    ensures Equitable(vs, part) ==> Equitable(vs, SortCells(vs, part))
  {
    SortCellsCells(vs, part);
    Rearranged(part, SortCells(vs, part), |vs|);
    if Equitable(vs, part) {
      SortedEquitable(vs, part, SortCells(vs, part));
    }
  }

  /** Rearranging the cells of an equitable partition keeps it equitable. */
  lemma SortedEquitable(vs: Lists, part: Partition, sorted: Partition)
    requires Bounded(part, |vs|) && Bounded(sorted, |vs|) && Equitable(vs, part)
    requires forall d :: 0 <= d < |sorted| ==> exists c :: 0 <= c < |part| && sorted[d] == part[c]
    ensures Equitable(vs, sorted)
  {
    forall d, k, l | 0 <= d < |sorted| && 0 <= k < |sorted[d]| && 0 <= l < |sorted[d]|
      ensures Sig(vs, sorted, sorted[d][k]) == Sig(vs, sorted, sorted[d][l])
    {
      var x, y := sorted[d][k], sorted[d][l];
      var c :| 0 <= c < |part| && sorted[d] == part[c];
      assert Sig(vs, part, part[c][k]) == Sig(vs, part, part[c][l]);
      forall e | 0 <= e < |sorted|
        ensures Count(vs[x], sorted[e]) == Count(vs[y], sorted[e])
      {
        var f :| 0 <= f < |part| && sorted[e] == part[f];
        assert Sig(vs, part, x)[f] == Sig(vs, part, y)[f];
      }
    }
  }

  lemma QuotientPartition(vs: Lists, part: Partition)
    requires IsPartition(part, |vs|)
    ensures IsPartition(QuotientOf(vs, part), |vs|) && Bounded(QuotientOf(vs, part), |vs|)
  {
    var r := Refine(vs, part);
    SortCellsCells(vs, r);
    Rearranged(r, SortCells(vs, r), |vs|);
  }

  /** `quotient` returns an equitable partition that refines its input, has
      at least as many cells, and lists its cells in ascending order of
      their first vertex's signature. */
  lemma QuotientSpec(vs: Lists, part: Partition)
    requires IsPartition(part, |vs|)
    ensures IsPartition(QuotientOf(vs, part), |vs|)
    ensures Bounded(QuotientOf(vs, part), |vs|) && Equitable(vs, QuotientOf(vs, part))
    ensures Refines(QuotientOf(vs, part), part)
    ensures |QuotientOf(vs, part)| >= |part|
    ensures forall i, j :: 0 <= i < j < |QuotientOf(vs, part)| ==>
      !SigLess(Sig(vs, Refine(vs, part), QuotientOf(vs, part)[j][0]),
               Sig(vs, Refine(vs, part), QuotientOf(vs, part)[i][0]))
  {
    var r := Refine(vs, part);
    SortCellsSpec(vs, r);
    SortCellsOrdered(vs, r);
    RefinesTransitive(QuotientOf(vs, part), r, part);
  }

  // ---------------------------------------------------------------------
  // quotient

  /** `revLookup` before it is sorted: the signature of each member of cell,
      read from the map. */
  method Lookup(cellList: map<int, Signature>, cell: seq<int>) returns (keys: seq<Signature>)
    requires forall k :: 0 <= k < |cell| ==> cell[k] in cellList
    ensures |keys| == |cell| && forall k :: 0 <= k < |cell| ==> keys[k] == cellList[cell[k]]
  {
    keys := [];
    var k := 0;
    while k < |cell|
      invariant 0 <= k <= |cell| && |keys| == k
      invariant forall j :: 0 <= j < k ==> keys[j] == cellList[cell[j]]
    {
      keys := keys + [cellList[cell[k]]];
      k := k + 1;
    }
  }

  /** The closing sort of `quotient` and `terminal`: the cells ordered by
      the signature of their first vertex, read from the map. */
  method SortByStandard(ghost vs: Lists, part: Partition, cellList: map<int, Signature>) returns (sorted: Partition)
    requires Bounded(part, |vs|) && forall c :: 0 <= c < |part| ==> |part[c]| > 0
    requires forall c :: 0 <= c < |part| ==>
      part[c][0] in cellList && cellList[part[c][0]] == Sig(vs, part, part[c][0])
    ensures sorted == SortCells(vs, part)
  {
    var pList: seq<Signature> := [];
    var i := 0;
    while i < |part|
      invariant 0 <= i <= |part| && pList == FirstSigs(vs, part)[..i]
    {
      pList := pList + [cellList[part[i][0]]];
      i := i + 1;
    }
    assert pList == FirstSigs(vs, part);
    var groups := GroupByKey(SigLess, part, pList);
    sorted := Flatten(groups);
  }

  /** One pass of the refinement loop: every cell is rewritten with
      equal-signature members together, in ascending signature order
      (`reordered`), and split into one subcell per signature (`newPart`). */
  method Pass(g: Graph, cur: Partition) returns (reordered: Partition, newPart: Partition, cellList: map<int, Signature>)
    requires IsPartition(cur, |g.vertices|)
    ensures Bounded(cur, |g.vertices|)
    ensures newPart == Split(g.vertices, cur)
    ensures |reordered| == |cur|
    ensures forall d :: 0 <= d < |cur| ==> reordered[d] == Flatten(Subcells(g.vertices, cur, d))
    ensures forall x :: x in cellList <==> x in Flatten(cur)
    ensures forall x :: x in cellList ==> 0 <= x < |g.vertices| && cellList[x] == Sig(g.vertices, cur, x)
  {
    ghost var vs := g.vertices;
    PartitionBounded(cur, |vs|);
    reordered := cur;
    newPart := [];
    cellList := PartAdjacencies(g, cur);
    var c := 0;
    while c < |cur|
      invariant 0 <= c <= |cur| && |reordered| == |cur|
      invariant newPart == SplitUpTo(vs, cur, c)
      invariant forall d :: 0 <= d < c ==> reordered[d] == Flatten(Subcells(vs, cur, d))
    {
      forall k | 0 <= k < |cur[c]|
        ensures cur[c][k] in cellList
      {
        FlattenHas(cur, c, k);
      }
      var keys := Lookup(cellList, cur[c]);
      assert keys == CellSigs(vs, cur, cur[c]);
      var subcells := GroupByKey(SigLess, cur[c], keys);
      reordered := reordered[c := Flatten(subcells)];
      newPart := newPart + subcells;
      c := c + 1;
    }
  }

  /** Refinement passes until one adds no cell, then the closing sort. */
  method Quotient(g: Graph, part0: Partition) returns (part: Partition)
    requires IsPartition(part0, |g.vertices|)
    ensures part == QuotientOf(g.vertices, part0)
  {
    var vs := g.vertices;
    part := part0;
    var refined := false;
    var cellList: map<int, Signature> := map[];
    while !refined
      invariant IsPartition(part, |vs|)
      invariant !refined ==> Refine(vs, part) == Refine(vs, part0)
      invariant refined ==> part == Refine(vs, part0)
      invariant refined ==> forall x :: x in Flatten(part) ==>
        x in cellList && 0 <= x < |vs| && cellList[x] == Sig(vs, part, x)
      decreases |vs| - |part| + (if refined then 0 else 1)
    {
      SplitSpec(vs, part);
      PartitionSize(Split(vs, part), |vs|);
      var reordered, newPart;
      reordered, newPart, cellList := Pass(g, part);
      if |newPart| == |part| {
        assert reordered == part;
        refined := true;
      } else {
        part := newPart;
      }
    }
    PartitionBounded(part, |vs|);
    forall c | 0 <= c < |part|
      ensures part[c][0] in Flatten(part)
    {
      FlattenHas(part, c, 0);
    }
    part := SortByStandard(vs, part, cellList);
  }

  // ---------------------------------------------------------------------
  // terminal: specification

  /** Python's `<` on signature lists. */
  function OutcomeLess(a: seq<Signature>, b: seq<Signature>): bool
  {
    Lex(SigLess, a, b)
  }

  lemma OutcomeOrder()
    ensures StrictTotal(OutcomeLess)
  {
    SigOrder();
    LexStrictTotal(SigLess);
    var lex := (a: seq<Signature>, b: seq<Signature>) => Lex(SigLess, a, b);
    assert forall a, b :: OutcomeLess(a, b) == lex(a, b);
  }

  /** Trial j on cell i: vertex part[i][j] taken out of its cell into a new
      singleton cell placed just before the rest of the cell; the partition
      it starts from is left as it was. */
  function Individualise(part: Partition, i: int, j: int): (r: Partition)
    requires 0 <= i < |part| && 0 <= j < |part[i]|
  {
    part[..i] + [[part[i][j]], part[i][..j] + part[i][j + 1..]] + part[i + 1..]
  }

  lemma IndividualiseSpec(part: Partition, n: nat, i: int, j: int)
    requires IsPartition(part, n) && 0 <= i < |part| && 0 <= j < |part[i]| && |part[i]| >= 2
    ensures IsPartition(Individualise(part, i, j), n)
    ensures |Individualise(part, i, j)| == |part| + 1
    ensures Individualise(part, i, j)[i] == [part[i][j]]
  {
    var x := part[i][j];
    var rest := part[i][..j] + part[i][j + 1..];
    assert part[i] == part[i][..j] + [x] + part[i][j + 1..];
    FlattenAppend([[x]], [rest]);
    FlattenOne([x]);
    FlattenOne(rest);
    assert [[x], rest] == [[x]] + [rest];
    ReplaceCell(part, n, i, [[x], rest]);
    assert Individualise(part, i, j) == part[..i] + [[x], rest] + part[i + 1..];
  }

  /** The outcome of trial j on cell i: the signature list of the quotient
      of the individualised partition. */
  function Outcome(vs: Lists, part: Partition, i: int, j: int): seq<Signature>
    requires IsPartition(part, |vs|) && 0 <= i < |part| && 0 <= j < |part[i]| && |part[i]| >= 2
  {
    IndividualiseSpec(part, |vs|, i, j);
    QuotientPartition(vs, Individualise(part, i, j));
    SigList(vs, QuotientOf(vs, Individualise(part, i, j)))
  }

  /** The outcome of every trial on cell i, in the cell's order. */
  function Outcomes(vs: Lists, part: Partition, i: int): (r: seq<seq<Signature>>)
    requires IsPartition(part, |vs|) && 0 <= i < |part| && |part[i]| >= 2
    ensures |r| == |part[i]|
  {
    seq(|part[i]|, j requires 0 <= j < |part[i]| => Outcome(vs, part, i, j))
  }

  /** Cell i's members grouped by the outcome of their trial, in ascending
      outcome order. */
  function Trials(vs: Lists, part: Partition, i: int): Partition
    requires IsPartition(part, |vs|) && 0 <= i < |part| && |part[i]| >= 2
  {
    Groups(OutcomeLess, part[i], Outcomes(vs, part, i))
  }

  /** The trials split cell i exactly when their outcomes differ. */
  lemma TrialsOne(vs: Lists, part: Partition, i: int)
    requires IsPartition(part, |vs|) && 0 <= i < |part| && |part[i]| >= 2
    ensures |Trials(vs, part, i)| == 1 <==> AllAgree(Outcomes(vs, part, i))
  {
    OutcomeOrder();
    SortedSetOne(OutcomeLess, Outcomes(vs, part, i));
  }

  /** Every two entries are equal. */
  predicate AllAgree<T(==)>(s: seq<T>)
  {
    forall j, k :: 0 <= j < |s| && 0 <= k < |s| ==> s[j] == s[k]
  }

  /** Replacing cell i by its trial groups keeps a partition. */
  lemma TrialsSpec(vs: Lists, part: Partition, i: int)
    requires IsPartition(part, |vs|) && 0 <= i < |part| && |part[i]| >= 2
    ensures IsPartition(part[..i] + Trials(vs, part, i) + part[i + 1..], |vs|)
    ensures |Trials(vs, part, i)| >= 1
    ensures |part[..i] + Trials(vs, part, i) + part[i + 1..]| <= |vs|
  {
    var outcomes := Outcomes(vs, part, i);
    OutcomeOrder();
    GroupsSpec(OutcomeLess, part[i], outcomes);
    ReplaceCell(part, |vs|, i, Trials(vs, part, i));
    PartitionSize(part[..i] + Trials(vs, part, i) + part[i + 1..], |vs|);
  }

  /** The scan of `terminal` from cell i on: a singleton cell, or one whose
      trials all agree, moves the scan on; otherwise the cell is replaced by
      its trial groups and the scan starts again from the first cell. */
  function TerminalScan(vs: Lists, part: Partition, i: nat): (r: Partition)
    requires IsPartition(part, |vs|) && i <= |part|
    ensures IsPartition(r, |vs|)
    decreases |vs| - |part|, |part| - i
  {
    PartitionSize(part, |vs|);
    if i == |part| then part
    else if |part[i]| == 1 then TerminalScan(vs, part, i + 1)
    else
      TrialsSpec(vs, part, i);
      var subcells := Trials(vs, part, i);
      if |subcells| == 1 then TerminalScan(vs, part, i + 1)
      else TerminalScan(vs, part[..i] + subcells + part[i + 1..], 0)
  }

  /** The result of `terminal`. */
  function TerminalOf(vs: Lists, part: Partition): Partition
    requires IsPartition(part, |vs|)
  {
    var r := TerminalScan(vs, part, 0);
    PartitionBounded(r, |vs|);
    SortCells(vs, r)
  }

  /** Cell i cannot be split by individualisation: it is a singleton or all
      of its trials have the same outcome. */
  ghost predicate Unsplittable(vs: Lists, part: Partition, i: int)
    requires IsPartition(part, |vs|) && 0 <= i < |part|
  {
    |part[i]| == 1 || AllAgree(Outcomes(vs, part, i))
  }

  /** When the scan ends, no cell can be split by individualisation. */
  lemma {:induction false} TerminalScanStable(vs: Lists, part: Partition, i: nat)
    requires IsPartition(part, |vs|) && i <= |part|
    requires forall c :: 0 <= c < i ==> Unsplittable(vs, part, c)
    ensures forall c :: 0 <= c < |TerminalScan(vs, part, i)| ==> Unsplittable(vs, TerminalScan(vs, part, i), c)
    decreases |vs| - |part|, |part| - i, 2
  {
    PartitionSize(part, |vs|);
    if i == |part| {
      assert TerminalScan(vs, part, i) == part;
    } else if |part[i]| == 1 {
      assert Unsplittable(vs, part, i);
      assert TerminalScan(vs, part, i) == TerminalScan(vs, part, i + 1);
      StableNext(vs, part, i);
    } else {
      StableTrials(vs, part, i);
    }
  }

  /** The scan moving on past an unsplittable cell i. */
  lemma {:induction false} StableNext(vs: Lists, part: Partition, i: nat)
    requires IsPartition(part, |vs|) && i < |part|
    requires forall c :: 0 <= c < i ==> Unsplittable(vs, part, c)
    requires Unsplittable(vs, part, i)
    requires TerminalScan(vs, part, i) == TerminalScan(vs, part, i + 1)
    ensures forall c :: 0 <= c < |TerminalScan(vs, part, i)| ==> Unsplittable(vs, TerminalScan(vs, part, i), c)
    decreases |vs| - |part|, |part| - i, 0
  {
    PartitionSize(part, |vs|);
    StableUpTo(vs, part, i);
    TerminalScanStable(vs, part, i + 1);
  }

  /** The scan at a cell i of two or more members. */
  lemma {:induction false} StableTrials(vs: Lists, part: Partition, i: nat)
    requires IsPartition(part, |vs|) && i < |part| && |part[i]| >= 2
    requires forall c :: 0 <= c < i ==> Unsplittable(vs, part, c)
    ensures forall c :: 0 <= c < |TerminalScan(vs, part, i)| ==> Unsplittable(vs, TerminalScan(vs, part, i), c)
    decreases |vs| - |part|, |part| - i, 1
  {
    PartitionSize(part, |vs|);
    TrialsSpec(vs, part, i);
    TrialsOne(vs, part, i);
    if |Trials(vs, part, i)| == 1 {
      assert Unsplittable(vs, part, i);
      assert TerminalScan(vs, part, i) == TerminalScan(vs, part, i + 1);
      StableNext(vs, part, i);
    } else {
      var next := part[..i] + Trials(vs, part, i) + part[i + 1..];
      assert TerminalScan(vs, part, i) == TerminalScan(vs, next, 0);
      TerminalScanStable(vs, next, 0);
    }
  }

  lemma StableUpTo(vs: Lists, part: Partition, i: nat)
    requires IsPartition(part, |vs|) && i < |part|
    requires forall c :: 0 <= c < i ==> Unsplittable(vs, part, c)
    requires Unsplittable(vs, part, i)
    ensures forall c :: 0 <= c < i + 1 ==> Unsplittable(vs, part, c)
  {
  }

  /** The scan only splits cells. */
  lemma {:induction false} TerminalScanRefines(vs: Lists, part: Partition, i: nat)
    requires IsPartition(part, |vs|) && i <= |part|
    ensures Refines(TerminalScan(vs, part, i), part)
    ensures |TerminalScan(vs, part, i)| >= |part|
    decreases |vs| - |part|, |part| - i
  {
    PartitionSize(part, |vs|);
    if i == |part| {
      RefinesSelf(part);
    } else if |part[i]| == 1 {
      TerminalScanRefines(vs, part, i + 1);
    } else {
      TrialsSpec(vs, part, i);
      var subcells := Trials(vs, part, i);
      if |subcells| == 1 {
        TerminalScanRefines(vs, part, i + 1);
      } else {
        var next := part[..i] + subcells + part[i + 1..];
        TerminalScanRefines(vs, next, 0);
        TrialsRefine(vs, part, i);
        RefinesTransitive(TerminalScan(vs, next, 0), next, part);
      }
    }
  }

  /** The trial groups lie within the cell they replace. */
  lemma TrialsRefine(vs: Lists, part: Partition, i: int)
    requires IsPartition(part, |vs|) && 0 <= i < |part| && |part[i]| >= 2
    ensures Refines(part[..i] + Trials(vs, part, i) + part[i + 1..], part)
  {
    GroupsWithin(OutcomeLess, part[i], Outcomes(vs, part, i));
    ReplaceRefines(part, i, Trials(vs, part, i));
  }

  /** Replacing cell i by cells within it refines the partition. */
  lemma ReplaceRefines(part: Partition, i: int, subs: Partition)
    requires 0 <= i < |part|
    requires forall t, x :: 0 <= t < |subs| && x in subs[t] ==> x in part[i]
    ensures Refines(part[..i] + subs + part[i + 1..], part)
  {
    var next := part[..i] + subs + part[i + 1..];
    forall d, x, y | 0 <= d < |next| && x in next[d] && y in next[d]
      ensures SameCell(part, x, y)
    {
      var c := if d < i then d else if d < i + |subs| then i else d - |subs| + 1;
      if d < i {
        assert next[d] == part[c];
      } else if d < i + |subs| {
        assert next[d] == subs[d - i];
      } else {
        assert next[d] == part[c];
      }
      assert x in part[c] && y in part[c];
    }
  }

  /** `terminal` returns a partition refining its input whose cells, before
      the closing sort, cannot be split by individualisation. */
  lemma TerminalSpec(vs: Lists, part: Partition)
    requires IsPartition(part, |vs|)
    ensures IsPartition(TerminalOf(vs, part), |vs|) && Bounded(TerminalOf(vs, part), |vs|)
    ensures Refines(TerminalOf(vs, part), part)
    ensures |TerminalOf(vs, part)| >= |part|
    ensures forall c :: 0 <= c < |TerminalScan(vs, part, 0)| ==> Unsplittable(vs, TerminalScan(vs, part, 0), c)
    ensures multiset(TerminalOf(vs, part)) == multiset(TerminalScan(vs, part, 0))
    ensures Bounded(TerminalScan(vs, part, 0), |vs|)
    ensures forall i, j :: 0 <= i < j < |TerminalOf(vs, part)| ==>
      !SigLess(Sig(vs, TerminalScan(vs, part, 0), TerminalOf(vs, part)[j][0]),
               Sig(vs, TerminalScan(vs, part, 0), TerminalOf(vs, part)[i][0]))
  {
    var r := TerminalScan(vs, part, 0);
    TerminalScanStable(vs, part, 0);
    TerminalScanRefines(vs, part, 0);
    SortCellsSpec(vs, r);
    SortCellsCells(vs, r);
    SortCellsOrdered(vs, r);
    RefinesTransitive(TerminalOf(vs, part), r, part);
  }

  // ---------------------------------------------------------------------
  // terminal

  /** One trial: individualise member j of cell i, take the quotient and
      read off its signature list. */
  method Trial(g: Graph, part: Partition, i: int, j: int) returns (outcome: seq<Signature>)
    requires IsPartition(part, |g.vertices|) && 0 <= i < |part| && |part[i]| >= 2
    requires 0 <= j < |part[i]|
    ensures outcome == Outcome(g.vertices, part, i, j)
  {
    var trial := Individualise(part, i, j);
    IndividualiseSpec(part, |g.vertices|, i, j);
    var jthQuotient := Quotient(g, trial);
    QuotientPartition(g.vertices, trial);
    outcome := SignatureList(g, jthQuotient);
  }

  /** The outcome of every trial on cell i (`unique` before it is sorted). */
  method TrialOutcomes(g: Graph, part: Partition, i: int) returns (outcomes: seq<seq<Signature>>)
    requires IsPartition(part, |g.vertices|) && 0 <= i < |part| && |part[i]| >= 2
    ensures outcomes == Outcomes(g.vertices, part, i)
  {
    ghost var vs := g.vertices;
    outcomes := [];
    var j := 0;
    while j < |part[i]|
      invariant 0 <= j <= |part[i]| && |outcomes| == j
      invariant forall k :: 0 <= k < j ==> outcomes[k] == Outcome(vs, part, i, k)
    {
      var outcome := Trial(g, part, i, j);
      outcomes := outcomes + [outcome];
      j := j + 1;
    }
  }

  /** One step of the scan of `terminal` at cell i: move on when the cell is
      a singleton or its trials all agree, otherwise replace it by its trial
      groups and start again from the first cell. */
  method ScanCell(g: Graph, part: Partition, i: nat) returns (next: Partition, j: nat)
    requires IsPartition(part, |g.vertices|) && i < |part|
    ensures IsPartition(next, |g.vertices|) && j <= |next| <= |g.vertices|
    ensures TerminalScan(g.vertices, next, j) == TerminalScan(g.vertices, part, i)
    ensures (next == part && j == i + 1) || (j == 0 && |next| > |part|)
  {
    var vs := g.vertices;
    PartitionSize(part, |vs|);
    if |part[i]| != 1 {
      var unique := TrialOutcomes(g, part, i);
      var distinct := SortedSet(OutcomeLess, unique);
      assert |distinct| == |Trials(vs, part, i)|;
      if |distinct| == 1 {
        next, j := part, i + 1;
      } else {
        var subcells := GroupByKey(OutcomeLess, part[i], unique);
        TrialsSpec(vs, part, i);
        next, j := part[..i] + subcells + part[i + 1..], 0;
      }
    } else {
      next, j := part, i + 1;
    }
  }

  /** Individualisation-refinement: split cells by trial outcomes until the
      scan passes every cell without a split, then the closing sort. */
  method Terminal(g: Graph, part0: Partition) returns (part: Partition)
    requires IsPartition(part0, |g.vertices|)
    ensures part == TerminalOf(g.vertices, part0)
  {
    var vs := g.vertices;
    part := part0;
    var i := 0;
    PartitionSize(part, |vs|);
    while i < |part|
      invariant IsPartition(part, |vs|) && 0 <= i <= |part| <= |vs|
      invariant TerminalScan(vs, part, i) == TerminalScan(vs, part0, 0)
      decreases |vs| - |part|, |part| - i
    {
      part, i := ScanCell(g, part, i);
    }
    PartitionBounded(part, |vs|);
    var cellList := PartAdjacencies(g, part);
    forall c | 0 <= c < |part|
      ensures part[c][0] in Flatten(part)
    {
      FlattenHas(part, c, 0);
    }
    part := SortByStandard(vs, part, cellList);
  }

  // ---------------------------------------------------------------------
  // representative and isomorphic

  /** The comparable invariant: the signature list of the terminal
      partition, and per cell the signature list of the quotient reached by
      individualising that cell's first vertex. */
  datatype Representative = Representative(top: seq<Signature>, cells: seq<seq<Signature>>)

  /** The partition cell c's entry starts from: its first vertex
      individualised when the cell has more than one vertex, the partition
      itself otherwise. */
  function CellTrial(vs: Lists, part: Partition, c: int): (r: Partition)
    requires IsPartition(part, |vs|) && 0 <= c < |part|
    ensures IsPartition(r, |vs|)
  {
    if |part[c]| > 1 then
      IndividualiseSpec(part, |vs|, c, 0);
      Individualise(part, c, 0)
    else part
  }

  /** The entry of cell c. */
  function CellEntry(vs: Lists, part: Partition, c: int): seq<Signature>
    requires IsPartition(part, |vs|) && 0 <= c < |part|
  {
    var trial := CellTrial(vs, part, c);
    QuotientPartition(vs, trial);
    SigList(vs, QuotientOf(vs, trial))
  }

  /** The entries of the first m cells. */
  function CellEntries(vs: Lists, part: Partition, m: nat): (r: seq<seq<Signature>>)
    requires IsPartition(part, |vs|) && m <= |part|
    decreases m
  {
    if m == 0 then [] else CellEntries(vs, part, m - 1) + [CellEntry(vs, part, m - 1)]
  }

  function RepresentativeOf(vs: Lists, part: Partition): Representative
    requires IsPartition(part, |vs|)
  {
    PartitionBounded(part, |vs|);
    Representative(SigList(vs, part), CellEntries(vs, part, |part|))
  }

  /** initPartition, quotient and terminal composed. */
  function TerminalPartition(vs: Lists): (r: Partition)
    ensures IsPartition(r, |vs|)
  {
    InitPartitionSpec(vs);
    var q := QuotientOf(vs, InitPartitionOf(vs));
    QuotientPartition(vs, InitPartitionOf(vs));
    TerminalSpec(vs, q);
    TerminalOf(vs, q)
  }

  /** The representative of the terminal partition. */
  function Canonical(vs: Lists): Representative
  {
    RepresentativeOf(vs, TerminalPartition(vs))
  }

  /** The entry of cell c, computed. */
  method MakeEntry(g: Graph, part: Partition, c: int) returns (entry: seq<Signature>)
    requires IsPartition(part, |g.vertices|) && 0 <= c < |part|
    ensures entry == CellEntry(g.vertices, part, c)
  {
    var newPart := CellTrial(g.vertices, part, c);
    var q := Quotient(g, newPart);
    QuotientPartition(g.vertices, newPart);
    entry := SignatureList(g, q);
  }

  method MakeRepresentative(g: Graph, part: Partition) returns (rep: Representative)
    requires IsPartition(part, |g.vertices|)
    ensures rep == RepresentativeOf(g.vertices, part)
  {
    var vs := g.vertices;
    var vertQuotients: seq<seq<Signature>> := [];
    var c := 0;
    while c < |part|
      invariant 0 <= c <= |part|
      invariant vertQuotients == CellEntries(vs, part, c)
    {
      var entry := MakeEntry(g, part, c);
      vertQuotients := vertQuotients + [entry];
      c := c + 1;
    }
    PartitionBounded(part, |vs|);
    var top := SignatureList(g, part);
    rep := Representative(top, vertQuotients);
  }

  /** The representative of a graph. */
  method CanonicalOf(g: Graph) returns (rep: Representative)
    ensures rep == Canonical(g.vertices)
  {
    var vs := g.vertices;
    var init := InitPartition(g);
    InitPartitionSpec(vs);
    var q := Quotient(g, init);
    QuotientPartition(vs, init);
    var t := Terminal(g, q);
    assert t == TerminalPartition(vs);
    rep := MakeRepresentative(g, t);
  }

  /** Two graphs are declared isomorphic exactly when their representatives
      are equal. */
  method Isomorphic(g1: Graph, g2: Graph) returns (same: bool)
    ensures same <==> Canonical(g1.vertices) == Canonical(g2.vertices)
  {
    var r1 := CanonicalOf(g1);
    var r2 := CanonicalOf(g2);
    same := r1 == r2;
  }

  /** Graphs declared isomorphic have the same number of vertices and the
      same degrees, counted with multiplicity. */
  lemma CanonicalDegrees(vs1: Lists, vs2: Lists)
    requires Simple(vs1) && Simple(vs2) && Canonical(vs1) == Canonical(vs2)
    ensures |vs1| == |vs2|
    ensures multiset(Degrees(vs1)) == multiset(Degrees(vs2))
  {
    var t1 := TerminalPartition(vs1);
    var t2 := TerminalPartition(vs2);
    SigListDegrees(vs1, t1);
    SigListDegrees(vs2, t2);
    assert SigList(vs1, t1) == Canonical(vs1).top == Canonical(vs2).top == SigList(vs2, t2);
    assert Degrees(vs1) == seq(|vs1|, x requires 0 <= x < |vs1| => |vs1[x]|);
    assert Degrees(vs2) == seq(|vs2|, x requires 0 <= x < |vs2| => |vs2[x]|);
  }
}
