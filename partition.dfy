/** Ordered partitions of the vertices of a graph and the signatures of the
    vertices under them: how many neighbours a vertex has in each cell. */
module Partitions {
  import opened Graphs
  import opened Orders

  /** An ordered list of cells of vertex ids. */
  type Partition = seq<seq<int>>

  /** Per cell, the number of a vertex's neighbours in that cell. */
  type Signature = seq<nat>

  /** The ids 0 .. n-1 in order. */
  function Range(n: nat): (r: seq<int>)
    ensures |r| == n && forall i :: 0 <= i < n ==> r[i] == i
  {
    seq(n, i => i)
  }

  /** Every cell is nonempty, and the cells together list each of the
      vertices 0 .. n-1 exactly once. */
  predicate IsPartition(part: Partition, n: nat)
  {
    && (forall c :: 0 <= c < |part| ==> |part[c]| > 0)
    && multiset(Flatten(part)) == multiset(Range(n))
  }

  /** Every id listed is a vertex below n. */
  predicate Bounded(part: Partition, n: nat)
  {
    forall c, k :: 0 <= c < |part| && 0 <= k < |part[c]| ==> 0 <= part[c][k] < n
  }

  // ---------------------------------------------------------------------
  // Flattened partitions

  lemma {:induction false} FlattenHas<E>(part: seq<seq<E>>, c: int, k: int)
    requires 0 <= c < |part| && 0 <= k < |part[c]|
    ensures part[c][k] in Flatten(part)
    decreases |part|
  {
    var n := |part|;
    if c < n - 1 {
      FlattenHas(part[..n - 1], c, k);
    } else {
      assert Flatten(part) == Flatten(part[..n - 1]) + part[c];
    }
  }

  lemma {:induction false} FlattenIn<E>(part: seq<seq<E>>, x: E)
    requires x in Flatten(part)
    ensures exists c, k :: 0 <= c < |part| && 0 <= k < |part[c]| && part[c][k] == x
    decreases |part|
  {
    var n := |part|;
    var front := part[..n - 1];
    if x in Flatten(front) {
      FlattenIn(front, x);
      var c, k :| 0 <= c < |front| && 0 <= k < |front[c]| && front[c][k] == x;
      assert part[c] == front[c];
    } else {
      assert x in part[n - 1];
      var k :| 0 <= k < |part[n - 1]| && part[n - 1][k] == x;
    }
  }

  lemma FlattenOne<E>(cell: seq<E>)
    ensures Flatten([cell]) == cell
  {
    assert [cell][..0] == [];
  }

  /** The bag of a flattened list splits around any one cell. */
  lemma FlattenBag<E>(part: seq<seq<E>>, c: int)
    requires 0 <= c < |part|
    ensures multiset(Flatten(part)) ==
      multiset(Flatten(part[..c])) + multiset(part[c]) + multiset(Flatten(part[c + 1..]))
  {
    var front, x, back := part[..c], part[c], part[c + 1..];
    calc {
      multiset(Flatten(part));
      { assert part[..c + 1] == front + [x];
        assert part == part[..c + 1] + back; }
      multiset(Flatten(front + [x] + back));
      { FlattenAppend(front + [x], back); }
      multiset(Flatten(front + [x]) + Flatten(back));
      { FlattenAppend(front, [x]); FlattenOne(x); }
      multiset(Flatten(front) + x + Flatten(back));
    }
  }

  /** The last entry of a occurs somewhere in b, a rearrangement of a; the
      rest of a is a rearrangement of b without that occurrence. */
  lemma RemoveLast<E>(a: seq<E>, b: seq<E>) returns (j: int)
    requires |a| > 0 && multiset(a) == multiset(b)
    ensures 0 <= j < |b| && b[j] == a[|a| - 1]
    ensures multiset(a[..|a| - 1]) == multiset(b[..j] + b[j + 1..])
  {
    var n := |a|;
    var last := a[n - 1];
    assert a == a[..n - 1] + [last];
    assert last in multiset(b);
    j :| 0 <= j < |b| && b[j] == last;
    assert b == b[..j] + [b[j]] + b[j + 1..];
    assert multiset(b[..j] + b[j + 1..]) == multiset(b) - multiset{last};
  }

  /** Flattening one more cell of a prefix adds that cell's members. */
  lemma FlattenPrefix<E>(part: seq<seq<E>>, m: nat)
    requires 0 < m <= |part|
    ensures multiset(Flatten(part[..m])) == multiset(Flatten(part[..m - 1])) + multiset(part[m - 1])
  {
    assert part[..m][..m - 1] == part[..m - 1];
  }

  /** Lists of cells with the same bag of cells flatten to the same bag. */
  lemma {:induction false} FlattenPerm<E>(a: seq<seq<E>>, b: seq<seq<E>>)
    requires multiset(a) == multiset(b)
    ensures multiset(Flatten(a)) == multiset(Flatten(b))
    decreases |a|
  {
    if |a| == 0 {
      assert |b| == |multiset(b)| == 0;
    } else {
      var n := |a|;
      var j := RemoveLast(a, b);
      var rest := b[..j] + b[j + 1..];
      FlattenPerm(a[..n - 1], rest);
      calc {
        multiset(Flatten(b));
        { FlattenBag(b, j); }
        multiset(Flatten(b[..j])) + multiset(b[j]) + multiset(Flatten(b[j + 1..]));
        { FlattenAppend(b[..j], b[j + 1..]); }
        multiset(Flatten(rest)) + multiset(a[n - 1]);
        multiset(Flatten(a[..n - 1])) + multiset(a[n - 1]);
        { assert a == a[..n - 1] + [a[n - 1]]; }
        multiset(Flatten(a));
      }
    }
  }

  /** A list in which nothing occurs twice has no repeated entries. */
  lemma BagNoDup(s: seq<int>)
    requires forall x :: multiset(s)[x] <= 1
    ensures NoDup(s)
  {
    forall i, j | 0 <= i < j < |s|
      ensures s[i] != s[j]
    {
      BagTwice(s, i, j);
    }
  }

  lemma BagTwice(s: seq<int>, i: int, j: int)
    requires 0 <= i < j < |s|
    ensures s[i] == s[j] ==> multiset(s)[s[i]] >= 2
  {
    assert s == s[..j] + s[j..];
    assert s[i] in s[..j] && s[j] in s[j..];
  }

  // ---------------------------------------------------------------------
  // Partitions

  /** A partition lists only vertices below n. */
  lemma PartitionBounded(part: Partition, n: nat)
    requires IsPartition(part, n)
    ensures Bounded(part, n)
    ensures forall x :: x in Flatten(part) ==> 0 <= x < n
  {
    forall x | x in Flatten(part)
      ensures 0 <= x < n
    {
      assert x in multiset(Range(n));
    }
    forall c, k | 0 <= c < |part| && 0 <= k < |part[c]|
      ensures 0 <= part[c][k] < n
    {
      FlattenHas(part, c, k);
    }
  }

  /** Every vertex below n lies in some cell. */
  lemma PartitionCovers(part: Partition, n: nat, x: int)
    requires IsPartition(part, n) && 0 <= x < n
    ensures exists c, k :: 0 <= c < |part| && 0 <= k < |part[c]| && part[c][k] == x
  {
    assert Range(n)[x] == x;
    assert x in multiset(Flatten(part));
    FlattenIn(part, x);
  }

  /** No vertex lies in two cells. */
  lemma PartitionUnique(part: Partition, n: nat, c: int, d: int, x: int)
    requires IsPartition(part, n) && 0 <= c < |part| && 0 <= d < |part|
    requires x in part[c] && x in part[d]
    ensures c == d
  {
    RangeOnce(n, x);
    if c < d {
      TwoCells(part, c, d, x);
    } else if d < c {
      TwoCells(part, d, c, x);
    }
  }

  lemma TwoCells<E>(part: seq<seq<E>>, c: int, d: int, x: E)
    requires 0 <= c < d < |part|
    ensures x in part[c] && x in part[d] ==> multiset(Flatten(part))[x] >= 2
  {
    FlattenBag(part, d);
    FlattenBag(part[..d], c);
    assert part[..d][c] == part[c];
  }

  lemma {:induction false} RangeOnce(n: nat, x: int)
    ensures multiset(Range(n))[x] == if 0 <= x < n then 1 else 0
    decreases n
  {
    if n > 0 {
      RangeOnce(n - 1, x);
      assert Range(n) == Range(n - 1) + [n - 1];
    }
  }

  lemma PartitionNoDup(part: Partition, n: nat, c: int)
    requires IsPartition(part, n) && 0 <= c < |part|
    ensures NoDup(part[c])
  {
    FlattenBag(part, c);
    forall x
      ensures multiset(part[c])[x] <= 1
    {
      RangeOnce(n, x);
    }
    BagNoDup(part[c]);
  }

  lemma {:induction false} FlattenLength<E>(part: seq<seq<E>>)
    requires forall c :: 0 <= c < |part| ==> |part[c]| > 0
    ensures |Flatten(part)| >= |part|
    decreases |part|
  {
    if |part| > 0 {
      FlattenLength(part[..|part| - 1]);
    }
  }

  /** A partition of n vertices has at most n cells. */
  lemma PartitionSize(part: Partition, n: nat)
    requires IsPartition(part, n)
    ensures |part| <= n
  {
    FlattenLength(part);
    assert |Flatten(part)| == |multiset(Flatten(part))| == |multiset(Range(n))| == n;
  }

  /** Replacing cell i by cells holding the same vertices keeps a partition. */
  lemma ReplaceCell(part: Partition, n: nat, i: int, cells: Partition)
    requires IsPartition(part, n) && 0 <= i < |part|
    requires forall c :: 0 <= c < |cells| ==> |cells[c]| > 0
    requires multiset(Flatten(cells)) == multiset(part[i])
    ensures IsPartition(part[..i] + cells + part[i + 1..], n)
  {
    var r := part[..i] + cells + part[i + 1..];
    FlattenAppend(part[..i] + cells, part[i + 1..]);
    FlattenAppend(part[..i], cells);
    FlattenBag(part, i);
    forall c | 0 <= c < |r|
      ensures |r[c]| > 0
    {
      if c < i {
        assert r[c] == part[c];
      } else if c < i + |cells| {
        assert r[c] == cells[c - i];
      } else {
        assert r[c] == part[c - |cells| + 1];
      }
    }
  }

  // ---------------------------------------------------------------------
  // Signatures

  /** The number of entries of cell that are in row: `index` succeeds for
      each of them. */
  function Count(row: seq<int>, cell: seq<int>): nat
    decreases |cell|
  {
    if |cell| == 0 then 0
    else Count(row, cell[..|cell| - 1]) + (if cell[|cell| - 1] in row then 1 else 0)
  }

  /** The signature of vertex x: entry c counts x's neighbours in cell c. */
  function Sig(vs: Lists, part: Partition, x: int): (r: Signature)
    requires 0 <= x < |vs|
    ensures |r| == |part|
  {
    seq(|part|, c requires 0 <= c < |part| => Count(vs[x], part[c]))
  }

  /** The signatures of all vertices, in partition order. */
  function SigList(vs: Lists, part: Partition): (r: seq<Signature>)
    requires Bounded(part, |vs|)
    ensures |r| == |Flatten(part)|
  {
    FlattenBounded(part, |vs|);
    var order := Flatten(part);
    seq(|order|, p requires 0 <= p < |order| => Sig(vs, part, order[p]))
  }

  lemma FlattenBounded(part: Partition, n: nat)
    requires Bounded(part, n)
    ensures forall x :: x in Flatten(part) ==> 0 <= x < n
    ensures forall p :: 0 <= p < |Flatten(part)| ==> 0 <= Flatten(part)[p] < n
  {
    forall x | x in Flatten(part)
      ensures 0 <= x < n
    {
      FlattenIn(part, x);
    }
  }

  /** Every two vertices sharing a cell have the same signature. */
  predicate Equitable(vs: Lists, part: Partition)
    requires Bounded(part, |vs|)
  {
    forall c, k, l :: 0 <= c < |part| && 0 <= k < |part[c]| && 0 <= l < |part[c]| ==>
      Sig(vs, part, part[c][k]) == Sig(vs, part, part[c][l])
  }

  function Sum(s: seq<nat>): nat
    decreases |s|
  {
    if |s| == 0 then 0 else Sum(s[..|s| - 1]) + s[|s| - 1]
  }

  lemma {:induction false} CountAppend(row: seq<int>, a: seq<int>, b: seq<int>)
    ensures Count(row, a + b) == Count(row, a) + Count(row, b)
    decreases |b|
  {
    if |b| == 0 {
      assert a + b == a;
    } else {
      CountAppend(row, a, b[..|b| - 1]);
      assert (a + b)[..|a + b| - 1] == a + b[..|b| - 1];
    }
  }

  /** The counts over the cells add up to the count over their concatenation. */
  lemma {:induction false} CountCells(row: seq<int>, part: Partition)
    ensures Sum(seq(|part|, c requires 0 <= c < |part| => Count(row, part[c]))) == Count(row, Flatten(part))
    decreases |part|
  {
    var counts := seq(|part|, c requires 0 <= c < |part| => Count(row, part[c]));
    if |part| > 0 {
      var front := part[..|part| - 1];
      CountCells(row, front);
      assert counts[..|counts| - 1] == seq(|front|, c requires 0 <= c < |front| => Count(row, front[c]));
      CountAppend(row, Flatten(front), part[|part| - 1]);
    }
  }

  /** The count only depends on the bag of the cell. */
  lemma {:induction false} CountPerm(row: seq<int>, a: seq<int>, b: seq<int>)
    requires multiset(a) == multiset(b)
    ensures Count(row, a) == Count(row, b)
    decreases |a|
  {
    if |a| == 0 {
      assert |b| == |multiset(b)| == 0;
    } else {
      var n := |a|;
      var j := RemoveLast(a, b);
      var rest := b[..j] + b[j + 1..];
      CountPerm(row, a[..n - 1], rest);
      CountRemove(row, b, j);
    }
  }

  /** Taking one entry out of a cell takes its contribution out of the count. */
  lemma CountRemove(row: seq<int>, b: seq<int>, j: int)
    requires 0 <= j < |b|
    ensures Count(row, b) == Count(row, b[..j] + b[j + 1..]) + (if b[j] in row then 1 else 0)
  {
    assert b == b[..j] + [b[j]] + b[j + 1..];
    CountAppend(row, b[..j] + [b[j]], b[j + 1..]);
    CountAppend(row, b[..j], [b[j]]);
    CountAppend(row, b[..j], b[j + 1..]);
    assert [b[j]][..0] == [];
  }

  /** Rows that agree on the members of a cell count the same. */
  lemma {:induction false} CountAgree(row: seq<int>, row': seq<int>, cell: seq<int>)
    requires forall y :: y in cell ==> (y in row <==> y in row')
    ensures Count(row, cell) == Count(row', cell)
    decreases |cell|
  {
    if |cell| > 0 {
      var last := cell[|cell| - 1];
      assert last in cell;
      assert last in row <==> last in row';
      CountAgree(row, row', cell[..|cell| - 1]);
    }
  }

  /** A list of distinct vertices below n meets 0 .. n-1 once per entry. */
  lemma {:induction false} CountRange(row: seq<int>, n: nat)
    requires NoDup(row) && forall y :: y in row ==> 0 <= y < n
    ensures Count(row, Range(n)) == |row|
    decreases n
  {
    if n == 0 {
      assert |row| > 0 ==> Head(row) in row;
      if |row| > 0 {
        assert false;
      }
    } else {
      assert Range(n)[..n - 1] == Range(n - 1);
      if n - 1 in row {
        RemoveFirstMembers(row, n - 1);
        var rest := RemoveFirst(row, n - 1);
        CountRange(rest, n - 1);
        CountAgree(row, rest, Range(n - 1));
      } else {
        CountRange(row, n - 1);
      }
    }
  }

  /** The entries of a signature add up to the vertex's degree. */
  lemma SigSum(vs: Lists, part: Partition, x: int)
    requires Simple(vs) && IsPartition(part, |vs|) && 0 <= x < |vs|
    ensures Sum(Sig(vs, part, x)) == |vs[x]|
  {
    CountCells(vs[x], part);
    CountPerm(vs[x], Flatten(part), Range(|vs|));
    forall y | y in vs[x]
      ensures 0 <= y < |vs|
    {
      var i :| 0 <= i < |vs[x]| && vs[x][i] == y;
    }
    CountRange(vs[x], |vs|);
  }

  /** The entries of d at the positions s, in that order (0 for a
      position outside d). */
  function Pick(d: seq<nat>, s: seq<int>): (r: seq<nat>)
    ensures |r| == |s|
    ensures forall p :: 0 <= p < |s| && 0 <= s[p] < |d| ==> r[p] == d[s[p]]
  {
    seq(|s|, p requires 0 <= p < |s| => if 0 <= s[p] < |d| then d[s[p]] else 0)
  }

  lemma PickAppend(d: seq<nat>, a: seq<int>, b: seq<int>)
    ensures Pick(d, a + b) == Pick(d, a) + Pick(d, b)
  {
  }

  /** Removing one position from a picking removes its entry from the bag. */
  lemma PickRemove(d: seq<nat>, t: seq<int>, j: int)
    requires 0 <= j < |t|
    ensures multiset(Pick(d, t)) == multiset(Pick(d, t[..j] + t[j + 1..])) + multiset(Pick(d, [t[j]]))
  {
    assert t == t[..j] + [t[j]] + t[j + 1..];
    PickAppend(d, t[..j] + [t[j]], t[j + 1..]);
    PickAppend(d, t[..j], [t[j]]);
    PickAppend(d, t[..j], t[j + 1..]);
  }

  /** Picking along two arrangements of the same positions picks the same
      bag of entries. */
  lemma {:induction false} PickPerm(d: seq<nat>, s: seq<int>, t: seq<int>)
    requires multiset(s) == multiset(t)
    ensures multiset(Pick(d, s)) == multiset(Pick(d, t))
    decreases |s|
  {
    if |s| == 0 {
      assert |t| == |multiset(t)| == 0;
    } else {
      var n := |s|;
      var front := s[..n - 1];
      var j := RemoveLast(s, t);
      PickPerm(d, front, t[..j] + t[j + 1..]);
      assert s == front + [s[n - 1]];
      PickAppend(d, front, [s[n - 1]]);
      PickRemove(d, t, j);
    }
  }

  /** The signature list of a partition of a simple graph lists, entry by
      entry, the degrees of all vertices: summed, its entries are a
      rearrangement of the degree sequence. */
  lemma SigListDegrees(vs: Lists, part: Partition)
    requires Simple(vs) && IsPartition(part, |vs|)
    ensures Bounded(part, |vs|)
    ensures |SigList(vs, part)| == |vs|
    ensures multiset(seq(|vs|, p requires 0 <= p < |vs| => Sum(SigList(vs, part)[p])))
      == multiset(seq(|vs|, x requires 0 <= x < |vs| => |vs[x]|))
  {
    PartitionBounded(part, |vs|);
    FlattenBounded(part, |vs|);
    var order := Flatten(part);
    var degs := seq(|vs|, x requires 0 <= x < |vs| => |vs[x]|);
    var sl := SigList(vs, part);
    assert |order| == |multiset(order)| == |multiset(Range(|vs|))| == |vs|;
    forall p | 0 <= p < |vs|
      ensures Sum(sl[p]) == degs[order[p]]
    {
      assert order[p] in order;
      SigSum(vs, part, order[p]);
    }
    PickPerm(degs, order, Range(|vs|));
    assert Pick(degs, Range(|vs|)) == degs;
    assert forall p :: 0 <= p < |vs| ==> 0 <= order[p] < |degs|;
    assert seq(|vs|, p requires 0 <= p < |vs| => Sum(sl[p])) == Pick(degs, order);
  }
}
