/** The degree-sequence enumerator. `genSpecs` sorts the integers below 2^v
    into buckets by their number of one-bits; `genValid` searches for every
    upper triangle of an adjacency matrix that realises a degree sequence,
    each row written as an integer whose bit (v - j - 1) says whether the
    row's vertex is joined to vertex j; `individual` decodes such a
    description into a graph; `genBiClass` runs the search for a sequence
    with two distinct degrees. */
module Generator {
  import opened Bits
  import opened Graphs

  // ---------------------------------------------------------------------
  // genSpecs

  /** The integers below n with exactly k one-bits, in ascending order. */
  function Bucket(k: nat, n: nat): seq<nat>
  {
    if n == 0 then []
    else Bucket(k, n - 1) + (if PopCount(n - 1) == k then [n - 1] else [])
  }

  /** What `genSpecs(v)` returns: bucket k lists the integers below 2^v with k one-bits. */
  function Buckets(v: nat): (r: seq<seq<nat>>)
    ensures |r| == v + 1
  {
    seq(v + 1, k requires 0 <= k <= v => Bucket(k, Pow2(v)))
  }

  predicate Ascending(s: seq<nat>)
  {
    forall i, j :: 0 <= i < j < |s| ==> s[i] < s[j]
  }

  /** A bucket holds exactly the integers below n with k one-bits, ascending. */
  lemma {:induction false} BucketMembers(k: nat, n: nat)
    ensures Ascending(Bucket(k, n))
    ensures forall x: nat :: x in Bucket(k, n) <==> x < n && PopCount(x) == k
    decreases n
  {
    if n > 0 {
      BucketMembers(k, n - 1);
      var b := Bucket(k, n - 1);
      forall i | 0 <= i < |b|
        ensures b[i] < n - 1
      {
        assert b[i] in b;
      }
    }
  }

  /** Every number below 2^v lands in the bucket of its bit count, which is
      at most v, and each bucket is ascending. */
  lemma BucketsSpec(v: nat)
    ensures forall k :: 0 <= k <= v ==> Ascending(Buckets(v)[k])
    ensures forall k, x: nat :: 0 <= k <= v ==> (x in Buckets(v)[k] <==> x < Pow2(v) && PopCount(x) == k)
    ensures forall x: nat :: x < Pow2(v) ==> PopCount(x) <= v
  {
    forall k | 0 <= k <= v
      ensures Ascending(Buckets(v)[k])
      ensures forall x: nat :: x in Buckets(v)[k] <==> x < Pow2(v) && PopCount(x) == k
    {
      BucketMembers(k, Pow2(v));
    }
    forall x: nat | x < Pow2(v)
      ensures PopCount(x) <= v
    {
      PopCountBelow(x, v);
    }
  }

  /** `genSpecs(v)`: for each i below 2^v, append i to bucket bitCount(i),
      with the count taken 32 bits at a time so that it is right for every v. */
  method GenSpecs(v: nat) returns (specs: seq<seq<nat>>)
    ensures specs == Buckets(v)
  {
    specs := seq(v + 1, _ => []);
    var top := Pow2(v);
    var i := 0;
    while i < top
      invariant 0 <= i <= top
      invariant |specs| == v + 1
      invariant forall k :: 0 <= k <= v ==> specs[k] == Bucket(k, i)
    {
      PopCountBelow(i, v);
      var b := ChunkedBitCount(i);
      specs := specs[b := specs[b] + [i]];
      i := i + 1;
    }
  }

  // ---------------------------------------------------------------------
  // individual

  /** The vertices j in (i, n) that row i of description d joins vertex i
      to: those whose bit (v - j - 1) is set in d[i], ascending. */
  function TargetsBelow(v: nat, d: seq<nat>, i: nat, n: nat): (r: seq<int>)
    requires i < |d| < v && n <= |d| + 1
    ensures forall j :: j in r <==> i < j < n && Bit(d[i], v - j - 1) == 1
    ensures forall k :: 0 <= k < |r| ==> i < r[k] < n
    decreases n
  {
    if n <= i + 1 then []
    else TargetsBelow(v, d, i, n - 1) + (if Bit(d[i], v - n) == 1 then [n - 1] else [])
  }

  /** For each row i of the description, the vertices above i it joins i to. */
  function Targets(v: nat, d: seq<nat>): (r: Lists)
    requires |d| < v
    ensures |r| == |d| && InRange(r, v)
  {
    var r := seq(|d|, i requires 0 <= i < |d| => TargetsBelow(v, d, i, |d| + 1));
    assert InRange(r, v) by {
      forall u, k | 0 <= u < |r| && 0 <= k < |r[u]|
        ensures 0 <= r[u][k] < v
      {
        assert r[u][k] in r[u];
      }
    }
    r
  }

  /** Row x of the targets lists exactly the vertices above x whose bit is
      set in d[x]. */
  lemma TargetsSpec(v: nat, d: seq<nat>)
    requires |d| < v
    ensures forall x :: 0 <= x < |d| ==> x !in Targets(v, d)[x]
    ensures forall x, y :: 0 <= x < |d| ==> (y in Targets(v, d)[x] <==> x < y <= |d| && Bit(d[x], v - y - 1) == 1)
  {
    var r := Targets(v, d);
    forall x | 0 <= x < |d|
      ensures r[x] == TargetsBelow(v, d, x, |d| + 1)
    {
    }
  }

  /** The lists of `individual(v, d)`: addEdge(i, j) for each row i and each
      target j of it, in loop order. */
  function IndividualRows(v: nat, d: seq<nat>): (r: Lists)
    requires |d| < v
    ensures |r| == v
  {
    CopyRows(Targets(v, d), |d|, v)
  }

  /** `individual` joins i < j exactly when bit (v - j - 1) of d[i] is set. */
  predicate Edge(v: nat, d: seq<nat>, a: int, b: int)
    requires |d| < v
  {
    || (0 <= a < b <= |d| && Bit(d[a], v - b - 1) == 1)
    || (0 <= b < a <= |d| && Bit(d[b], v - a - 1) == 1)
  }

  /** `individual(v, d)`: a graph of v vertices with addEdge(i, j) whenever
      bit (v - j - 1) of d[i] is set, for i < j <= len(d). */
  method Individual(v: nat, d: seq<nat>) returns (g: Graph)
    requires |d| < v
    ensures fresh(g) && g.size == v && g.Valid()
    ensures g.vertices == IndividualRows(v, d)
  {
    g := new Graph(v);
    var t := Targets(v, d);
    var i := 0;
    while i < |d|
      invariant 0 <= i <= |d|
      invariant g.Valid() && g.size == v && g.vertices == CopyRows(t, i, v)
    {
      JoinRow(g, v, d, i);
      assert t[i] == TargetsBelow(v, d, i, |d| + 1);
      assert CopyRows(t, i + 1, v) == AddRow(CopyRows(t, i, v), i, t[i]);
      i := i + 1;
    }
  }

  /** The inner loop of `individual` for row i: addEdge(i, j) for each j in
      (i, len(d)] whose bit (v - j - 1) is set in d[i], in ascending order. */
  method JoinRow(g: Graph, v: nat, d: seq<nat>, i: nat)
    requires g.Valid() && i < |d| < v && |g.vertices| == v
    modifies g
    ensures g.Valid() && g.size == old(g.size)
    ensures g.vertices == AddRow(old(g.vertices), i, TargetsBelow(v, d, i, |d| + 1))
  {
    ghost var acc := g.vertices;
    var j := i + 1;
    while j < |d| + 1
      invariant i + 1 <= j <= |d| + 1
      invariant g.Valid() && g.size == old(g.size)
      invariant g.vertices == Joined(acc, v, d, i, j)
    {
      if Bit(d[i], v - j - 1) == 1 {
        g.AddEdge(i, j);
      }
      j := j + 1;
    }
    JoinedRow(acc, v, d, i, |d| + 1);
  }

  /** The lists after the inner loop of `individual` has visited i+1 .. n-1. */
  ghost function Joined(acc: Lists, v: nat, d: seq<nat>, i: nat, n: nat): (r: Lists)
    requires i < |d| < v && n <= |d| + 1 && |acc| == v
    ensures |r| == v
    decreases n
  {
    if n <= i + 1 then acc
    else
      var prev := Joined(acc, v, d, i, n - 1);
      if Bit(d[i], v - n) == 1 then WithEdge(prev, i, n - 1) else prev
  }

  /** The inner loop adds row i's targets, as `AddRow` does. */
  lemma {:induction false} JoinedRow(acc: Lists, v: nat, d: seq<nat>, i: nat, n: nat)
    requires i < |d| < v && n <= |d| + 1 && |acc| == v
    ensures Joined(acc, v, d, i, n) == AddRow(acc, i, TargetsBelow(v, d, i, n))
    decreases n
  {
    if n > i + 1 {
      JoinedRow(acc, v, d, i, n - 1);
      var prefix := TargetsBelow(v, d, i, n - 1);
      if Bit(d[i], v - n) == 1 {
        assert TargetsBelow(v, d, i, n) == prefix + [n - 1];
        assert (prefix + [n - 1])[..|prefix|] == prefix;
      } else {
        assert TargetsBelow(v, d, i, n) == prefix;
      }
    }
  }

  lemma IndividualValid(v: nat, d: seq<nat>)
    requires |d| < v
    ensures InRange(IndividualRows(v, d), v)
  {
    CopyInRange(Targets(v, d), v);
  }

  /** Every neighbour in `individual(v, d)` was joined by the description. */
  lemma IndividualEdgeSound(v: nat, d: seq<nat>, a: int, b: int)
    requires |d| < v && 0 <= a < v && 0 <= b < v
    requires b in IndividualRows(v, d)[a]
    ensures Edge(v, d, a, b)
  {
    CopyRowsMember(Targets(v, d), |d|, v, a, b);
    TargetEdge(v, d, a, b);
  }

  lemma TargetEdge(v: nat, d: seq<nat>, a: int, b: int)
    requires |d| < v && 0 <= a < v && 0 <= b < v
    requires (a < |d| && b in Targets(v, d)[a]) || (0 <= b < |d| && a in Targets(v, d)[b])
    ensures Edge(v, d, a, b)
  {
    TargetsSpec(v, d);
  }

  /** Every pair the description joins is adjacent in `individual(v, d)`. */
  lemma IndividualEdgeComplete(v: nat, d: seq<nat>, a: int, b: int)
    requires |d| < v && 0 <= a < v && 0 <= b < v
    requires Edge(v, d, a, b)
    ensures b in IndividualRows(v, d)[a]
  {
    var t := Targets(v, d);
    TargetsSpec(v, d);
    if a < b {
      assert b in t[a];
      var k :| 0 <= k < |t[a]| && t[a][k] == b;
      CopyRowsHas(t, |d|, v, a, k);
    } else {
      assert a in t[b];
      var k :| 0 <= k < |t[b]| && t[b][k] == a;
      CopyRowsHas(t, |d|, v, b, k);
    }
  }

  /** `individual(v, d)` is a simple graph in which a ~ b exactly when the
      description joins them. */
  lemma IndividualAdjacency(v: nat, d: seq<nat>)
    requires |d| < v
    ensures Simple(IndividualRows(v, d))
    ensures forall a, b :: 0 <= a < v && 0 <= b < v ==>
      (b in IndividualRows(v, d)[a] <==> Edge(v, d, a, b))
  {
    var r := IndividualRows(v, d);
    TargetsSpec(v, d);
    CopyRowsAdjacency(Targets(v, d), |d|, v);
    forall a, b | 0 <= a < v && 0 <= b < v
      ensures b in r[a] <==> Edge(v, d, a, b)
    {
      if b in r[a] {
        IndividualEdgeSound(v, d, a, b);
      }
      if Edge(v, d, a, b) {
        IndividualEdgeComplete(v, d, a, b);
      }
    }
    forall a, k | 0 <= a < v && 0 <= k < |r[a]|
      ensures 0 <= r[a][k] < v
    {
      assert r[a][k] in r[a];
    }
  }

  // ---------------------------------------------------------------------
  // Degrees of a description

  /** The number of b < n that description d joins to a. */
  function DegBelow(v: nat, d: seq<nat>, a: int, n: nat): nat
    requires |d| < v
  {
    if n == 0 then 0
    else DegBelow(v, d, a, n - 1) + (if Edge(v, d, a, n - 1) then 1 else 0)
  }

  /** The degree of vertex a in the graph described by d. */
  function Degree(v: nat, d: seq<nat>, a: int): nat
    requires |d| < v
  {
    DegBelow(v, d, a, v)
  }

  /** A duplicate-free list of exactly the vertices below n joined to a is
      DegBelow(n) long. */
  lemma {:induction false} CountRow(row: seq<int>, v: nat, d: seq<nat>, a: int, n: nat)
    requires |d| < v && NoDup(row)
    requires forall b :: b in row <==> 0 <= b < n && Edge(v, d, a, b)
    ensures |row| == DegBelow(v, d, a, n)
    decreases n
  {
    if n == 0 {
      assert |row| > 0 ==> Head(row) in row;
      if |row| > 0 {
        assert false;
      }
    } else if Edge(v, d, a, n - 1) {
      var rest := RemoveFirst(row, n - 1);
      RemoveFirstMembers(row, n - 1);
      CountRow(rest, v, d, a, n - 1);
    } else {
      CountRow(row, v, d, a, n - 1);
    }
  }

  /** The list of vertex a in `individual(v, d)` is as long as a's degree. */
  lemma IndividualDegree(v: nat, d: seq<nat>, a: int)
    requires |d| < v && 0 <= a < v
    ensures |IndividualRows(v, d)[a]| == Degree(v, d, a)
  {
    var r := IndividualRows(v, d);
    IndividualAdjacency(v, d);
    forall b
      ensures b in r[a] <==> 0 <= b < v && Edge(v, d, a, b)
    {
      if b in r[a] {
        var k :| 0 <= k < |r[a]| && r[a][k] == b;
      }
    }
    CountRow(r[a], v, d, a, v);
  }

  /** The sum of bits lo .. hi-1 of num. */
  function BitSum(num: nat, lo: nat, hi: nat): nat
    decreases hi - lo
  {
    if lo >= hi then 0 else Bit(num, lo) + BitSum(num, lo + 1, hi)
  }

  lemma {:induction false} BitSumHalf(num: nat, lo: nat, hi: nat)
    ensures BitSum(num, lo + 1, hi + 1) == BitSum(num / 2, lo, hi)
    decreases hi - lo
  {
    if lo < hi {
      BitSumHalf(num, lo + 1, hi);
    }
  }

  /** The m low bits of a number below 2^m add up to its bit count. */
  lemma {:induction false} BitSumPopCount(num: nat, m: nat)
    requires num < Pow2(m)
    ensures BitSum(num, 0, m) == PopCount(num)
    decreases m
  {
    if m > 0 {
      BitSumHalf(num, 0, m - 1);
      BitSumPopCount(num / 2, m - 1);
    }
  }

  /** Vertex 0 of [num] + w is joined to vertex b exactly when bit (v - b - 1)
      of num is set, so its degree is the sum of those bits. */
  lemma {:induction false} DegreeFirstBelow(v: nat, num: nat, w: seq<nat>, n: nat)
    requires v >= 2 && |w| == v - 2 && 1 <= n <= v
    ensures DegBelow(v, [num] + w, 0, n) == BitSum(num, v - n, v - 1)
    decreases n
  {
    if n > 1 {
      DegreeFirstBelow(v, num, w, n - 1);
    }
  }

  /** Below vertex 0, the graph described by [num] + w is the graph described by w. */
  lemma EdgeShift(v: nat, num: nat, w: seq<nat>, a: int, b: int)
    requires v >= 2 && |w| == v - 2 && a >= 1 && b >= 1
    ensures Edge(v, [num] + w, a, b) <==> Edge(v - 1, w, a - 1, b - 1)
  {
    var vec := [num] + w;
    if a < |vec| {
      assert vec[a] == w[a - 1];
    }
    if b < |vec| {
      assert vec[b] == w[b - 1];
    }
  }

  lemma {:induction false} DegreeRestBelow(v: nat, num: nat, w: seq<nat>, a: int, n: nat)
    requires v >= 2 && |w| == v - 2 && 1 <= a < v && n <= v - 1
    ensures DegBelow(v, [num] + w, a, n + 1) == Bit(num, v - a - 1) + DegBelow(v - 1, w, a - 1, n)
    decreases n
  {
    if n > 0 {
      DegreeRestBelow(v, num, w, a, n - 1);
      EdgeShift(v, num, w, a, n);
    }
  }

  /** How the degrees of [num] + w split: vertex 0 has the bit count of num,
      every other vertex a has its degree in w plus bit (v - a - 1) of num. */
  lemma DegreeSplit(v: nat, num: nat, w: seq<nat>)
    requires v >= 2 && |w| == v - 2 && num < Pow2(v - 1)
    ensures Degree(v, [num] + w, 0) == PopCount(num)
    ensures forall a :: 1 <= a < v ==> Degree(v, [num] + w, a) == Bit(num, v - a - 1) + Degree(v - 1, w, a - 1)
  {
    DegreeFirstBelow(v, num, w, v);
    BitSumPopCount(num, v - 1);
    forall a | 1 <= a < v
      ensures Degree(v, [num] + w, a) == Bit(num, v - a - 1) + Degree(v - 1, w, a - 1)
    {
      DegreeRestBelow(v, num, w, a, v - 1);
    }
  }

  // ---------------------------------------------------------------------
  // genValid

  /** What `genValid(v, degrees, possibilities)` needs of its arguments: at
      least two vertices, a degree for each, and beyond the base case every
      degree an index of `possibilities`. */
  predicate DegreesOk(v: nat, degrees: seq<int>, poss: seq<seq<nat>>)
  {
    v >= 2 && |degrees| >= v && (v == 2 || forall i :: 0 <= i < v ==> 0 <= degrees[i] < |poss|)
  }

  /** Each bucket k of `possibilities` holds only numbers with k one-bits. */
  predicate Bucketed(poss: seq<seq<nat>>)
  {
    forall k, x :: 0 <= k < |poss| && x in poss[k] ==> PopCount(x) == k
  }

  /** `modDegrees`: the degrees left for vertices 1 .. v-1 once vertex 0 is
      joined to each vertex i whose bit (v - i - 1) is set in num. */
  function ModDegrees(v: nat, degrees: seq<int>, num: nat): (r: seq<int>)
    requires v >= 2 && |degrees| >= v
    ensures |r| == v - 1
    ensures forall k :: 0 <= k < v - 1 ==> degrees[k + 1] - 1 <= r[k] <= degrees[k + 1]
  {
    seq(v - 1, k requires 0 <= k < v - 1 => degrees[k + 1] - Bit(num, v - k - 2))
  }

  /** Pruning: when no residual degree is -1, the residual degrees are again
      indices of `possibilities`. */
  lemma ModDegreesOk(v: nat, degrees: seq<int>, poss: seq<seq<nat>>, num: nat)
    requires v >= 3 && DegreesOk(v, degrees, poss)
    requires -1 !in ModDegrees(v, degrees, num)
    ensures DegreesOk(v - 1, ModDegrees(v, degrees, num), poss)
  {
    var mod := ModDegrees(v, degrees, num);
    forall i | 0 <= i < v - 1
      ensures 0 <= mod[i] < |poss|
    {
      assert mod[i] in mod;
    }
  }

  /** `validVec.insert(0, num)` for each vector, in order. */
  function Prepend(num: nat, vecs: seq<seq<nat>>): (r: seq<seq<nat>>)
    ensures |r| == |vecs|
  {
    seq(|vecs|, k requires 0 <= k < |vecs| => [num] + vecs[k])
  }

  /** The entries of pool the scan visits before its `break`: the longest
      prefix whose entries are below bound. */
  function Cut(pool: seq<nat>, bound: nat): (r: seq<nat>)
    ensures r <= pool
    ensures forall k :: 0 <= k < |r| ==> r[k] < bound
    ensures |r| < |pool| ==> pool[|r|] >= bound
  {
    if |pool| == 0 || pool[0] >= bound then []
    else [pool[0]] + Cut(pool[1..], bound)
  }

  /** The descriptions `genValid` finds, without the sentinel: the base case
      on two vertices, or, for each first row num taken from the bucket of
      degree[0] while num < 2^(v-1), num in front of every description of
      the residual degrees. */
  function Realise(v: nat, degrees: seq<int>, poss: seq<seq<nat>>): (r: seq<seq<nat>>)
    requires DegreesOk(v, degrees, poss)
    ensures forall k :: 0 <= k < |r| ==> |r[k]| == v - 1
    decreases v, 1, 0
  {
    if v == 2 then
      if degrees[0] == 1 && degrees[1] == 1 then [[1]]
      else if degrees[0] == 0 && degrees[1] == 0 then [[0]]
      else []
    else Scan(v, degrees, poss, Cut(poss[degrees[0]], Pow2(v - 1)))
  }

  /** The descriptions found for the candidate first rows nums, in order. */
  function Scan(v: nat, degrees: seq<int>, poss: seq<seq<nat>>, nums: seq<nat>): (r: seq<seq<nat>>)
    requires v >= 3 && DegreesOk(v, degrees, poss)
    ensures forall k :: 0 <= k < |r| ==> |r[k]| == v - 1
    decreases v, 0, |nums|
  {
    if |nums| == 0 then []
    else Scan(v, degrees, poss, nums[..|nums| - 1]) + Branch(v, degrees, poss, nums[|nums| - 1])
  }

  /** The descriptions whose first row is num: none when a residual degree
      would be -1, else num in front of each description of the rest. */
  function Branch(v: nat, degrees: seq<int>, poss: seq<seq<nat>>, num: nat): (r: seq<seq<nat>>)
    requires v >= 3 && DegreesOk(v, degrees, poss)
    ensures forall k :: 0 <= k < |r| ==> |r[k]| == v - 1
    decreases v, 0, 0
  {
    var mod := ModDegrees(v, degrees, num);
    if -1 in mod then []
    else
      ModDegreesOk(v, degrees, poss, num);
      Prepend(num, Realise(v - 1, mod, poss))
  }

  /** `[[]]` stands for "no description". */
  function Sentinel(r: seq<seq<nat>>): seq<seq<nat>>
  {
    if r == [] then [[]] else r
  }

  /** `[[]]` marks "none" unambiguously: when every description has m >= 1
      rows, the sentinel, and an empty first vector, arise only from no
      description at all. */
  lemma SentinelOnlyEmpty(r: seq<seq<nat>>, m: nat)
    requires m >= 1 && forall k :: 0 <= k < |r| ==> |r[k]| == m
    ensures Sentinel(r) == [[]] <==> r == []
    ensures |Sentinel(r)| >= 1 && (Sentinel(r)[0] == [] <==> r == [])
  {
    if r != [] {
      assert |r[0]| == m;
    }
  }

  /** One more candidate adds its branch to the end of the scan. */
  lemma ScanStep(v: nat, degrees: seq<int>, poss: seq<seq<nat>>, pool: seq<nat>, i: nat)
    requires v >= 3 && DegreesOk(v, degrees, poss) && i < |pool|
    ensures Scan(v, degrees, poss, pool[..i + 1]) ==
      Scan(v, degrees, poss, pool[..i]) + Branch(v, degrees, poss, pool[i])
  {
    assert pool[..i + 1][..i] == pool[..i];
  }

  /** `genValid(v, degrees, possibilities)`. */
  method GenValid(v: nat, degrees: seq<int>, poss: seq<seq<nat>>) returns (valid: seq<seq<nat>>)
    requires DegreesOk(v, degrees, poss)
    ensures valid == Sentinel(Realise(v, degrees, poss))
    decreases v, 2
  {
    valid := [[]];
    if v == 2 {
      if degrees[0] == 1 && degrees[1] == 1 {
        return [[1]];
      } else if degrees[0] == 0 && degrees[1] == 0 {
        return [[0]];
      } else {
        return [[]];
      }
    }
    valid := ScanPool(v, degrees, poss);
  }

  /** The pool loop of `genValid`: each candidate first row of the bucket
      of degree[0] below 2^(v-1), in order, stopping at the first one above. */
  method ScanPool(v: nat, degrees: seq<int>, poss: seq<seq<nat>>) returns (valid: seq<seq<nat>>)
    requires v >= 3 && DegreesOk(v, degrees, poss)
    ensures valid == Sentinel(Scan(v, degrees, poss, Cut(poss[degrees[0]], Pow2(v - 1))))
    decreases v, 1
  {
    valid := [[]];
    var pool := poss[degrees[0]];
    var bound := Pow2(v - 1);
    var i := 0;
    while i < |pool|
      invariant 0 <= i <= |pool|
      invariant forall k :: 0 <= k < i ==> pool[k] < bound
      invariant valid == Sentinel(Scan(v, degrees, poss, pool[..i]))
    {
      var num := pool[i];
      if num > bound - 1 {
        break;
      }
      ghost var before := Scan(v, degrees, poss, pool[..i]);
      ScanStep(v, degrees, poss, pool, i);
      valid := Visit(v, degrees, poss, valid, before, num);
      i := i + 1;
    }
    assert Cut(pool, bound) == pool[..i];
  }

  /** One pass of the pool loop of `genValid` for a candidate num below
      2^(v-1), found so far being the descriptions of the earlier candidates:
      the residual degrees are computed, pruned if one is -1, otherwise
      `genValid` recurses and num is put in front of what it returns. */
  method Visit(v: nat, degrees: seq<int>, poss: seq<seq<nat>>, valid: seq<seq<nat>>,
               ghost found: seq<seq<nat>>, num: nat) returns (r: seq<seq<nat>>)
    requires v >= 3 && DegreesOk(v, degrees, poss)
    requires forall k :: 0 <= k < |found| ==> |found[k]| == v - 1
    requires valid == Sentinel(found)
    ensures r == Sentinel(found + Branch(v, degrees, poss, num))
    decreases v, 0
  {
    r := valid;
    SentinelOnlyEmpty(found, v - 1);
    var modDegrees := ModDegrees(v, degrees, num);
    if -1 in modDegrees {
      assert Branch(v, degrees, poss, num) == [];
      assert found + [] == found;
    } else {
      ModDegreesOk(v, degrees, poss, num);
      ghost var lowerFound := Realise(v - 1, modDegrees, poss);
      assert Branch(v, degrees, poss, num) == Prepend(num, lowerFound);
      var lower := GenValid(v - 1, modDegrees, poss);
      SentinelOnlyEmpty(lowerFound, v - 2);
      if lower == [[]] {
        assert Prepend(num, lowerFound) == [];
        assert found + [] == found;
      } else {
        if r[0] == [] {
          r := r[1..];
        }
        assert r == found;
        r := AppendAll(r, num, lower);
      }
    }
  }

  /** The inner loop of `genValid`: num is put in front of each vector of
      lower and the result appended to valid, in order. */
  method AppendAll(valid: seq<seq<nat>>, num: nat, lower: seq<seq<nat>>) returns (r: seq<seq<nat>>)
    ensures r == valid + Prepend(num, lower)
  {
    r := valid;
    var j := 0;
    while j < |lower|
      invariant 0 <= j <= |lower|
      invariant r == valid + Prepend(num, lower[..j])
    {
      assert Prepend(num, lower[..j + 1]) == Prepend(num, lower[..j]) + [[num] + lower[j]];
      r := r + [[num] + lower[j]];
      j := j + 1;
    }
    assert lower[..j] == lower;
  }

  /** Membership in a scan: the descriptions of one of the candidates. */
  lemma {:induction false} ScanMembers(v: nat, degrees: seq<int>, poss: seq<seq<nat>>, nums: seq<nat>, vec: seq<nat>)
    requires v >= 3 && DegreesOk(v, degrees, poss)
    ensures vec in Scan(v, degrees, poss, nums) <==>
      exists k :: 0 <= k < |nums| && vec in Branch(v, degrees, poss, nums[k])
    decreases |nums|
  {
    if |nums| > 0 {
      var front, last := nums[..|nums| - 1], nums[|nums| - 1];
      ScanMembers(v, degrees, poss, front, vec);
      assert Scan(v, degrees, poss, nums) == Scan(v, degrees, poss, front) + Branch(v, degrees, poss, last);
      var f := (num: nat) => vec in Branch(v, degrees, poss, num);
      ExistsSnoc(front, nums, f);
    }
  }

  /** Some entry of nums passes f exactly when some entry before the last
      does, or the last one does. */
  lemma ExistsSnoc(front: seq<nat>, nums: seq<nat>, f: nat -> bool)
    requires |nums| > 0 && front == nums[..|nums| - 1]
    ensures (exists k :: 0 <= k < |nums| && f(nums[k])) <==>
      (exists k :: 0 <= k < |front| && f(front[k])) || f(nums[|nums| - 1])
  {
    if exists k :: 0 <= k < |nums| && f(nums[k]) {
      var k :| 0 <= k < |nums| && f(nums[k]);
      if k < |front| {
        assert nums[k] == front[k];
      }
    }
    if exists k :: 0 <= k < |front| && f(front[k]) {
      var k :| 0 <= k < |front| && f(front[k]);
      assert nums[k] == front[k];
    }
  }

  /** Membership in a branch: num followed by a description of the rest. */
  lemma BranchMembers(v: nat, degrees: seq<int>, poss: seq<seq<nat>>, num: nat, vec: seq<nat>)
    requires v >= 3 && DegreesOk(v, degrees, poss)
    ensures vec in Branch(v, degrees, poss, num) <==>
      && |vec| >= 1 && vec[0] == num
      && -1 !in ModDegrees(v, degrees, num)
      && DegreesOk(v - 1, ModDegrees(v, degrees, num), poss)
      && vec[1..] in Realise(v - 1, ModDegrees(v, degrees, num), poss)
  {
    var mod := ModDegrees(v, degrees, num);
    if -1 !in mod {
      ModDegreesOk(v, degrees, poss, num);
      var found := Realise(v - 1, mod, poss);
      var p := Prepend(num, found);
      if vec in p {
        var k :| 0 <= k < |p| && p[k] == vec;
        assert vec[1..] == found[k];
      }
      if |vec| >= 1 && vec[0] == num && vec[1..] in found {
        var k :| 0 <= k < |found| && found[k] == vec[1..];
        assert p[k] == vec;
      }
    }
  }

  /** The shape of a description of a graph on v vertices: v - 1 rows, row k
      below 2^(v - k - 1), i.e. using only the bits of vertices above k. */
  predicate Encodes(v: nat, vec: seq<nat>)
  {
    v >= 1 && |vec| == v - 1 && forall k :: 0 <= k < |vec| ==> vec[k] < Pow2(v - k - 1)
  }

  /** Soundness of genValid: every description found has the right shape and
      describes a graph with exactly the requested degrees. */
  lemma {:induction false} RealiseSound(v: nat, degrees: seq<int>, poss: seq<seq<nat>>, vec: seq<nat>)
    requires DegreesOk(v, degrees, poss) && Bucketed(poss)
    requires vec in Realise(v, degrees, poss)
    ensures Encodes(v, vec)
    ensures forall a :: 0 <= a < v ==> Degree(v, vec, a) == degrees[a]
    decreases v, 1
  {
    if v == 2 {
      var x := vec[0];
      assert vec == [x];
      DegreeSplit(2, x, []);
      assert Degree(1, [], 0) == 0;
    } else {
      var pool := poss[degrees[0]];
      var nums := Cut(pool, Pow2(v - 1));
      ScanMembers(v, degrees, poss, nums, vec);
      var k :| 0 <= k < |nums| && vec in Branch(v, degrees, poss, nums[k]);
      var num := nums[k];
      assert num in pool;
      BranchSound(v, degrees, poss, num, vec);
    }
  }

  /** Soundness for the descriptions of one branch. */
  lemma {:induction false} BranchSound(v: nat, degrees: seq<int>, poss: seq<seq<nat>>, num: nat, vec: seq<nat>)
    requires v >= 3 && DegreesOk(v, degrees, poss) && Bucketed(poss)
    requires num < Pow2(v - 1) && PopCount(num) == degrees[0]
    requires vec in Branch(v, degrees, poss, num)
    ensures Encodes(v, vec)
    ensures forall a :: 0 <= a < v ==> Degree(v, vec, a) == degrees[a]
    decreases v, 0
  {
    BranchMembers(v, degrees, poss, num, vec);
    var w := vec[1..];
    assert vec == [num] + w;
    RealiseSound(v - 1, ModDegrees(v, degrees, num), poss, w);
    PrependSound(v, degrees, num, w);
  }

  /** A first row num with degree[0] one-bits, in front of a description of
      the residual degrees, describes a graph with the requested degrees. */
  lemma PrependSound(v: nat, degrees: seq<int>, num: nat, w: seq<nat>)
    requires v >= 3 && |degrees| >= v && num < Pow2(v - 1) && PopCount(num) == degrees[0]
    requires Encodes(v - 1, w)
    requires forall a :: 0 <= a < v - 1 ==> Degree(v - 1, w, a) == ModDegrees(v, degrees, num)[a]
    ensures Encodes(v, [num] + w)
    ensures forall a :: 0 <= a < v ==> Degree(v, [num] + w, a) == degrees[a]
  {
    var vec := [num] + w;
    var mod := ModDegrees(v, degrees, num);
    DegreeSplit(v, num, w);
    forall a | 1 <= a < v
      ensures Degree(v, vec, a) == degrees[a]
    {
      assert mod[a - 1] == degrees[a] - Bit(num, v - a - 1);
    }
    forall j | 1 <= j < |vec|
      ensures vec[j] < Pow2(v - j - 1)
    {
      assert vec[j] == w[j - 1];
    }
  }

  /** Taking the ascending prefix below bound keeps every entry below bound. */
  lemma {:induction false} CutKeeps(pool: seq<nat>, bound: nat, x: nat)
    requires Ascending(pool) && x in pool && x < bound
    ensures x in Cut(pool, bound)
    decreases |pool|
  {
    if pool[0] != x {
      var i :| 0 <= i < |pool| && pool[i] == x;
      assert pool[1..][i - 1] == x;
      CutKeeps(pool[1..], bound, x);
    }
  }

  /** Completeness of genValid over the buckets of `genSpecs(n)`: every
      description of the right shape whose graph has the requested degrees
      is found. */
  lemma {:induction false} RealiseComplete(v: nat, degrees: seq<int>, n: nat, vec: seq<nat>)
    requires DegreesOk(v, degrees, Buckets(n)) && v - 1 <= n
    requires Encodes(v, vec)
    requires forall a :: 0 <= a < v ==> Degree(v, vec, a) == degrees[a]
    ensures vec in Realise(v, degrees, Buckets(n))
    decreases v
  {
    var poss := Buckets(n);
    var num := vec[0];
    var w := vec[1..];
    assert vec == [num] + w;
    if v == 2 {
      BaseComplete(degrees, vec);
    } else {
      PrependComplete(v, degrees, num, w);
      var mod := ModDegrees(v, degrees, num);
      RealiseComplete(v - 1, mod, n, w);
      BranchMembers(v, degrees, poss, num, vec);
      BucketsSpec(n);
      Pow2Mono(v - 1, n);
      CutKeeps(poss[degrees[0]], Pow2(v - 1), num);
      var nums := Cut(poss[degrees[0]], Pow2(v - 1));
      var k :| 0 <= k < |nums| && nums[k] == num;
      ScanMembers(v, degrees, poss, nums, vec);
    }
  }

  /** On two vertices the only descriptions are [1] (one edge, degrees 1, 1)
      and [0] (no edge, degrees 0, 0). */
  lemma BaseComplete(degrees: seq<int>, vec: seq<nat>)
    requires |degrees| >= 2 && Encodes(2, vec)
    requires forall a :: 0 <= a < 2 ==> Degree(2, vec, a) == degrees[a]
    ensures vec == [1] ==> degrees[0] == 1 && degrees[1] == 1
    ensures vec == [0] ==> degrees[0] == 0 && degrees[1] == 0
    ensures vec == [1] || vec == [0]
  {
    var num := vec[0];
    assert vec == [num] + [];
    DegreeSplit(2, num, []);
    assert Degree(1, [], 0) == 0;
    assert Pow2(1) == 2;
    if num == 1 {
      assert PopCount(1) == 1 && Bit(1, 0) == 1;
    } else {
      assert PopCount(0) == 0 && Bit(0, 0) == 0;
    }
  }

  /** The converse of `PrependSound`: a description [num] + w of a graph with
      the requested degrees has num in the bucket of degree[0], below
      2^(v-1), no residual degree -1, and w describes the residual degrees. */
  lemma PrependComplete(v: nat, degrees: seq<int>, num: nat, w: seq<nat>)
    requires v >= 3 && |degrees| >= v && Encodes(v, [num] + w)
    requires forall a :: 0 <= a < v ==> Degree(v, [num] + w, a) == degrees[a]
    ensures num < Pow2(v - 1) && PopCount(num) == degrees[0]
    ensures Encodes(v - 1, w) && -1 !in ModDegrees(v, degrees, num)
    ensures forall a :: 0 <= a < v - 1 ==> Degree(v - 1, w, a) == ModDegrees(v, degrees, num)[a]
  {
    var vec := [num] + w;
    assert vec[0] == num;
    DegreeSplit(v, num, w);
    var mod := ModDegrees(v, degrees, num);
    forall a | 0 <= a < v - 1
      ensures mod[a] == Degree(v - 1, w, a)
    {
      assert Degree(v, vec, a + 1) == degrees[a + 1];
    }
    forall j | 0 <= j < |w|
      ensures w[j] < Pow2(v - 1 - j - 1)
    {
      assert w[j] == vec[j + 1];
    }
  }

  /** What `genValid` returns over the buckets of `genSpecs(n)`: the sentinel
      `[[]]` exactly when no graph has the requested degrees; otherwise only
      descriptions of graphs with exactly those degrees, and all of them. */
  lemma GenValidCorrect(v: nat, degrees: seq<int>, n: nat)
    requires DegreesOk(v, degrees, Buckets(n)) && v - 1 <= n
    ensures Sentinel(Realise(v, degrees, Buckets(n))) == [[]] <==>
      !exists vec :: Encodes(v, vec) && forall a :: 0 <= a < v ==> Degree(v, vec, a) == degrees[a]
    ensures forall vec :: vec in Realise(v, degrees, Buckets(n)) ==>
      Encodes(v, vec) && forall a :: 0 <= a < v ==> |IndividualRows(v, vec)[a]| == degrees[a]
  {
    var poss := Buckets(n);
    var r := Realise(v, degrees, poss);
    BucketsSpec(n);
    forall vec | vec in r
      ensures Encodes(v, vec) && forall a :: 0 <= a < v ==> |IndividualRows(v, vec)[a]| == degrees[a]
    {
      RealiseSound(v, degrees, poss, vec);
      forall a | 0 <= a < v
        ensures |IndividualRows(v, vec)[a]| == degrees[a]
      {
        IndividualDegree(v, vec, a);
      }
    }
    if exists vec :: Encodes(v, vec) && forall a :: 0 <= a < v ==> Degree(v, vec, a) == degrees[a] {
      var vec :| Encodes(v, vec) && forall a :: 0 <= a < v ==> Degree(v, vec, a) == degrees[a];
      RealiseComplete(v, degrees, n, vec);
    }
    if r != [] {
      RealiseSound(v, degrees, poss, r[0]);
    }
  }

  // ---------------------------------------------------------------------
  // genBiClass

  /** `numDeg1` copies of deg1 followed by `vertices - numDeg1` copies of deg2. */
  function BiDegrees(v: nat, numDeg1: nat, deg1: int, deg2: int): (r: seq<int>)
    ensures |r| == if numDeg1 <= v then v else numDeg1
    ensures forall i :: 0 <= i < |r| ==> r[i] == if i < numDeg1 then deg1 else deg2
  {
    seq(numDeg1, _ => deg1) + seq(if numDeg1 <= v then v - numDeg1 else 0, _ => deg2)
  }

  /** `genBiClass`: one graph per vector `genValid` returns, in order. When
      there is none, the sentinel `[[]]` still yields one edgeless graph. */
  method GenBiClass(v: nat, numDeg1: nat, deg1: int, deg2: int, poss: seq<seq<nat>>) returns (biClass: seq<Graph>)
    requires DegreesOk(v, BiDegrees(v, numDeg1, deg1, deg2), poss)
    ensures |biClass| == |Sentinel(Realise(v, BiDegrees(v, numDeg1, deg1, deg2), poss))|
    ensures forall k :: 0 <= k < |biClass| ==>
      fresh(biClass[k]) && biClass[k].size == v
      && biClass[k].vertices == IndividualRows(v, Sentinel(Realise(v, BiDegrees(v, numDeg1, deg1, deg2), poss))[k])
    ensures Realise(v, BiDegrees(v, numDeg1, deg1, deg2), poss) == [] ==>
      |biClass| == 1 && biClass[0].vertices == Empty(v)
  {
    var degrees := BiDegrees(v, numDeg1, deg1, deg2);
    var valid := GenValid(v, degrees, poss);
    biClass := Individuals(v, valid);
  }

  /** The loop of `genBiClass`: `individual(v, vec)` for each vec, in order. */
  method Individuals(v: nat, valid: seq<seq<nat>>) returns (graphs: seq<Graph>)
    requires forall m :: 0 <= m < |valid| ==> |valid[m]| < v
    ensures |graphs| == |valid|
    ensures forall m :: 0 <= m < |graphs| ==>
      fresh(graphs[m]) && graphs[m].size == v && graphs[m].vertices == IndividualRows(v, valid[m])
  {
    graphs := [];
    var k := 0;
    while k < |valid|
      invariant 0 <= k <= |valid| && |graphs| == k
      invariant forall m :: 0 <= m < k ==>
        fresh(graphs[m]) && graphs[m].size == v && graphs[m].vertices == IndividualRows(v, valid[m])
    {
      var g := Individual(v, valid[k]);
      graphs := graphs + [g];
      k := k + 1;
    }
  }
}
