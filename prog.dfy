/** The search driver: keep the connected graphs of a bidegreed class,
    drop every graph whose representative an earlier kept graph already has,
    and compare the decks of the survivors pairwise, stopping at the first
    pair whose decks match. */
module Driver {
  import opened Graphs
  import opened Isomorphisms

  // ---------------------------------------------------------------------
  // traverse

  /** The vertices at most k steps away from vertex 0. */
  ghost function Reach(vs: Lists, k: nat): set<int>
    decreases k
  {
    if k == 0 then {0}
    else
      var r := Reach(vs, k - 1);
      r + (set u, x | u in r && 0 <= u < |vs| && x in vs[u] :: x)
  }

  ghost predicate Reachable(vs: Lists, x: int)
  {
    exists k: nat :: x in Reach(vs, k)
  }

  /** Every vertex can be reached from vertex 0 along edges. */
  ghost predicate Connected(vs: Lists)
  {
    forall x :: 0 <= x < |vs| ==> Reachable(vs, x)
  }

  lemma ReachStep(vs: Lists, k: nat, u: int, x: int)
    requires u in Reach(vs, k) && 0 <= u < |vs| && x in vs[u]
    ensures x in Reach(vs, k + 1)
  {
  }

  /** A list holding vertex 0 and every neighbour of its members holds
      every vertex within k steps of vertex 0. */
  lemma {:induction false} ClosedContainsReach(vs: Lists, s: seq<int>, k: nat)
    requires 0 in s
    requires forall j, x :: 0 <= j < |s| && 0 <= s[j] < |vs| && x in vs[s[j]] ==> x in s
    ensures forall x :: x in Reach(vs, k) ==> x in s
    decreases k
  {
    if k > 0 {
      ClosedContainsReach(vs, s, k - 1);
      forall x | x in Reach(vs, k)
        ensures x in s
      {
        if x !in Reach(vs, k - 1) {
          var u :| u in Reach(vs, k - 1) && 0 <= u < |vs| && x in vs[u];
          var j :| 0 <= j < |s| && s[j] == u;
        }
      }
    }
  }

  /** The `available` list of one round of `traverse`: every neighbour of a
      grabbed vertex that is not grabbed itself, with (as a ghost) the
      position in `grabbed` of the vertex it was found next to. */
  method Frontier(vs: Lists, grabbed: seq<int>) returns (available: seq<int>, ghost via: seq<int>)
    requires forall i :: 0 <= i < |grabbed| ==> 0 <= grabbed[i] < |vs|
    ensures |via| == |available|
    ensures forall t :: 0 <= t < |available| ==>
      available[t] !in grabbed && 0 <= via[t] < |grabbed| && available[t] in vs[grabbed[via[t]]]
    ensures forall k, x :: 0 <= k < |grabbed| && x in vs[grabbed[k]] && x !in grabbed ==> x in available
  {
    available, via := [], [];
    var k := 0;
    while k < |grabbed|
      invariant 0 <= k <= |grabbed| && |via| == |available|
      invariant forall t :: 0 <= t < |available| ==>
        available[t] !in grabbed && 0 <= via[t] < |grabbed| && available[t] in vs[grabbed[via[t]]]
      invariant forall k', x :: 0 <= k' < k && x in vs[grabbed[k']] && x !in grabbed ==> x in available
    {
      var row := vs[grabbed[k]];
      var e := 0;
      while e < |row|
        invariant 0 <= e <= |row| && |via| == |available|
        invariant forall t :: 0 <= t < |available| ==>
          available[t] !in grabbed && 0 <= via[t] < |grabbed| && available[t] in vs[grabbed[via[t]]]
        invariant forall k', x :: 0 <= k' < k && x in vs[grabbed[k']] && x !in grabbed ==> x in available
        invariant forall f :: 0 <= f < e && row[f] !in grabbed ==> row[f] in available
      {
        if row[e] !in grabbed {
          available, via := available + [row[e]], via + [k];
        }
        e := e + 1;
      }
      k := k + 1;
    }
  }

  /** The loop invariant of `traverse`: `grabbed` starts with vertex 0,
      `grabbed` and `unused` are disjoint and together hold every vertex, and
      every grabbed vertex is within |grabbed| - 1 steps of vertex 0. */
  ghost predicate Grabbing(vs: Lists, grabbed: seq<int>, unused: seq<int>)
  {
    && |grabbed| > 0 && grabbed[0] == 0
    && |grabbed| + |unused| == (if |vs| == 0 then 1 else |vs|)
    && NoDup(unused)
    && (forall x :: x in unused ==> 0 <= x < |vs| && x !in grabbed)
    && (forall x :: 0 <= x < |vs| ==> x in grabbed || x in unused)
    && (|vs| > 0 ==> forall i :: 0 <= i < |grabbed| ==> 0 <= grabbed[i] < |vs|)
    && (forall i :: 0 <= i < |grabbed| ==> grabbed[i] in Reach(vs, |grabbed| - 1))
  }

  /** The ids 1 .. n-1: `range(1, n)`. */
  function FromOne(n: nat): (r: seq<int>)
    ensures |r| == if n == 0 then 0 else n - 1
    ensures forall k :: 0 <= k < |r| ==> r[k] == k + 1
  {
    seq(if n == 0 then 0 else n - 1, i => i + 1)
  }

  lemma GrabbingInit(vs: Lists)
    ensures Grabbing(vs, [0], FromOne(|vs|))
  {
    var unused := FromOne(|vs|);
    forall x | 1 <= x < |vs|
      ensures x in unused
    {
      assert unused[x - 1] == x;
    }
  }

  /** Grabbing a non-grabbed neighbour of a grabbed vertex keeps the
      invariant and shortens `unused`. */
  lemma GrabbingStep(vs: Lists, grabbed: seq<int>, unused: seq<int>, k: int, next: int)
    requires InRange(vs, |vs|) && Grabbing(vs, grabbed, unused) && |unused| > 0
    requires 0 <= k < |grabbed| && next in vs[grabbed[k]] && next !in grabbed
    ensures Grabbing(vs, grabbed + [next], RemoveFirst(unused, next))
    ensures |RemoveFirst(unused, next)| < |unused|
  {
    assert 0 <= grabbed[k] < |vs|;
    assert 0 <= next < |vs|;
    assert next in unused;
    RemoveFirstMembers(unused, next);
    ReachStep(vs, |grabbed| - 1, grabbed[k], next);
    var g2 := grabbed + [next];
    assert forall i :: 0 <= i < |g2| ==> g2[i] in Reach(vs, |grabbed|);
  }

  /** When no grabbed vertex has a neighbour outside `grabbed` and `unused`
      is not empty, the graph is not connected. */
  lemma GrabbingStuck(vs: Lists, grabbed: seq<int>, unused: seq<int>)
    requires Grabbing(vs, grabbed, unused) && |unused| > 0
    requires forall k, x :: 0 <= k < |grabbed| && x in vs[grabbed[k]] ==> x in grabbed
    ensures !Connected(vs)
  {
    var x := unused[0];
    forall k: nat
      ensures x !in Reach(vs, k)
    {
      ClosedContainsReach(vs, grabbed, k);
    }
    assert 0 <= x < |vs| && !Reachable(vs, x);
  }

  /** Once `unused` is empty every vertex is reachable. */
  lemma GrabbingDone(vs: Lists, grabbed: seq<int>)
    requires Grabbing(vs, grabbed, [])
    ensures Connected(vs)
  {
    forall x | 0 <= x < |vs|
      ensures Reachable(vs, x)
    {
      assert x in grabbed;
      var j :| 0 <= j < |grabbed| && grabbed[j] == x;
      assert x in Reach(vs, |grabbed| - 1);
    }
  }

  /** The set of a list's entries is empty exactly when the list is. */
  lemma NoneAvailable(s: seq<int>)
    ensures (set e | e in s) == {} <==> s == []
  {
    if |s| > 0 {
      var d := set e | e in s;
      assert s[0] in d;
      assert d != {};
    }
  }

  /** `traverse(g)`: grow the grabbed list from vertex 0 one neighbour at a
      time; the graph is connected exactly when every vertex gets grabbed. */
  method Traverse(g: Graph) returns (connected: bool)
    requires InRange(g.vertices, |g.vertices|)
    ensures connected <==> Connected(g.vertices)
  {
    var vs := g.vertices;
    var grabbed := [0];
    var unused := FromOne(|vs|);
    GrabbingInit(vs);
    while |unused| > 0
      invariant Grabbing(vs, grabbed, unused)
      decreases |unused|
    {
      var available, via := Frontier(vs, grabbed);
      // Python's set order is unspecified: any available vertex may come first.
      var distinct := set e | e in available;
      NoneAvailable(available);
      if distinct == {} {
        GrabbingStuck(vs, grabbed, unused);
        return false;
      }
      var next :| next in distinct;
      ghost var t :| 0 <= t < |available| && available[t] == next;
      GrabbingStep(vs, grabbed, unused, via[t], next);
      grabbed := grabbed + [next];
      unused := RemoveFirst(unused, next);
    }
    GrabbingDone(vs, grabbed);
    return true;
  }

  // ---------------------------------------------------------------------
  // filt

  /** An earlier entry has the same representative as entry j. */
  ghost predicate Repeated(reps: seq<Representative>, j: int)
    requires 0 <= j < |reps|
  {
    exists i :: 0 <= i < j && reps[i] == reps[j]
  }

  /** Every entry shares its representative with an entry at or before it
      that repeats nothing. */
  lemma {:induction false} FirstOccurrence(reps: seq<Representative>, j: int) returns (i: int)
    requires 0 <= j < |reps|
    ensures 0 <= i <= j && reps[i] == reps[j] && !Repeated(reps, i)
    decreases j
  {
    if Repeated(reps, j) {
      var i0 :| 0 <= i0 < j && reps[i0] == reps[j];
      i := FirstOccurrence(reps, i0);
    } else {
      i := j;
    }
  }

  /** The neighbour lists of every graph, in order. */
  ghost function ListsOf(gs: seq<Graph>): (r: seq<Lists>)
    reads gs
  {
    seq(|gs|, i requires 0 <= i < |gs| reads gs => gs[i].vertices)
  }

  /** The representatives of lists[p] for the positions p, in order. */
  ghost function RepsAt(rep: Lists -> Representative, lists: seq<Lists>, pos: seq<int>): (r: seq<Representative>)
    requires forall k :: 0 <= k < |pos| ==> 0 <= pos[k] < |lists|
    ensures |r| == |pos|
  {
    if |pos| == 0 then []
    else RepsAt(rep, lists, pos[..|pos| - 1]) + [rep(lists[pos[|pos| - 1]])]
  }

  lemma {:induction false} RepsAtIndex(rep: Lists -> Representative, lists: seq<Lists>, pos: seq<int>, k: int)
    requires forall k :: 0 <= k < |pos| ==> 0 <= pos[k] < |lists|
    requires 0 <= k < |pos|
    ensures |RepsAt(rep, lists, pos)| == |pos| && RepsAt(rep, lists, pos)[k] == rep(lists[pos[k]])
    decreases |pos|
  {
    if |pos| > 1 {
      RepsAtIndex(rep, lists, pos[..|pos| - 1], if k < |pos| - 1 then k else 0);
    }
  }

  /** The positions below n whose lists are connected, in order. */
  ghost function ConnectedPositions(lists: seq<Lists>, n: nat): (r: seq<int>)
    requires n <= |lists|
    ensures |r| <= n
  {
    if n == 0 then [] else ConnectedPositions(lists, n - 1) + (if Connected(lists[n - 1]) then [n - 1] else [])
  }

  /** ConnectedPositions lists exactly the connected positions below n, in
      increasing order. */
  lemma {:induction false} ConnectedPositionsSpec(lists: seq<Lists>, n: nat)
    requires n <= |lists|
    ensures forall k :: 0 <= k < |ConnectedPositions(lists, n)| ==>
      0 <= ConnectedPositions(lists, n)[k] < n && Connected(lists[ConnectedPositions(lists, n)[k]])
    ensures forall k, l :: 0 <= k < l < |ConnectedPositions(lists, n)| ==>
      ConnectedPositions(lists, n)[k] < ConnectedPositions(lists, n)[l]
    ensures forall i :: 0 <= i < n && Connected(lists[i]) ==> i in ConnectedPositions(lists, n)
  {
    if n > 0 {
      ConnectedPositionsSpec(lists, n - 1);
    }
  }

  lemma RepsAtSnoc(rep: Lists -> Representative, lists: seq<Lists>, pos: seq<int>, i: int)
    requires forall k :: 0 <= k < |pos| ==> 0 <= pos[k] < |lists|
    requires 0 <= i < |lists|
    ensures RepsAt(rep, lists, pos + [i]) == RepsAt(rep, lists, pos) + [rep(lists[i])]
  {
    assert (pos + [i])[..|pos|] == pos;
  }

  /** The first loop of `filt`: the connected graphs in input order, with
      their representatives and (as a ghost) their input positions. */
  method ConnectedOnes(biClass: seq<Graph>, rep: Lists -> Representative) returns (conn: seq<Graph>, reps: seq<Representative>, ghost pos: seq<int>)
    requires forall i :: 0 <= i < |biClass| ==> InRange(biClass[i].vertices, |biClass[i].vertices|)
    ensures pos == ConnectedPositions(ListsOf(biClass), |biClass|)
    ensures |conn| == |pos| && forall k :: 0 <= k < |conn| ==> 0 <= pos[k] < |biClass| && conn[k] == biClass[pos[k]]
    ensures reps == RepsAt(rep, ListsOf(biClass), pos)
  {
    ghost var lists := ListsOf(biClass);
    conn, reps, pos := [], [], [];
    var i := 0;
    while i < |biClass|
      invariant 0 <= i <= |biClass| && pos == ConnectedPositions(lists, i)
      invariant |conn| == |pos| && forall k :: 0 <= k < |conn| ==> 0 <= pos[k] < i && conn[k] == biClass[pos[k]]
      invariant reps == RepsAt(rep, lists, pos)
    {
      var graph := biClass[i];
      var connected := Traverse(graph);
      assert graph.vertices == lists[i];
      if connected {
        RepsAtSnoc(rep, lists, pos, i);
        conn, reps, pos := conn + [graph], reps + [rep(graph.vertices)], pos + [i];
      }
      i := i + 1;
    }
  }

  /** The `rem` list of `filt`: the positions whose representative occurs
      earlier. */
  method Duplicates(reps: seq<Representative>) returns (rem: seq<int>)
    ensures forall j :: 0 <= j < |reps| ==> (j in rem <==> Repeated(reps, j))
  {
    rem := [];
    var graph1 := 0;
    while graph1 < |reps| - 1
      invariant 0 <= graph1 <= |reps| - 1 || |reps| == 0
      invariant forall j :: j in rem ==> 0 <= j < |reps|
      invariant forall j :: 0 <= j < |reps| ==>
        (j in rem <==> exists i :: 0 <= i < j && i < graph1 && reps[i] == reps[j])
    {
      if graph1 !in rem {
        var graph2 := graph1 + 1;
        while graph2 < |reps|
          invariant graph1 < graph2 <= |reps|
          invariant forall j :: j in rem ==> 0 <= j < |reps|
          invariant forall j :: 0 <= j < |reps| ==>
            (j in rem <==> (exists i :: 0 <= i < j && i < graph1 && reps[i] == reps[j])
                           || (graph1 < j < graph2 && reps[graph1] == reps[j]))
        {
          if reps[graph1] == reps[graph2] {
            rem := rem + [graph2];
          }
          graph2 := graph2 + 1;
        }
      } else {
        forall j | 0 <= j < |reps| && graph1 < j && reps[graph1] == reps[j]
          ensures exists i :: 0 <= i < j && i < graph1 && reps[i] == reps[j]
        {
          var i :| 0 <= i < graph1 && reps[i] == reps[graph1];
        }
      }
      graph1 := graph1 + 1;
    }
  }

  /** Kept positions are connected inputs, in increasing order. */
  ghost predicate KeptPositions(lists: seq<Lists>, from: seq<int>)
  {
    && (forall k :: 0 <= k < |from| ==> 0 <= from[k] < |lists| && Connected(lists[from[k]]))
    && (forall k, l :: 0 <= k < l < |from| ==> from[k] < from[l])
  }

  /** No two kept positions share a representative. */
  ghost predicate DistinctReps(rep: Lists -> Representative, lists: seq<Lists>, from: seq<int>)
    requires forall k :: 0 <= k < |from| ==> 0 <= from[k] < |lists|
  {
    forall k, l :: 0 <= k < l < |from| ==> rep(lists[from[k]]) != rep(lists[from[l]])
  }

  /** Every connected input shares its representative with a kept position
      at or before it. */
  ghost predicate Covers(rep: Lists -> Representative, lists: seq<Lists>, from: seq<int>)
    requires forall k :: 0 <= k < |from| ==> 0 <= from[k] < |lists|
  {
    forall i :: 0 <= i < |lists| && Connected(lists[i]) ==>
      exists k :: 0 <= k < |from| && from[k] <= i && rep(lists[from[k]]) == rep(lists[i])
  }

  /** What `filt` promises of the input positions `from` it keeps. */
  ghost predicate Filtered(rep: Lists -> Representative, lists: seq<Lists>, from: seq<int>)
  {
    KeptPositions(lists, from) && DistinctReps(rep, lists, from) && Covers(rep, lists, from)
  }

  /** The survivors are connected inputs in increasing order. */
  lemma SurvivorPositions(lists: seq<Lists>, pos: seq<int>, at: seq<int>, from: seq<int>)
    requires forall k :: 0 <= k < |pos| ==> 0 <= pos[k] < |lists| && Connected(lists[pos[k]])
    requires forall k, l :: 0 <= k < l < |pos| ==> pos[k] < pos[l]
    requires |from| == |at|
    requires forall k :: 0 <= k < |at| ==> 0 <= at[k] < |pos| && from[k] == pos[at[k]]
    requires forall k, l :: 0 <= k < l < |at| ==> at[k] < at[l]
    ensures KeptPositions(lists, from)
  {
    forall k | 0 <= k < |from|
      ensures 0 <= from[k] < |lists| && Connected(lists[from[k]])
    {
      assert from[k] == pos[at[k]];
    }
    forall k, l | 0 <= k < l < |from|
      ensures from[k] < from[l]
    {
      assert at[k] < at[l];
    }
  }

  /** The survivors, none of whose representatives is repeated, have
      pairwise different representatives. */
  lemma KeptDistinct(rep: Lists -> Representative, lists: seq<Lists>, pos: seq<int>, reps: seq<Representative>, at: seq<int>, from: seq<int>)
    requires forall k :: 0 <= k < |pos| ==> 0 <= pos[k] < |lists|
    requires reps == RepsAt(rep, lists, pos)
    requires |from| == |at|
    requires forall k :: 0 <= k < |at| ==> 0 <= at[k] < |pos| && !Repeated(reps, at[k]) && from[k] == pos[at[k]]
    requires forall k, l :: 0 <= k < l < |at| ==> at[k] < at[l]
    ensures DistinctReps(rep, lists, from)
  {
    forall k, l | 0 <= k < l < |from|
      ensures rep(lists[from[k]]) != rep(lists[from[l]])
    {
      RepsAtIndex(rep, lists, pos, at[k]);
      RepsAtIndex(rep, lists, pos, at[l]);
      assert reps[at[k]] != reps[at[l]];
    }
  }

  /** Every connected position shares its representative with a survivor
      at or before it. */
  lemma KeptComplete(rep: Lists -> Representative, lists: seq<Lists>, pos: seq<int>, reps: seq<Representative>, at: seq<int>, c: int) returns (k: int)
    requires forall k :: 0 <= k < |pos| ==> 0 <= pos[k] < |lists|
    requires forall k, l :: 0 <= k < l < |pos| ==> pos[k] < pos[l]
    requires reps == RepsAt(rep, lists, pos)
    requires forall k :: 0 <= k < |at| ==> 0 <= at[k] < |pos|
    requires forall j :: 0 <= j < |pos| && !Repeated(reps, j) ==> j in at
    requires 0 <= c < |pos|
    ensures 0 <= k < |at| && pos[at[k]] <= pos[c] && rep(lists[pos[at[k]]]) == rep(lists[pos[c]])
  {
    var first := FirstOccurrence(reps, c);
    k :| 0 <= k < |at| && at[k] == first;
    assert first < c ==> pos[first] < pos[c];
    RepsAtIndex(rep, lists, pos, first);
    RepsAtIndex(rep, lists, pos, c);
  }

  /** Every connected input is covered by a survivor. */
  lemma SurvivorsComplete(rep: Lists -> Representative, lists: seq<Lists>, pos: seq<int>, reps: seq<Representative>, at: seq<int>, from: seq<int>)
    requires forall k :: 0 <= k < |pos| ==> 0 <= pos[k] < |lists|
    requires forall k, l :: 0 <= k < l < |pos| ==> pos[k] < pos[l]
    requires forall i :: 0 <= i < |lists| && Connected(lists[i]) ==> i in pos
    requires reps == RepsAt(rep, lists, pos)
    requires |from| == |at|
    requires forall k :: 0 <= k < |at| ==> 0 <= at[k] < |pos| && from[k] == pos[at[k]]
    requires forall j :: 0 <= j < |pos| && !Repeated(reps, j) ==> j in at
    ensures Covers(rep, lists, from)
  {
    forall i | 0 <= i < |lists| && Connected(lists[i])
      ensures exists k :: 0 <= k < |from| && from[k] <= i && rep(lists[from[k]]) == rep(lists[i])
    {
      var c :| 0 <= c < |pos| && pos[c] == i;
      var k := KeptComplete(rep, lists, pos, reps, at, c);
      assert from[k] == pos[at[k]];
    }
  }

  /** The positions kept by the last loop of `filt` (those of the connected
      graphs whose representative is not repeated) are Filtered. */
  lemma SurvivorsFiltered(rep: Lists -> Representative, lists: seq<Lists>, pos: seq<int>, reps: seq<Representative>, at: seq<int>, from: seq<int>)
    requires forall k :: 0 <= k < |pos| ==> 0 <= pos[k] < |lists| && Connected(lists[pos[k]])
    requires forall k, l :: 0 <= k < l < |pos| ==> pos[k] < pos[l]
    requires forall i :: 0 <= i < |lists| && Connected(lists[i]) ==> i in pos
    requires reps == RepsAt(rep, lists, pos)
    requires |from| == |at|
    requires forall k :: 0 <= k < |at| ==> 0 <= at[k] < |pos| && !Repeated(reps, at[k]) && from[k] == pos[at[k]]
    requires forall k, l :: 0 <= k < l < |at| ==> at[k] < at[l]
    requires forall j :: 0 <= j < |pos| && !Repeated(reps, j) ==> j in at
    ensures Filtered(rep, lists, from)
  {
    SurvivorPositions(lists, pos, at, from);
    KeptDistinct(rep, lists, pos, reps, at, from);
    SurvivorsComplete(rep, lists, pos, reps, at, from);
  }

  /** `filt(biClass)`: the connected graphs whose representative no earlier
      connected graph has, in input order; `from` gives their input
      positions. */
  method Filt(biClass: seq<Graph>, rep: Lists -> Representative) returns (kept: seq<Graph>, ghost from: seq<int>)
    requires forall i :: 0 <= i < |biClass| ==> InRange(biClass[i].vertices, |biClass[i].vertices|)
    ensures |from| == |kept|
    ensures forall k :: 0 <= k < |kept| ==> 0 <= from[k] < |biClass| && kept[k] == biClass[from[k]]
    ensures Filtered(rep, ListsOf(biClass), from)
  {
    var conn, reps, pos := ConnectedOnes(biClass, rep);
    var rem := Duplicates(reps);
    ghost var at;
    kept, from, at := Survivors(conn, reps, pos, rem);
    ConnectedPositionsSpec(ListsOf(biClass), |biClass|);
    SurvivorsFiltered(rep, ListsOf(biClass), pos, reps, at, from);
  }

  /** The last loop of `filt`: the connected graphs whose position is not in
      `rem`; `at` gives their positions among the connected graphs. */
  method Survivors(conn: seq<Graph>, reps: seq<Representative>, ghost pos: seq<int>, rem: seq<int>)
    returns (kept: seq<Graph>, ghost from: seq<int>, ghost at: seq<int>)
    requires |reps| == |conn| == |pos|
    requires forall j :: 0 <= j < |reps| ==> (j in rem <==> Repeated(reps, j))
    ensures |from| == |kept| == |at|
    ensures forall k :: 0 <= k < |kept| ==>
      0 <= at[k] < |conn| && !Repeated(reps, at[k]) && kept[k] == conn[at[k]] && from[k] == pos[at[k]]
    ensures forall k, l :: 0 <= k < l < |kept| ==> at[k] < at[l]
    ensures forall j :: 0 <= j < |conn| && !Repeated(reps, j) ==> j in at
  {
    kept, from, at := [], [], [];
    var graph := 0;
    while graph < |conn|
      invariant 0 <= graph <= |conn|
      invariant |from| == |kept| == |at|
      invariant forall k :: 0 <= k < |kept| ==>
        0 <= at[k] < graph && !Repeated(reps, at[k]) && kept[k] == conn[at[k]] && from[k] == pos[at[k]]
      invariant forall k, l :: 0 <= k < l < |kept| ==> at[k] < at[l]
      invariant forall j :: 0 <= j < graph && !Repeated(reps, j) ==> j in at
    {
      if graph !in rem {
        kept, from, at := kept + [conn[graph]], from + [pos[graph]], at + [graph];
      }
      graph := graph + 1;
    }
  }

  // ---------------------------------------------------------------------
  // deckComp

  /** The outcome of `deckComp`: the list it returns, or the pair of
      positions for which it raises its counterexample error. */
  datatype Verdict = Passed(graphs: seq<Graph>) | Counterexample(first: int, second: int)

  /** The greedy matching of `deckComp` succeeds: every card of `a` finds an
      equal card of `b`, or the first |b| cards of `a` use up `b` exactly
      (the cards of `a` left over once `b` is empty are not checked). */
  predicate Matches(a: seq<Representative>, b: seq<Representative>)
  {
    multiset(a) <= multiset(b) || (|b| <= |a| && multiset(a[..|b|]) == multiset(b))
  }

  /** Decks of equal length match exactly when they hold the same cards. */
  lemma MatchesSameLength(a: seq<Representative>, b: seq<Representative>)
    requires |a| == |b|
    ensures Matches(a, b) <==> multiset(a) == multiset(b)
  {
    assert a[..|b|] == a;
    if multiset(a) <= multiset(b) {
      assert |multiset(b) - multiset(a)| == |b| - |a|;
      assert multiset(b) - multiset(a) == multiset{};
    }
  }

  /** Popping entry i takes exactly one copy of it out of the list. */
  lemma PopMultiset(b: seq<Representative>, i: int)
    requires 0 <= i < |b|
    ensures multiset(b[..i] + b[i + 1..]) == multiset(b) - multiset{b[i]}
  {
    assert b == b[..i] + [b[i]] + b[i + 1..];
  }

  /** One pass of the inner loop of `deckComp`: remove the first card of b
      equal to x; `miss` is set when no card matches and b is not empty. */
  method Search(x: Representative, b: seq<Representative>) returns (rest: seq<Representative>, miss: bool)
    ensures x in b ==> !miss && multiset(rest) == multiset(b) - multiset{x} && |rest| == |b| - 1
    ensures x !in b ==> rest == b && (miss <==> |b| > 0)
  {
    rest, miss := b, false;
    var graph2 := 0;
    while graph2 < |b| && x != b[graph2]
      invariant 0 <= graph2 <= |b|
      invariant x !in b[..graph2]
      invariant miss <==> graph2 == |b| > 0
    {
      if graph2 == |b| - 1 {
        miss := true;
      }
      assert b[..graph2 + 1] == b[..graph2] + [b[graph2]];
      graph2 := graph2 + 1;
    }
    if graph2 < |b| {
      rest := b[..graph2] + b[graph2 + 1..];
      PopMultiset(b, graph2);
    } else {
      assert b[..graph2] == b;
    }
  }

  /** A card of `a` missing from what is left of b, while something is left,
      rules out a match. */
  lemma MissRefutes(a: seq<Representative>, b0: seq<Representative>, b: seq<Representative>, g1: int)
    requires 0 <= g1 < |a| && |b| > 0 && a[g1] !in b
    requires multiset(a[..g1]) + multiset(b) == multiset(b0)
    ensures !Matches(a, b0)
  {
    var x := a[g1];
    assert a[..g1 + 1] == a[..g1] + [x];
    assert |multiset(a[..g1]) + multiset(b)| == |multiset(b0)|;
    assert |b0| == g1 + |b|;
    assert multiset(b0)[x] == multiset(a[..g1])[x];
    assert a == a[..g1 + 1] + a[g1 + 1..];
    assert multiset(a)[x] > multiset(b0)[x];
    if |b0| <= |a| {
      assert a[..|b0|] == a[..g1 + 1] + a[g1 + 1..|b0|];
      assert multiset(a[..|b0|])[x] > multiset(b0)[x];
    }
  }

  /** The matching loop of `deckComp` on copies a and b0 of two decks. */
  method DeckMatch(a: seq<Representative>, b0: seq<Representative>) returns (hylo: bool)
    ensures hylo <==> Matches(a, b0)
  {
    var b := b0;
    hylo := true;
    var graph1 := 0;
    while graph1 < |a|
      invariant 0 <= graph1 <= |a|
      invariant hylo
      invariant multiset(a[..graph1]) + multiset(b) == multiset(b0)
        || (b == [] && |b0| <= graph1 && multiset(a[..|b0|]) == multiset(b0))
    {
      var x := a[graph1];
      assert a[..graph1 + 1] == a[..graph1] + [x];
      var miss;
      b, miss := Search(x, b);
      if miss {
        MissRefutes(a, b0, b, graph1);
        hylo := false;
        return;
      }
      graph1 := graph1 + 1;
    }
    assert a[..graph1] == a;
  }

  /** The representatives of the first n cards of the graph whose copied
      lists are c. */
  ghost function CardReps(rep: Lists -> Representative, c: Lists, n: nat): (r: seq<Representative>)
    requires n <= |c|
    ensures |r| == n
  {
    if n == 0 then [] else CardReps(rep, c, n - 1) + [rep(CardRows(c, n - 1))]
  }

  lemma {:induction false} CardRepsIndex(rep: Lists -> Representative, c: Lists, n: nat, v: int)
    requires n <= |c| && 0 <= v < n
    ensures |CardReps(rep, c, n)| == n && CardReps(rep, c, n)[v] == rep(CardRows(c, v))
    decreases n
  {
    if n > 1 {
      CardRepsIndex(rep, c, n - 1, if v < n - 1 then v else 0);
    }
  }

  /** The representatives of the cards of g, in vertex order. */
  ghost function DeckOf(rep: Lists -> Representative, g: Graph): seq<Representative>
    reads g
    requires g.Valid()
  {
    CardReps(rep, CopyRows(g.vertices, |g.vertices|, g.size), |g.vertices|)
  }

  /** The entry of `classDecks` for one graph: the representative of every
      card of its deck. */
  method DeckReps(g: Graph, rep: Lists -> Representative) returns (cards: seq<Representative>)
    requires g.Valid()
    ensures cards == DeckOf(rep, g)
  {
    ghost var c := CopyRows(g.vertices, |g.vertices|, g.size);
    var deck := g.Deck();
    cards := [];
    var v := 0;
    while v < |deck|
      invariant 0 <= v <= |deck| && cards == CardReps(rep, c, v)
      modifies {}
    {
      assert deck[v].vertices == CardRows(c, v);
      cards := cards + [rep(deck[v].vertices)];
      v := v + 1;
    }
  }

  /** The deck representatives of every graph of a class, in order. */
  ghost function Decks(rep: Lists -> Representative, gs: seq<Graph>): (r: seq<seq<Representative>>)
    reads gs
    requires forall i :: 0 <= i < |gs| ==> gs[i].Valid()
    ensures |r| == |gs| && forall i :: 0 <= i < |gs| ==> r[i] == DeckOf(rep, gs[i])
  {
    seq(|gs|, i requires 0 <= i < |gs| && gs[i].Valid() reads gs => DeckOf(rep, gs[i]))
  }

  /** The first loop of `deckComp`: the deck representatives of every graph
      of the class. */
  method AllDecks(biClass: seq<Graph>, rep: Lists -> Representative) returns (classDecks: seq<seq<Representative>>)
    requires forall i :: 0 <= i < |biClass| ==> biClass[i].Valid()
    ensures classDecks == Decks(rep, biClass)
  {
    classDecks := [];
    var k := 0;
    while k < |biClass|
      invariant 0 <= k <= |biClass| && |classDecks| == k
      invariant forall u :: 0 <= u < k ==> classDecks[u] == DeckOf(rep, biClass[u])
    {
      var cards := DeckReps(biClass[k], rep);
      classDecks := classDecks + [cards];
      k := k + 1;
    }
  }

  /** Pair (i', j') comes before pair (i, j) in the order `deckComp` visits
      them. */
  predicate Before(i': int, j': int, i: int, j: int)
  {
    i' < i || (i' == i && j' < j)
  }

  /** No pair visited before (i, j) has matching decks. */
  predicate NoMatchBefore(decks: seq<seq<Representative>>, i: int, j: int)
  {
    forall i', j' :: 0 <= i' < j' < |decks| && Before(i', j', i, j) ==> !Matches(decks[i'], decks[j'])
  }

  /** No pair has matching decks. */
  predicate NoMatch(decks: seq<seq<Representative>>)
  {
    forall i, j :: 0 <= i < j < |decks| ==> !Matches(decks[i], decks[j])
  }

  /** The pair loops of `deckComp`: the first pair i < j, in visiting order,
      whose decks match. */
  method FirstMatch(decks: seq<seq<Representative>>) returns (found: bool, first: int, second: int)
    ensures found ==>
      0 <= first < second < |decks| && Matches(decks[first], decks[second]) && NoMatchBefore(decks, first, second)
    ensures !found ==> NoMatch(decks)
  {
    found, first, second := false, 0, 0;
    var i := 0;
    while i < |decks|
      invariant 0 <= i <= |decks|
      invariant forall i', j :: 0 <= i' < i && i' < j < |decks| ==> !Matches(decks[i'], decks[j])
    {
      var j := i + 1;
      while j < |decks|
        invariant i < j <= |decks|
        invariant forall i', j' :: 0 <= i' < i && i' < j' < |decks| ==> !Matches(decks[i'], decks[j'])
        invariant forall j' :: i < j' < j ==> !Matches(decks[i], decks[j'])
      {
        var hylo := DeckMatch(decks[i], decks[j]);
        if hylo {
          return true, i, j;
        }
        j := j + 1;
      }
      i := i + 1;
    }
  }

  /** `deckComp(biClass)`: compare the decks of every pair i < j in order;
      the first pair whose decks match is reported as a counterexample,
      and when no pair matches the list comes back unchanged. */
  method DeckComp(biClass: seq<Graph>, rep: Lists -> Representative) returns (verdict: Verdict)
    requires forall i :: 0 <= i < |biClass| ==> biClass[i].Valid()
    ensures verdict.Passed? ==> verdict.graphs == biClass && NoMatch(Decks(rep, biClass))
    ensures verdict.Counterexample? ==>
      && 0 <= verdict.first < verdict.second < |biClass|
      && Matches(Decks(rep, biClass)[verdict.first], Decks(rep, biClass)[verdict.second])
      && NoMatchBefore(Decks(rep, biClass), verdict.first, verdict.second)
  {
    var classDecks := AllDecks(biClass, rep);
    var found, first, second := FirstMatch(classDecks);
    if found {
      verdict := Counterexample(first, second);
    } else {
      verdict := Passed(biClass);
    }
  }

  // ---------------------------------------------------------------------
  // the driver with the canonical representative

  /** `filt(biClass)` as the program runs it, with the representative of
      the isomorphisms module. */
  method FiltCanonical(biClass: seq<Graph>) returns (kept: seq<Graph>, ghost from: seq<int>)
    requires forall i :: 0 <= i < |biClass| ==> InRange(biClass[i].vertices, |biClass[i].vertices|)
    ensures |from| == |kept|
    ensures forall k :: 0 <= k < |kept| ==> 0 <= from[k] < |biClass| && kept[k] == biClass[from[k]]
    ensures Filtered(Canonical, ListsOf(biClass), from)
  {
    kept, from := Filt(biClass, Canonical);
  }

  /** `deckComp(biClass)` as the program runs it, with the representative
      of the isomorphisms module. */
  method DeckCompCanonical(biClass: seq<Graph>) returns (verdict: Verdict)
    requires forall i :: 0 <= i < |biClass| ==> biClass[i].Valid()
    ensures verdict.Passed? ==> verdict.graphs == biClass && NoMatch(Decks(Canonical, biClass))
    ensures verdict.Counterexample? ==>
      && 0 <= verdict.first < verdict.second < |biClass|
      && Matches(Decks(Canonical, biClass)[verdict.first], Decks(Canonical, biClass)[verdict.second])
      && NoMatchBefore(Decks(Canonical, biClass), verdict.first, verdict.second)
  {
    verdict := DeckComp(biClass, Canonical);
  }
}
