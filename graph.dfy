/** The adjacency-list graph: vertex `u`'s neighbours are the list
    `vertices[u]`, kept symmetric and free of duplicates by `AddEdge`. A card
    is the graph with one vertex deleted and the larger ids shifted down; the
    deck is the list of all cards. */
module Graphs {

  type Lists = seq<seq<int>>

  /** `size` empty neighbour lists. */
  function Empty(size: nat): (r: Lists)
    ensures |r| == size && forall u :: 0 <= u < size ==> r[u] == []
  {
    seq(size, _ => [])
  }

  /** No value occurs twice in the list. */
  predicate NoDup(row: seq<int>)
  {
    forall i, j :: 0 <= i < j < |row| ==> row[i] != row[j]
  }

  /** Every neighbour id is a valid index below n. */
  predicate InRange(vs: Lists, n: int)
  {
    forall u, i :: 0 <= u < |vs| && 0 <= i < |vs[u]| ==> 0 <= vs[u][i] < n
  }

  /** A simple undirected graph: ids in range, no duplicates, no self-loops,
      and w is a neighbour of u exactly when u is a neighbour of w. */
  predicate Simple(vs: Lists)
  {
    && InRange(vs, |vs|)
    && (forall u :: 0 <= u < |vs| ==> NoDup(vs[u]) && u !in vs[u])
    && (forall u, w :: 0 <= u < |vs| && 0 <= w < |vs| && w in vs[u] ==> u in vs[w])
  }

  /** The lists after `addEdge(a, b)`: when b is not yet a neighbour of a,
      append b to a's list and then a to b's list. */
  function WithEdge(vs: Lists, a: int, b: int): (r: Lists)
    requires 0 <= a < |vs| && 0 <= b < |vs|
    ensures |r| == |vs|
  {
    if b in vs[a] then vs
    else
      var t := vs[a := vs[a] + [b]];
      t[b := t[b] + [a]]
  }

  /** addEdge between two distinct vertices of a simple graph keeps it simple,
      makes a and b neighbours, and adds no other adjacency. */
  lemma AddEdgeAdjacency(vs: Lists, a: int, b: int)
    requires Simple(vs) && 0 <= a < |vs| && 0 <= b < |vs| && a != b
    ensures Simple(WithEdge(vs, a, b))
    ensures forall u, w :: 0 <= u < |vs| ==>
      (w in WithEdge(vs, a, b)[u] <==> w in vs[u] || (u == a && w == b) || (u == b && w == a))
  {
    var r := WithEdge(vs, a, b);
    if b !in vs[a] {
      assert a !in vs[b];
      forall u | 0 <= u < |vs|
        ensures NoDup(r[u]) && u !in r[u]
      {
        if u == a {
          assert r[u] == vs[a] + [b];
        } else if u == b {
          assert r[u] == vs[b] + [a];
        } else {
          assert r[u] == vs[u];
        }
      }
      forall u, w | 0 <= u < |vs|
        ensures w in r[u] <==> w in vs[u] || (u == a && w == b) || (u == b && w == a)
      {
        if u == a {
          assert r[u] == vs[a] + [b];
        } else if u == b {
          assert r[u] == vs[b] + [a];
        }
      }
    }
  }

  /** addEdge changes only the lists of a and b: every other list is kept,
      and on an existing edge nothing changes at all. */
  lemma AddEdgeFrame(vs: Lists, a: int, b: int)
    requires 0 <= a < |vs| && 0 <= b < |vs|
    ensures forall u :: 0 <= u < |vs| && u != a && u != b ==> WithEdge(vs, a, b)[u] == vs[u]
    ensures b in vs[a] ==> WithEdge(vs, a, b) == vs
  {
  }

  // ---------------------------------------------------------------------
  // copy

  /** The lists of a fresh graph of `size` vertices after `addEdge(u, row[k])`
      for every k in order, starting from `acc`. */
  function AddRow(acc: Lists, u: int, row: seq<int>): (r: Lists)
    requires 0 <= u < |acc| && forall k :: 0 <= k < |row| ==> 0 <= row[k] < |acc|
    ensures |r| == |acc|
  {
    if |row| == 0 then acc
    else WithEdge(AddRow(acc, u, row[..|row| - 1]), u, row[|row| - 1])
  }

  /** The lists built by `copy` after its outer loop has visited vertices 0 .. n-1. */
  function CopyRows(vs: Lists, n: nat, size: nat): (r: Lists)
    requires n <= |vs| <= size && InRange(vs, size)
    ensures |r| == size
  {
    if n == 0 then Empty(size)
    else AddRow(CopyRows(vs, n - 1, size), n - 1, vs[n - 1])
  }

  /** Neighbour lists without duplicates, where adjacency is symmetric. */
  predicate Symmetric(vs: Lists)
  {
    && (forall x :: 0 <= x < |vs| ==> NoDup(vs[x]))
    && (forall x, y :: 0 <= x < |vs| && 0 <= y < |vs| && y in vs[x] ==> x in vs[y])
  }

  /** addEdge between distinct vertices keeps lists duplicate-free and symmetric. */
  lemma WithEdgeSymmetric(m: Lists, u: int, b: int)
    requires Symmetric(m) && 0 <= u < |m| && 0 <= b < |m| && u != b
    ensures Symmetric(WithEdge(m, u, b))
    ensures forall x, y :: 0 <= x < |m| && y in WithEdge(m, u, b)[x] ==>
      y in m[x] || (x == u && y == b) || (x == b && y == u)
    ensures forall x, y :: 0 <= x < |m| && y in m[x] ==> y in WithEdge(m, u, b)[x]
    ensures b in WithEdge(m, u, b)[u] && u in WithEdge(m, u, b)[b]
  {
    var r := WithEdge(m, u, b);
    if b !in m[u] {
      assert u !in m[b];
      forall x | 0 <= x < |m|
        ensures NoDup(r[x])
        ensures forall y :: y in r[x] <==> y in m[x] || (x == u && y == b) || (x == b && y == u)
      {
        if x == u {
          assert r[x] == m[x] + [b];
        } else if x == b {
          assert r[x] == m[x] + [u];
        } else {
          assert r[x] == m[x];
        }
      }
    }
  }

  /** Membership after replaying one row: the row's pairs are added symmetrically. */
  lemma {:induction false} AddRowAdjacency(acc: Lists, u: int, row: seq<int>)
    requires 0 <= u < |acc| && forall k :: 0 <= k < |row| ==> 0 <= row[k] < |acc|
    requires Symmetric(acc) && u !in row
    ensures Symmetric(AddRow(acc, u, row))
    ensures forall x, y {:trigger y in AddRow(acc, u, row)[x]} :: 0 <= x < |acc| && y in AddRow(acc, u, row)[x] ==>
      y in acc[x] || (x == u && y in row) || (y == u && x in row)
    ensures forall x, y :: 0 <= x < |acc| && y in acc[x] ==> y in AddRow(acc, u, row)[x]
    ensures forall k :: 0 <= k < |row| ==>
      row[k] in AddRow(acc, u, row)[u] && u in AddRow(acc, u, row)[row[k]]
    decreases |row|
  {
    if |row| > 0 {
      var front, b := row[..|row| - 1], row[|row| - 1];
      assert row == front + [b];
      var m := AddRow(acc, u, front);
      AddRowAdjacency(acc, u, front);
      WithEdgeSymmetric(m, u, b);
      var r := AddRow(acc, u, row);
      assert r == WithEdge(m, u, b);
      forall x, y {:trigger y in r[x]} | 0 <= x < |acc| && y in r[x]
        ensures y in acc[x] || (x == u && y in row) || (y == u && x in row)
      {
        if y !in m[x] {
          assert (x == u && y == b) || (x == b && y == u);
        } else {
          assert y in acc[x] || (x == u && y in front) || (y == u && x in front);
          assert y in front ==> y in row;
          assert x in front ==> x in row;
        }
      }
      forall k | 0 <= k < |row|
        ensures row[k] in r[u] && u in r[row[k]]
      {
        if k < |front| {
          assert row[k] == front[k];
        }
      }
    }
  }

  /** What `copy` has built after visiting vertices 0 .. n-1: exactly the
      pairs met so far, in both directions, without duplicates. */
  lemma {:induction false} CopyRowsAdjacency(vs: Lists, n: nat, size: nat)
    requires n <= |vs| <= size && InRange(vs, size)
    requires forall x :: 0 <= x < |vs| ==> x !in vs[x]
    ensures Symmetric(CopyRows(vs, n, size))
    ensures forall x, y {:trigger y in CopyRows(vs, n, size)[x]} :: 0 <= x < size && y in CopyRows(vs, n, size)[x] ==>
      (x < n && y in vs[x]) || (0 <= y < n && x in vs[y])
    ensures forall x, k :: 0 <= x < n && 0 <= k < |vs[x]| ==>
      vs[x][k] in CopyRows(vs, n, size)[x] && x in CopyRows(vs, n, size)[vs[x][k]]
    decreases n
  {
    if n > 0 {
      var prev := CopyRows(vs, n - 1, size);
      CopyRowsAdjacency(vs, n - 1, size);
      AddRowAdjacency(prev, n - 1, vs[n - 1]);
    }
  }

  /** One pair of what `copy` has built: each entry comes from an original list. */
  lemma CopyRowsMember(vs: Lists, n: nat, size: nat, x: int, y: int)
    requires n <= |vs| <= size && InRange(vs, size)
    requires forall u :: 0 <= u < |vs| ==> u !in vs[u]
    requires 0 <= x < size && y in CopyRows(vs, n, size)[x]
    ensures (x < n && y in vs[x]) || (0 <= y < n && x in vs[y])
  {
    CopyRowsAdjacency(vs, n, size);
  }

  /** One pair of what `copy` has built: each original entry is there in both directions. */
  lemma CopyRowsHas(vs: Lists, n: nat, size: nat, x: int, k: int)
    requires n <= |vs| <= size && InRange(vs, size)
    requires forall u :: 0 <= u < |vs| ==> u !in vs[u]
    requires 0 <= x < n && 0 <= k < |vs[x]|
    ensures vs[x][k] in CopyRows(vs, n, size)[x] && x in CopyRows(vs, n, size)[vs[x][k]]
  {
    CopyRowsAdjacency(vs, n, size);
  }

  /** `copy` of a simple graph is a simple graph with the same neighbour set
      at every vertex (list order may differ); vertices beyond the original
      lists get empty lists. */
  lemma CopyAdjacency(vs: Lists, size: nat)
    requires Simple(vs) && |vs| <= size
    ensures |CopyRows(vs, |vs|, size)| == size
    ensures forall x, y :: 0 <= x < |vs| ==> (y in CopyRows(vs, |vs|, size)[x] <==> y in vs[x])
    ensures forall x :: |vs| <= x < size ==> CopyRows(vs, |vs|, size)[x] == []
    ensures |vs| == size ==> Simple(CopyRows(vs, |vs|, size))
  {
    var r := CopyRows(vs, |vs|, size);
    CopyRowsAdjacency(vs, |vs|, size);
    forall x, y | 0 <= x < size && y in r[x]
      ensures x < |vs| && 0 <= y < |vs| && y in vs[x]
    {
    }
    forall x, y | 0 <= x < |vs| && y in vs[x]
      ensures y in r[x]
    {
      var k :| 0 <= k < |vs[x]| && vs[x][k] == y;
    }
    forall x, i | 0 <= x < size && 0 <= i < |r[x]|
      ensures 0 <= r[x][i] < |vs|
    {
      assert r[x][i] in r[x];
    }
    forall x | 0 <= x < size && |r[x]| > 0
      ensures x < |vs|
    {
      assert r[x][0] in r[x];
    }
  }

  // ---------------------------------------------------------------------
  // card

  /** The first entry of a list, 0 for the empty list. */
  function Head(row: seq<int>): int
  {
    if |row| > 0 then row[0] else 0
  }

  /** Python's `row.remove(d)`, applied only when d is in the row. */
  function RemoveFirst(row: seq<int>, d: int): (r: seq<int>)
    ensures d in row ==> |r| == |row| - 1
    ensures d !in row ==> r == row
  {
    if |row| == 0 then []
    else
      assert row == [row[0]] + row[1..];
      if row[0] == d then row[1..]
      else [row[0]] + RemoveFirst(row[1..], d)
  }

  /** The id a vertex of the card had in the original graph. */
  function Up(x: int, d: int): int
  {
    if x < d then x else x + 1
  }

  /** The id a surviving vertex gets in the card. */
  function Down(y: int, d: int): int
  {
    if y > d then y - 1 else y
  }

  /** Every id above d moved down by one. */
  function Relabel(row: seq<int>, d: int): (r: seq<int>)
    ensures |r| == |row|
  {
    seq(|row|, k requires 0 <= k < |row| => Down(row[k], d))
  }

  /** One list of the card: d removed, larger ids shifted down. */
  function CardRow(row: seq<int>, d: int): seq<int>
  {
    Relabel(RemoveFirst(row, d), d)
  }

  /** The lists of `card(d)`: every list relabelled, then list d deleted. */
  function CardRows(vs: Lists, d: int): (r: Lists)
    requires 0 <= d < |vs|
    ensures |r| == |vs| - 1
  {
    var relabelled := seq(|vs|, u requires 0 <= u < |vs| => CardRow(vs[u], d));
    relabelled[..d] + relabelled[d + 1..]
  }

  /** Removing d from a duplicate-free list removes every occurrence of it. */
  lemma {:induction false} RemoveFirstMembers(row: seq<int>, d: int)
    requires NoDup(row)
    ensures NoDup(RemoveFirst(row, d))
    ensures forall y :: y in RemoveFirst(row, d) <==> y in row && y != d
    decreases |row|
  {
    if |row| > 0 {
      var head, tail := row[0], row[1..];
      assert row == [head] + tail;
      assert NoDup(tail);
      assert head !in tail;
      if head != d {
        RemoveFirstMembers(tail, d);
        var r := RemoveFirst(row, d);
        assert r == [head] + RemoveFirst(tail, d);
        forall i, j | 0 <= i < j < |r|
          ensures r[i] != r[j]
        {
          if i == 0 {
            assert r[j] in RemoveFirst(tail, d);
          } else {
            assert r[i] == RemoveFirst(tail, d)[i - 1];
          }
        }
      }
    }
  }

  /** Relabelling keeps the list duplicate-free when d is absent, and x is
      in the result exactly when Up(x) is in the list. */
  lemma RelabelMembers(row: seq<int>, d: int)
    requires NoDup(row) && d !in row
    ensures NoDup(Relabel(row, d))
    ensures forall x :: x in Relabel(row, d) <==> Up(x, d) in row
  {
    var r := Relabel(row, d);
    forall x
      ensures x in r <==> Up(x, d) in row
    {
      if x in r {
        var k :| 0 <= k < |r| && r[k] == x;
        assert row[k] in row;
        assert Up(x, d) == row[k];
      }
      if Up(x, d) in row {
        var k :| 0 <= k < |row| && row[k] == Up(x, d);
        assert r[k] == x;
      }
    }
    forall i, j | 0 <= i < j < |r|
      ensures r[i] != r[j]
    {
      assert row[i] in row && row[j] in row;
    }
  }

  /** One card list: x is in it exactly when Up(x) is in the original list. */
  lemma CardRowMembers(row: seq<int>, d: int)
    requires NoDup(row)
    ensures NoDup(CardRow(row, d))
    ensures forall x :: x in CardRow(row, d) <==> Up(x, d) in row
  {
    RemoveFirstMembers(row, d);
    RelabelMembers(RemoveFirst(row, d), d);
    forall x
      ensures Up(x, d) in RemoveFirst(row, d) <==> Up(x, d) in row
    {
      assert Up(x, d) != d;
    }
  }

  /** List u of the card is the relabelled list of the original vertex Up(u). */
  lemma CardRowsAt(vs: Lists, d: int, u: int)
    requires 0 <= d < |vs| && 0 <= u < |vs| - 1
    ensures CardRows(vs, d)[u] == CardRow(vs[Up(u, d)], d)
  {
  }

  /** `card(d)` of a simple graph is a simple graph on one vertex fewer, and
      u ~ w in the card exactly when Up(u) ~ Up(w) in the original. */
  lemma CardAdjacency(vs: Lists, d: int)
    requires Simple(vs) && 0 <= d < |vs|
    ensures Simple(CardRows(vs, d))
    ensures forall u, w :: 0 <= u < |vs| - 1 ==>
      (w in CardRows(vs, d)[u] <==> Up(w, d) in vs[Up(u, d)])
  {
    var r := CardRows(vs, d);
    var n := |vs| - 1;
    forall u | 0 <= u < n
      ensures NoDup(r[u]) && forall x :: x in r[u] <==> Up(x, d) in vs[Up(u, d)]
    {
      CardRowsAt(vs, d, u);
      CardRowMembers(vs[Up(u, d)], d);
    }
    forall u, i | 0 <= u < n && 0 <= i < |r[u]|
      ensures 0 <= r[u][i] < n
    {
      var x := r[u][i];
      assert x in r[u];
      var k :| 0 <= k < |vs[Up(u, d)]| && vs[Up(u, d)][k] == Up(x, d);
    }
  }

  /** What `card(d)` computes from a simple graph whose list count equals its
      size: a simple graph in which u ~ w exactly when Up(u) ~ Up(w) in the
      original, whatever order `copy` left the lists in. */
  lemma CardOfCopy(vs: Lists, d: int)
    requires Simple(vs) && 0 <= d < |vs|
    ensures Simple(CardRows(CopyRows(vs, |vs|, |vs|), d))
    ensures forall u, w :: 0 <= u < |vs| - 1 ==>
      (w in CardRows(CopyRows(vs, |vs|, |vs|), d)[u] <==> Up(w, d) in vs[Up(u, d)])
  {
    var c := CopyRows(vs, |vs|, |vs|);
    CopyAdjacency(vs, |vs|);
    CardAdjacency(c, d);
    forall u, w | 0 <= u < |vs| - 1
      ensures w in CardRows(c, d)[u] <==> Up(w, d) in vs[Up(u, d)]
    {
      assert w in CardRows(c, d)[u] <==> Up(w, d) in c[Up(u, d)];
    }
  }

  /** Down undoes Up. */
  lemma UpDown(x: int, d: int)
    ensures Down(Up(x, d), d) == x
    ensures x != d ==> Up(Down(x, d), d) == x
  {
  }

  // ---------------------------------------------------------------------
  // The graph object

  class Graph {
    /** The vertex count given at construction; `card` never decrements it. */
    var size: nat
    var vertices: Lists

    /** The state `copy` and `card` rely on: every list index and every
        neighbour id is below `size`. */
    predicate Valid()
      reads this
    {
      |vertices| <= size && InRange(vertices, size)
    }

    /** `Graph(size)`: `size` empty neighbour lists. */
    constructor (size: nat)
      ensures this.size == size && vertices == Empty(size)
      ensures Valid()
    {
      this.size := size;
      vertices := Empty(size);
    }

    /** `addEdge(a, b)`. */
    method AddEdge(a: int, b: int)
      requires Valid()
      requires 0 <= a < |vertices| && 0 <= b < |vertices|
      modifies this
      ensures Valid() && size == old(size)
      ensures vertices == WithEdge(old(vertices), a, b)
    {
      if b !in vertices[a] {
        vertices := vertices[a := vertices[a] + [b]];
        vertices := vertices[b := vertices[b] + [a]];
      }
    }

    /** `copy()`: a fresh graph of the same size, rebuilt by `addEdge` over
        every (v1, v2) with v2 in `vertices[v1]`. */
    method Copy() returns (c: Graph)
      requires Valid()
      ensures fresh(c) && c.size == size && c.Valid()
      ensures c.vertices == CopyRows(vertices, |vertices|, size)
    {
      c := new Graph(size);
      var v1 := 0;
      while v1 < |vertices|
        invariant 0 <= v1 <= |vertices|
        invariant c.Valid() && c.size == size && c.vertices == CopyRows(vertices, v1, size)
      {
        var row := vertices[v1];
        var j := 0;
        while j < |row|
          invariant 0 <= j <= |row|
          invariant c.Valid() && c.size == size
          invariant c.vertices == AddRow(CopyRows(vertices, v1, size), v1, row[..j])
        {
          assert row[..j + 1][..j] == row[..j];
          c.AddEdge(v1, row[j]);
          j := j + 1;
        }
        assert row[..j] == row;
        v1 := v1 + 1;
      }
      CopyInRange(vertices, size);
    }

    /** `card(d)`: copy the graph, remove d from every list, shift every id
        above d down by one, and delete list d. The size is kept. */
    method Card(d: int) returns (c: Graph)
      requires Valid() && 0 <= d < size
      ensures fresh(c) && c.size == size
      ensures c.vertices == CardRows(CopyRows(vertices, |vertices|, size), d)
    {
      c := Copy();
      ghost var w0 := c.vertices;
      var vertex := 0;
      while vertex < |c.vertices|
        invariant 0 <= vertex <= |c.vertices| == |w0|
        invariant c.size == size
        invariant forall u :: 0 <= u < vertex ==> c.vertices[u] == CardRow(w0[u], d)
        invariant forall u :: vertex <= u < |w0| ==> c.vertices[u] == w0[u]
      {
        var row := c.vertices[vertex];
        if d in row {
          row := RemoveFirst(row, d);
        }
        ghost var r0 := row;
        var edge := 0;
        while edge < |row|
          invariant 0 <= edge <= |row| == |r0|
          invariant forall k :: 0 <= k < edge ==> row[k] == Down(r0[k], d)
          invariant forall k :: edge <= k < |row| ==> row[k] == r0[k]
        {
          if row[edge] > d {
            row := row[edge := row[edge] - 1];
          }
          edge := edge + 1;
        }
        assert row == Relabel(r0, d);
        c.vertices := c.vertices[vertex := row];
        vertex := vertex + 1;
      }
      c.vertices := c.vertices[..d] + c.vertices[d + 1..];
    }

    /** `deck()`: one card per vertex, in ascending vertex order. */
    method Deck() returns (deck: seq<Graph>)
      requires Valid()
      ensures |deck| == |vertices|
      ensures forall v :: 0 <= v < |deck| ==>
        fresh(deck[v]) && deck[v].size == size
        && deck[v].vertices == CardRows(CopyRows(vertices, |vertices|, size), v)
    {
      deck := [];
      var vertex := 0;
      while vertex < |vertices|
        invariant 0 <= vertex <= |vertices| && |deck| == vertex
        invariant forall v :: 0 <= v < vertex ==>
          fresh(deck[v]) && deck[v].size == size
          && deck[v].vertices == CardRows(CopyRows(vertices, |vertices|, size), v)
      {
        var card := Card(vertex);
        deck := deck + [card];
        vertex := vertex + 1;
      }
    }
  }

  /** The lists `copy` builds keep every id below `size`. */
  lemma CopyInRange(vs: Lists, size: nat)
    requires |vs| <= size && InRange(vs, size)
    ensures InRange(CopyRows(vs, |vs|, size), size)
  {
    CopyRowsInRange(vs, |vs|, size);
  }

  lemma {:induction false} CopyRowsInRange(vs: Lists, n: nat, size: nat)
    requires n <= |vs| <= size && InRange(vs, size)
    ensures InRange(CopyRows(vs, n, size), size)
    decreases n
  {
    if n > 0 {
      CopyRowsInRange(vs, n - 1, size);
      AddRowInRange(CopyRows(vs, n - 1, size), n - 1, vs[n - 1]);
    }
  }

  lemma {:induction false} AddRowInRange(acc: Lists, u: int, row: seq<int>)
    requires 0 <= u < |acc| && forall k :: 0 <= k < |row| ==> 0 <= row[k] < |acc|
    requires InRange(acc, |acc|)
    ensures InRange(AddRow(acc, u, row), |acc|)
    decreases |row|
  {
    if |row| > 0 {
      AddRowInRange(acc, u, row[..|row| - 1]);
    }
  }

  /** `Digraph`: a directed graph whose `addEdge` only appends. */
  class Digraph {
    var size: nat
    var vertices: Lists

    constructor (size: nat)
      ensures this.size == size && vertices == Empty(size)
    {
      this.size := size;
      vertices := Empty(size);
    }

    /** `Digraph.addEdge(a, b)`: append b to a's list, even when already present. */
    method AddEdge(a: int, b: int)
      requires 0 <= a < |vertices|
      modifies this
      ensures size == old(size)
      ensures vertices == old(vertices)[a := old(vertices)[a] + [b]]
    {
      vertices := vertices[a := vertices[a] + [b]];
    }
  }
}
