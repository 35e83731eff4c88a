/** Orders and grouping shared by the refinement code: Python's ordering of
    lists, `sorted(set(keys))`, and splitting a list into groups of equal
    key, one group per distinct key in ascending key order. */
module Orders {

  /** lt is a strict total order: irreflexive, transitive and total. */
  ghost predicate StrictTotal<K(!new)>(lt: (K, K) -> bool)
  {
    && (forall a :: !lt(a, a))
    && (forall a, b, c :: lt(a, b) && lt(b, c) ==> lt(a, c))
    && (forall a, b :: a != b ==> lt(a, b) || lt(b, a))
  }

  function NatLess(x: nat, y: nat): bool
  {
    x < y
  }

  function NatGreater(x: nat, y: nat): bool
  {
    x > y
  }

  lemma NatOrders()
    ensures StrictTotal(NatLess) && StrictTotal(NatGreater)
  {
  }

  // ---------------------------------------------------------------------
  // Python's comparison of lists

  /** a < b on Python lists: the first position where they differ decides
      by lt, and a proper prefix comes first. */
  function Lex<T(==)>(lt: (T, T) -> bool, a: seq<T>, b: seq<T>): bool
    decreases |a|
  {
    if |a| == 0 then |b| > 0
    else if |b| == 0 then false
    else if a[0] == b[0] then Lex(lt, a[1..], b[1..])
    else lt(a[0], b[0])
  }

  lemma {:induction false} LexIrreflexive<T(!new)>(lt: (T, T) -> bool, a: seq<T>)
    ensures !Lex(lt, a, a)
    decreases |a|
  {
    if |a| > 0 {
      LexIrreflexive(lt, a[1..]);
    }
  }

  lemma {:induction false} LexTransitive<T(!new)>(lt: (T, T) -> bool, a: seq<T>, b: seq<T>, c: seq<T>)
    requires StrictTotal(lt)
    requires Lex(lt, a, b) && Lex(lt, b, c)
    ensures Lex(lt, a, c)
    decreases |a|
  {
    if |a| > 0 && a[0] == b[0] && b[0] == c[0] {
      LexTransitive(lt, a[1..], b[1..], c[1..]);
    }
  }

  lemma {:induction false} LexTotal<T(!new)>(lt: (T, T) -> bool, a: seq<T>, b: seq<T>)
    requires StrictTotal(lt)
    requires a != b
    ensures Lex(lt, a, b) || Lex(lt, b, a)
    decreases |a|
  {
    if |a| > 0 && |b| > 0 && a[0] == b[0] {
      assert a == [a[0]] + a[1..] && b == [b[0]] + b[1..];
      LexTotal(lt, a[1..], b[1..]);
    }
  }

  /** Python's list order over a strict total order is a strict total order. */
  lemma LexStrictTotal<T(!new)>(lt: (T, T) -> bool)
    requires StrictTotal(lt)
    ensures StrictTotal((a: seq<T>, b: seq<T>) => Lex(lt, a, b))
  {
    forall a: seq<T>
      ensures !Lex(lt, a, a)
    {
      LexIrreflexive(lt, a);
    }
    forall a: seq<T>, b: seq<T>, c: seq<T> | Lex(lt, a, b) && Lex(lt, b, c)
      ensures Lex(lt, a, c)
    {
      LexTransitive(lt, a, b, c);
    }
    forall a: seq<T>, b: seq<T> | a != b
      ensures Lex(lt, a, b) || Lex(lt, b, a)
    {
      LexTotal(lt, a, b);
    }
  }

  // ---------------------------------------------------------------------
  // sorted(set(keys))

  predicate Ascending<K>(lt: (K, K) -> bool, s: seq<K>)
  {
    forall i, j :: 0 <= i < j < |s| ==> lt(s[i], s[j])
  }

  /** Insert k into the ascending s unless it is already there. */
  function Insert<K(==)>(lt: (K, K) -> bool, s: seq<K>, k: K): (r: seq<K>)
    decreases |s|
  {
    if |s| == 0 then [k]
    else if s[0] == k then s
    else if lt(k, s[0]) then [k] + s
    else [s[0]] + Insert(lt, s[1..], k)
  }

  /** `sorted(set(keys))`: the distinct keys in ascending order. */
  function SortedSet<K(==)>(lt: (K, K) -> bool, keys: seq<K>): (r: seq<K>)
    decreases |keys|
  {
    if |keys| == 0 then []
    else Insert(lt, SortedSet(lt, keys[..|keys| - 1]), keys[|keys| - 1])
  }

  lemma {:induction false} InsertSpec<K(!new)>(lt: (K, K) -> bool, s: seq<K>, k: K)
    requires StrictTotal(lt) && Ascending(lt, s)
    ensures Ascending(lt, Insert(lt, s, k))
    ensures forall x :: x in Insert(lt, s, k) <==> x in s || x == k
    decreases |s|
  {
    if |s| > 0 && s[0] != k && !lt(k, s[0]) {
      var tail := s[1..];
      InsertSpec(lt, tail, k);
      var r := Insert(lt, s, k);
      assert r == [s[0]] + Insert(lt, tail, k);
      forall i, j | 0 <= i < j < |r|
        ensures lt(r[i], r[j])
      {
        if i == 0 {
          assert r[j] in Insert(lt, tail, k);
          if r[j] != k {
            var m :| 0 <= m < |tail| && tail[m] == r[j];
            assert s[m + 1] == r[j];
          }
        }
      }
      assert s == [s[0]] + tail;
    }
  }

  /** `sorted(set(keys))` is strictly ascending and holds exactly the keys. */
  lemma {:induction false} SortedSetSpec<K(!new)>(lt: (K, K) -> bool, keys: seq<K>)
    requires StrictTotal(lt)
    ensures Ascending(lt, SortedSet(lt, keys))
    ensures forall x :: x in SortedSet(lt, keys) <==> x in keys
    decreases |keys|
  {
    if |keys| > 0 {
      var front := keys[..|keys| - 1];
      SortedSetSpec(lt, front);
      InsertSpec(lt, SortedSet(lt, front), keys[|keys| - 1]);
      assert keys == front + [keys[|keys| - 1]];
    }
  }

  // ---------------------------------------------------------------------
  // Grouping by key

  /** The items whose key is k, in their original order; keys[p] is the key
      of items[p]. */
  function Group<E, K(==)>(items: seq<E>, keys: seq<K>, k: K): (r: seq<E>)
    requires |keys| == |items|
    decreases |items|
  {
    if |items| == 0 then []
    else
      Group(items[..|items| - 1], keys[..|keys| - 1], k)
        + (if keys[|keys| - 1] == k then [items[|items| - 1]] else [])
  }

  /** The items split by key: one group per distinct key, groups in
      ascending key order, each group in the items' order. */
  function Groups<E, K(==)>(lt: (K, K) -> bool, items: seq<E>, keys: seq<K>): (r: seq<seq<E>>)
    requires |keys| == |items|
    ensures |r| == |SortedSet(lt, keys)|
  {
    var ks := SortedSet(lt, keys);
    seq(|ks|, t requires 0 <= t < |ks| => Group(items, keys, ks[t]))
  }

  /** The concatenation of a list of lists. */
  function Flatten<E>(s: seq<seq<E>>): seq<E>
    decreases |s|
  {
    if |s| == 0 then [] else Flatten(s[..|s| - 1]) + s[|s| - 1]
  }

  lemma {:induction false} FlattenAppend<E>(a: seq<seq<E>>, b: seq<seq<E>>)
    ensures Flatten(a + b) == Flatten(a) + Flatten(b)
    decreases |b|
  {
    if |b| == 0 {
      assert a + b == a;
    } else {
      var front, last := b[..|b| - 1], b[|b| - 1];
      assert (a + b)[..|a + b| - 1] == a + front;
      assert (a + b)[|a + b| - 1] == last;
      calc {
        Flatten(a + b);
        Flatten(a + front) + last;
        { FlattenAppend(a, front); }
        Flatten(a) + Flatten(front) + last;
        Flatten(a) + Flatten(b);
      }
    }
  }

  /** An item of a group sits at a position of items with that key. */
  lemma {:induction false} GroupMember<E, K>(items: seq<E>, keys: seq<K>, k: K, x: E)
    requires |keys| == |items| && x in Group(items, keys, k)
    ensures exists p :: 0 <= p < |items| && items[p] == x && keys[p] == k
    decreases |items|
  {
    var n := |items|;
    if x in Group(items[..n - 1], keys[..n - 1], k) {
      GroupMember(items[..n - 1], keys[..n - 1], k, x);
      var p :| 0 <= p < n - 1 && items[..n - 1][p] == x && keys[..n - 1][p] == k;
      assert items[p] == x && keys[p] == k;
    }
  }

  /** Every item at a position with key k is in the group of k. */
  lemma {:induction false} GroupHas<E, K>(items: seq<E>, keys: seq<K>, p: int)
    requires |keys| == |items| && 0 <= p < |items|
    ensures items[p] in Group(items, keys, keys[p])
    decreases |items|
  {
    var n := |items|;
    if p < n - 1 {
      GroupHas(items[..n - 1], keys[..n - 1], p);
    }
  }

  /** Every group holds only items. */
  lemma GroupsWithin<E, K>(lt: (K, K) -> bool, items: seq<E>, keys: seq<K>)
    requires |keys| == |items|
    ensures forall t, x :: 0 <= t < |Groups(lt, items, keys)| && x in Groups(lt, items, keys)[t] ==> x in items
  {
    var ks := SortedSet(lt, keys);
    forall t, x | 0 <= t < |ks| && x in Group(items, keys, ks[t])
      ensures x in items
    {
      GroupMember(items, keys, ks[t], x);
    }
  }

  /** A group is no longer than the items. */
  lemma {:induction false} GroupLength<E, K>(items: seq<E>, keys: seq<K>, k: K)
    requires |keys| == |items|
    ensures |Group(items, keys, k)| <= |items|
    ensures (forall p :: 0 <= p < |items| ==> keys[p] == k) ==> Group(items, keys, k) == items
    decreases |items|
  {
    var n := |items|;
    if n > 0 {
      GroupLength(items[..n - 1], keys[..n - 1], k);
      if forall p :: 0 <= p < n ==> keys[p] == k {
        var kf := keys[..n - 1];
        forall p | 0 <= p < n - 1
          ensures kf[p] == k
        {
          assert kf[p] == keys[p];
        }
        assert items == items[..n - 1] + [items[n - 1]];
      }
    }
  }

  /** The items of a group, as a multiset, taken over a list of keys. */
  function GroupsBag<E, K(==)>(items: seq<E>, keys: seq<K>, ks: seq<K>): multiset<E>
    requires |keys| == |items|
    decreases |ks|
  {
    if |ks| == 0 then multiset{}
    else GroupsBag(items, keys, ks[..|ks| - 1]) + multiset(Group(items, keys, ks[|ks| - 1]))
  }

  /** Adding one item adds it to the bag once when its key is among the
      distinct ks, and not at all otherwise. */
  lemma {:induction false} GroupsBagSnoc<E, K>(items: seq<E>, keys: seq<K>, ks: seq<K>, x: E, kx: K)
    requires |keys| == |items|
    requires forall i, j :: 0 <= i < j < |ks| ==> ks[i] != ks[j]
    ensures GroupsBag(items + [x], keys + [kx], ks) ==
      GroupsBag(items, keys, ks) + (if kx in ks then multiset{x} else multiset{})
    decreases |ks|
  {
    var items', keys' := items + [x], keys + [kx];
    assert items'[..|items'| - 1] == items && keys'[..|keys'| - 1] == keys;
    if |ks| > 0 {
      var front := ks[..|ks| - 1];
      GroupsBagSnoc(items, keys, front, x, kx);
      if kx in ks && kx !in front {
        assert ks[|ks| - 1] == kx;
      }
      if kx in front {
        var i :| 0 <= i < |front| && front[i] == kx;
        assert ks[i] == kx;
      }
    }
  }

  /** When ks lists each key of the items exactly once, the groups of ks
      hold every item exactly once. */
  lemma {:induction false} GroupsBagAll<E, K>(items: seq<E>, keys: seq<K>, ks: seq<K>)
    requires |keys| == |items|
    requires forall i, j :: 0 <= i < j < |ks| ==> ks[i] != ks[j]
    requires forall p :: 0 <= p < |keys| ==> keys[p] in ks
    ensures GroupsBag(items, keys, ks) == multiset(items)
    decreases |items|
  {
    var n := |items|;
    if n == 0 {
      GroupsBagEmpty(items, keys, ks);
    } else {
      var front, kfront := items[..n - 1], keys[..n - 1];
      var x, kx := items[n - 1], keys[n - 1];
      assert forall p :: 0 <= p < |kfront| ==> kfront[p] in ks by {
        forall p | 0 <= p < |kfront|
          ensures kfront[p] in ks
        {
          assert kfront[p] == keys[p];
        }
      }
      GroupsBagAll(front, kfront, ks);
      assert kx in ks;
      assert items == front + [x] && keys == kfront + [kx];
      GroupsBagSnoc(front, kfront, ks, x, kx);
    }
  }

  lemma {:induction false} GroupsBagEmpty<E, K>(items: seq<E>, keys: seq<K>, ks: seq<K>)
    requires |keys| == |items| == 0
    ensures GroupsBag(items, keys, ks) == multiset{}
    decreases |ks|
  {
    if |ks| > 0 {
      GroupsBagEmpty(items, keys, ks[..|ks| - 1]);
    }
  }

  /** The concatenated groups, as a multiset, are the bag of the groups. */
  lemma {:induction false} FlattenGroupsBag<E, K>(items: seq<E>, keys: seq<K>, ks: seq<K>)
    requires |keys| == |items|
    ensures multiset(Flatten(seq(|ks|, t requires 0 <= t < |ks| => Group(items, keys, ks[t]))))
      == GroupsBag(items, keys, ks)
    decreases |ks|
  {
    if |ks| > 0 {
      var front := ks[..|ks| - 1];
      FlattenGroupsBag(items, keys, front);
      var gs := seq(|ks|, t requires 0 <= t < |ks| => Group(items, keys, ks[t]));
      assert gs[..|gs| - 1] == seq(|front|, t requires 0 <= t < |front| => Group(items, keys, front[t]));
    }
  }

  /** Grouping rearranges the items: the groups concatenated are a
      permutation of the items; each group is nonempty and holds exactly the
      items of its key; and the group keys ascend. */
  lemma GroupsSpec<E, K(!new)>(lt: (K, K) -> bool, items: seq<E>, keys: seq<K>)
    requires StrictTotal(lt) && |keys| == |items|
    ensures multiset(Flatten(Groups(lt, items, keys))) == multiset(items)
    ensures forall t :: 0 <= t < |Groups(lt, items, keys)| ==> |Groups(lt, items, keys)[t]| > 0
    ensures |items| > 0 ==> |Groups(lt, items, keys)| > 0
  {
    var ks := SortedSet(lt, keys);
    SortedSetSpec(lt, keys);
    forall i, j | 0 <= i < j < |ks|
      ensures ks[i] != ks[j]
    {
      assert lt(ks[i], ks[j]);
    }
    FlattenGroupsBag(items, keys, ks);
    GroupsBagAll(items, keys, ks);
    forall t | 0 <= t < |ks|
      ensures |Group(items, keys, ks[t])| > 0
    {
      assert ks[t] in keys;
      var p :| 0 <= p < |keys| && keys[p] == ks[t];
      GroupHas(items, keys, p);
    }
    if |items| > 0 {
      assert keys[0] in ks;
    }
  }

  /** Entry t of s, or d when s is too short. */
  function At<K>(s: seq<K>, t: int, d: K): K
  {
    if 0 <= t < |s| then s[t] else d
  }

  /** `len(set(keys)) == 1` holds exactly when the (nonempty) keys are
      all equal. */
  lemma SortedSetOne<K(!new)>(lt: (K, K) -> bool, keys: seq<K>)
    requires StrictTotal(lt) && |keys| > 0
    ensures |SortedSet(lt, keys)| == 1 <==> forall j, k :: 0 <= j < |keys| && 0 <= k < |keys| ==> keys[j] == keys[k]
  {
    var ks := SortedSet(lt, keys);
    SortedSetSpec(lt, keys);
    assert keys[0] in ks;
    if |ks| == 1 {
      forall j | 0 <= j < |keys|
        ensures keys[j] == ks[0]
      {
        assert keys[j] in ks;
      }
    }
    if forall j, k :: 0 <= j < |keys| && 0 <= k < |keys| ==> keys[j] == keys[k] {
      forall t | 0 <= t < |ks|
        ensures ks[t] == keys[0]
      {
        assert ks[t] in keys;
      }
      assert |ks| >= 2 ==> lt(At(ks, 0, keys[0]), At(ks, 1, keys[0]));
    }
  }

  /** Flattening the groups lists the items in ascending key order, where
      the key of each item is given by key. */
  lemma FlattenGroupsOrdered<E, K(!new)>(lt: (K, K) -> bool, items: seq<E>, keys: seq<K>, key: E -> K)
    requires StrictTotal(lt) && |keys| == |items|
    requires forall p :: 0 <= p < |items| ==> keys[p] == key(items[p])
    ensures forall i, j :: 0 <= i < j < |Flatten(Groups(lt, items, keys))| ==>
      !lt(key(Flatten(Groups(lt, items, keys))[j]), key(Flatten(Groups(lt, items, keys))[i]))
  {
    var ks := SortedSet(lt, keys);
    SortedSetSpec(lt, keys);
    GroupsOrderedUpTo(lt, items, keys, key, ks, |ks|);
    assert Flatten(Groups(lt, items, keys)) == GroupsUpTo(items, keys, ks, |ks|);
  }

  /** The groups of the first m keys of ks, concatenated. */
  function GroupsUpTo<E, K(==)>(items: seq<E>, keys: seq<K>, ks: seq<K>, m: nat): seq<E>
    requires |keys| == |items| && m <= |ks|
  {
    Flatten(seq(m, t requires 0 <= t < m => Group(items, keys, ks[t])))
  }

  lemma {:induction false} GroupsOrderedUpTo<E, K(!new)>(lt: (K, K) -> bool, items: seq<E>, keys: seq<K>,
                                                         key: E -> K, ks: seq<K>, m: nat)
    requires StrictTotal(lt) && |keys| == |items| && Ascending(lt, ks) && m <= |ks|
    requires forall p :: 0 <= p < |items| ==> keys[p] == key(items[p])
    ensures forall i :: 0 <= i < |GroupsUpTo(items, keys, ks, m)| ==>
      exists t :: 0 <= t < m && key(GroupsUpTo(items, keys, ks, m)[i]) == ks[t]
    ensures forall i, j :: 0 <= i < j < |GroupsUpTo(items, keys, ks, m)| ==>
      !lt(key(GroupsUpTo(items, keys, ks, m)[j]), key(GroupsUpTo(items, keys, ks, m)[i]))
    decreases m
  {
    var out := GroupsUpTo(items, keys, ks, m);
    if m > 0 {
      var prev := GroupsUpTo(items, keys, ks, m - 1);
      var last := Group(items, keys, ks[m - 1]);
      GroupsOrderedUpTo(lt, items, keys, key, ks, m - 1);
      assert seq(m, t requires 0 <= t < m => Group(items, keys, ks[t]))[..m - 1]
          == seq(m - 1, t requires 0 <= t < m - 1 => Group(items, keys, ks[t]));
      assert out == prev + last;
      forall i | 0 <= i < |last|
        ensures key(last[i]) == ks[m - 1]
      {
        assert last[i] in last;
        GroupMember(items, keys, ks[m - 1], last[i]);
      }
      forall i | 0 <= i < |out|
        ensures exists t :: 0 <= t < m && key(out[i]) == ks[t]
      {
        if i < |prev| {
          assert out[i] == prev[i];
          var t :| 0 <= t < m - 1 && key(prev[i]) == ks[t];
        } else {
          assert out[i] == last[i - |prev|];
        }
      }
      forall i, j | 0 <= i < j < |out|
        ensures !lt(key(out[j]), key(out[i]))
      {
        if j < |prev| {
          assert out[i] == prev[i] && out[j] == prev[j];
        } else if i < |prev| {
          assert out[i] == prev[i] && out[j] == last[j - |prev|];
          var t :| 0 <= t < m - 1 && key(prev[i]) == ks[t];
          assert lt(ks[t], ks[m - 1]);
        } else {
          assert out[i] == last[i - |prev|] && out[j] == last[j - |prev|];
        }
      }
    }
  }

  // ---------------------------------------------------------------------
  // The grouping loop

  /** Every item whose key is k, in order. */
  method CollectKey<E, K(==)>(items: seq<E>, keys: seq<K>, k: K) returns (group: seq<E>)
    requires |keys| == |items|
    ensures group == Group(items, keys, k)
  {
    group := [];
    var p := 0;
    while p < |items|
      invariant 0 <= p <= |items|
      invariant group == Group(items[..p], keys[..p], k)
    {
      assert items[..p + 1][..p] == items[..p] && keys[..p + 1][..p] == keys[..p];
      if keys[p] == k {
        group := group + [items[p]];
      }
      p := p + 1;
    }
    assert items[..p] == items && keys[..p] == keys;
  }

  /** For each key of `sorted(set(keys))` in turn, the list of the items
      with that key. */
  method GroupByKey<E, K(==)>(lt: (K, K) -> bool, items: seq<E>, keys: seq<K>) returns (groups: seq<seq<E>>)
    requires |keys| == |items|
    ensures groups == Groups(lt, items, keys)
  {
    var ks := SortedSet(lt, keys);
    groups := [];
    var t := 0;
    while t < |ks|
      invariant 0 <= t <= |ks|
      invariant groups == seq(t, u requires 0 <= u < t => Group(items, keys, ks[u]))
    {
      var group := CollectKey(items, keys, ks[t]);
      groups := groups + [group];
      t := t + 1;
    }
  }
}
