/** What `groupKeywords` promises: its groups partition the input, each
    group is its anchor and the free entries similar enough to it, the
    anchor is the first entry not yet grouped, and both levels are sorted
    by decreasing value, stably. */
module GroupingFacts {
  import opened Seqs
  import opened Parse
  import opened StableSort
  import opened Grouping

  /** Every position below `i` is taken. */
  predicate Closed(used: set<nat>, i: nat) {
    forall k: nat :: k < i ==> k in used
  }

  /** The positions of all the groups. */
  function UsedBy(gs: seq<seq<nat>>): set<nat> {
    if gs == [] then {} else Elems(gs[0]) + UsedBy(gs[1..])
  }

  predicate Increasing(g: seq<nat>) {
    forall x, y :: 0 <= x < y < |g| ==> g[x] < g[y]
  }

  /** After looking at the positions below `j`, the inner loop holds the
      anchor, then in increasing order exactly the positions below `j` that
      were free and join the anchor; it has marked exactly those used. */
  lemma {:induction false} ScanFromExact(joins: (nat, nat) -> bool, taken: set<nat>, a: nat, j: nat)
    requires a in taken
    ensures var m := ScanFrom(joins, taken, a, j).members;
      |m| >= 1 && m[0] == a
      && (forall x, y :: 1 <= x < y < |m| ==> m[x] < m[y])
      && (forall x :: 1 <= x < |m| ==> m[x] < j && m[x] !in taken && joins(a, m[x]))
      && (forall k: nat :: k < j && k !in taken && joins(a, k) ==> k in m)
    ensures var r := ScanFrom(joins, taken, a, j);
      forall k: nat :: k in r.used <==> k in taken || k in r.members
  {
    if j > 0 {
      ScanFromExact(joins, taken, a, j - 1);
      var s := ScanFrom(joins, taken, a, j - 1);
      assert j - 1 in s.used <==> j - 1 in taken by {
        assert forall x :: 1 <= x < |s.members| ==> s.members[x] != j - 1;
      }
    }
  }

  /** `g` is the group that its first position anchors while the positions
      in `before` are taken, and that position is the lowest free one. */
  predicate Anchored(n: nat, joins: (nat, nat) -> bool, before: set<nat>, g: seq<nat>) {
    g != [] && g[0] < n && g[0] !in before && Closed(before, g[0])
    && g == Members(n, joins, before, g[0]).members
  }

  /** Every group in `gs` is anchored, given the positions in `used` and
      in the groups before it. */
  predicate AllAnchored(n: nat, joins: (nat, nat) -> bool, used: set<nat>, gs: seq<seq<nat>>) {
    forall q :: 0 <= q < |gs| ==> Anchored(n, joins, used + UsedBy(gs[..q]), gs[q])
  }

  /** A group anchored at the lowest free position `a` lists `a`, then, in
      increasing order, exactly the free positions after `a` that join it;
      afterwards its positions are used too. */
  lemma MembersExact(n: nat, joins: (nat, nat) -> bool, before: set<nat>, a: nat)
    requires a < n && a !in before && Closed(before, a)
    ensures var m := Members(n, joins, before, a).members;
      |m| >= 1 && m[0] == a && Increasing(m)
      && (forall k :: k in m ==> k !in before)
      && (forall x :: 1 <= x < |m| ==> a < m[x] && joins(a, m[x]))
      && (forall k: nat :: a < k < n && k !in before && joins(a, k) ==> k in m)
    ensures Members(n, joins, before, a).used == before + Elems(Members(n, joins, before, a).members)
  {
    var r := Members(n, joins, before, a);
    ScanFromExact(joins, before + {a}, a, n);
    var m := r.members;
    forall x | 1 <= x < |m| ensures a < m[x] {
      assert m[x] !in before;
    }
  }

  lemma {:induction false} UsedByHas(gs: seq<seq<nat>>, k: nat)
    ensures k in UsedBy(gs) <==> exists q :: 0 <= q < |gs| && k in gs[q]
    decreases |gs|
  {
    if gs != [] {
      UsedByHas(gs[1..], k);
      if k in UsedBy(gs[1..]) {
        var q :| 0 <= q < |gs[1..]| && k in gs[1..][q];
        assert k in gs[q + 1];
      }
      if exists q :: 0 <= q < |gs| && k in gs[q] {
        var q :| 0 <= q < |gs| && k in gs[q];
        if q > 0 {
          assert k in gs[1..][q - 1];
        }
      }
    }
  }

  /** Each group of the greedy scan is anchored: its anchor is the lowest
      position in neither `used` nor an earlier group, and the group is that
      anchor with every such position after it that joins it. */
  lemma {:induction false} GreedyShape(n: nat, joins: (nat, nat) -> bool, used: set<nat>, i: nat)
    requires i <= n && Closed(used, i)
    ensures AllAnchored(n, joins, used, GreedyFrom(n, joins, used, i))
    decreases n - i
  {
    var gs := GreedyFrom(n, joins, used, i);
    if i == n {
    } else if i in used {
      assert Closed(used, i + 1);
      GreedyShape(n, joins, used, i + 1);
      assert gs == GreedyFrom(n, joins, used, i + 1);
    } else {
      var g := Members(n, joins, used, i);
      MembersExact(n, joins, used, i);
      var after, next := g.used, i + 1;
      var rest := GreedyFrom(n, joins, after, next);
      assert gs == [g.members] + rest;
      assert Closed(after, next) by {
        assert i in Elems(g.members);
      }
      GreedyShape(n, joins, after, next);
      assert AllAnchored(n, joins, after, rest);
      forall q | 0 <= q < |gs|
        ensures Anchored(n, joins, used + UsedBy(gs[..q]), gs[q])
      {
        if q == 0 {
          assert gs[..q] == [];
          assert used + UsedBy(gs[..q]) == used;
          assert gs[q] == g.members;
        } else {
          var pre := gs[..q];
          assert pre[0] == g.members && pre[1..] == rest[..q - 1];
          assert UsedBy(pre) == Elems(g.members) + UsedBy(rest[..q - 1]);
          assert used + UsedBy(pre) == after + UsedBy(rest[..q - 1]);
          assert gs[q] == rest[q - 1];
        }
      }
    }
  }

  /** The groups hold exactly the positions below `n` outside `used`. */
  lemma {:induction false} GreedyCovers(n: nat, joins: (nat, nat) -> bool, used: set<nat>, i: nat)
    requires i <= n && Closed(used, i)
    ensures forall k: nat :: k in UsedBy(GreedyFrom(n, joins, used, i)) <==> k < n && k !in used
    decreases n - i
  {
    var gs := GreedyFrom(n, joins, used, i);
    if i == n {
    } else if i in used {
      GreedyCovers(n, joins, used, i + 1);
    } else {
      var g := Members(n, joins, used, i);
      MembersExact(n, joins, used, i);
      var rest := GreedyFrom(n, joins, g.used, i + 1);
      assert gs == [g.members] + rest;
      assert gs[0] == g.members && gs[1..] == rest;
      GreedyCovers(n, joins, g.used, i + 1);
      assert forall k :: k in g.members ==> k < n by {
        assert InRange(g.members, n);
      }
    }
  }

  lemma UsedByPrefix(gs: seq<seq<nat>>, q1: nat, q2: nat, k: nat)
    requires q1 < q2 <= |gs| && k in gs[q1]
    ensures k in UsedBy(gs[..q2])
  {
    assert gs[..q2][q1] == gs[q1];
    UsedByHas(gs[..q2], k);
  }

  /** A position lies in at most one group. */
  lemma GreedyDisjoint(n: nat, joins: (nat, nat) -> bool)
    ensures var gs := IndexGroups(n, joins);
      forall q1, q2, k :: 0 <= q1 < q2 < |gs| && k in gs[q1] ==> k !in gs[q2]
  {
    var gs := IndexGroups(n, joins);
    GreedyShape(n, joins, {}, 0);
    forall q1, q2, k | 0 <= q1 < q2 < |gs| && k in gs[q1]
      ensures k !in gs[q2]
    {
      var before := {} + UsedBy(gs[..q2]);
      assert Anchored(n, joins, before, gs[q2]);
      MembersExact(n, joins, before, gs[q2][0]);
      UsedByPrefix(gs, q1, q2, k);
    }
  }

  /** The positions of an increasing list are as many as its length. */
  lemma {:induction false} ElemsCard(g: seq<nat>)
    requires Increasing(g)
    ensures |Elems(g)| == |g|
  {
    if g != [] {
      var t := g[1..];
      ElemsCard(t);
      assert Elems(g) == {g[0]} + Elems(t);
      assert g[0] !in Elems(t);
    }
  }

  /** Groups that each list distinct positions and share none hold as many
      positions as their summed sizes. */
  lemma {:induction false} UsedByCard(gs: seq<seq<nat>>)
    requires forall q :: 0 <= q < |gs| ==> Increasing(gs[q])
    requires forall q1, q2, k :: 0 <= q1 < q2 < |gs| && k in gs[q1] ==> k !in gs[q2]
    ensures |UsedBy(gs)| == SumSizes(gs)
  {
    if gs != [] {
      var rest := gs[1..];
      assert forall q1, q2, k :: 0 <= q1 < q2 < |rest| && k in rest[q1] ==> k !in rest[q2] by {
        assert forall q :: 0 <= q < |rest| ==> rest[q] == gs[q + 1];
      }
      UsedByCard(rest);
      ElemsCard(gs[0]);
      forall k | k in Elems(gs[0]) ensures k !in UsedBy(rest) {
        UsedByHas(rest, k);
        assert forall q :: 0 <= q < |rest| ==> rest[q] == gs[q + 1];
      }
    }
  }

  /** The `n` positions below `n`. */
  function Below(n: nat): (r: set<nat>)
    ensures |r| == n
    ensures forall k: nat :: k in r <==> k < n
  {
    if n == 0 then {} else Below(n - 1) + {n - 1}
  }

  /** Non-empty lists are at least as many as their summed sizes. */
  lemma {:induction false} SumSizesAtLeast<T>(gs: seq<seq<T>>)
    requires forall q :: 0 <= q < |gs| ==> gs[q] != []
    ensures |gs| <= SumSizes(gs)
  {
    if gs != [] {
      SumSizesAtLeast(gs[1..]);
    }
  }

  /** Every group is a non-empty increasing list of positions. */
  lemma GreedyIncreasing(n: nat, joins: (nat, nat) -> bool)
    ensures var gs := IndexGroups(n, joins);
      forall q :: 0 <= q < |gs| ==> gs[q] != [] && Increasing(gs[q])
  {
    var gs := IndexGroups(n, joins);
    GreedyShape(n, joins, {}, 0);
    forall q | 0 <= q < |gs| ensures gs[q] != [] && Increasing(gs[q]) {
      var before := {} + UsedBy(gs[..q]);
      assert Anchored(n, joins, before, gs[q]);
      MembersExact(n, joins, before, gs[q][0]);
    }
  }

  /** Every position below `n` lies in some group, and no other. */
  lemma GreedyExhaustive(n: nat, joins: (nat, nat) -> bool)
    ensures UsedBy(IndexGroups(n, joins)) == Below(n)
  {
    GreedyCovers(n, joins, {}, 0);
  }

  /** The sizes of the groups sum to `n`, so there are at most `n`. */
  lemma GreedySizes(n: nat, joins: (nat, nat) -> bool)
    ensures SumSizes(IndexGroups(n, joins)) == n && |IndexGroups(n, joins)| <= n
  {
    var gs := IndexGroups(n, joins);
    GreedyIncreasing(n, joins);
    GreedyDisjoint(n, joins);
    UsedByCard(gs);
    GreedyExhaustive(n, joins);
    SumSizesAtLeast(gs);
  }

  /** The groups of positions partition `0 .. n - 1`: every group is a
      non-empty increasing list, no position lies in two groups, the groups
      hold exactly the positions below `n`, so the sizes sum to `n` and there are at most
      `n` groups. */
  lemma IndexPartition(n: nat, joins: (nat, nat) -> bool)
    ensures var gs := IndexGroups(n, joins);
      (forall q :: 0 <= q < |gs| ==> gs[q] != [] && Increasing(gs[q]))
      && (forall q1, q2, k :: 0 <= q1 < q2 < |gs| && k in gs[q1] ==> k !in gs[q2])
      && UsedBy(gs) == Below(n)
      && SumSizes(gs) == n && |gs| <= n
  {
    GreedyIncreasing(n, joins);
    GreedyDisjoint(n, joins);
    GreedyExhaustive(n, joins);
    GreedySizes(n, joins);
  }

  /** Each group starts with its anchor, the lowest position that no
      earlier group holds; every other member comes after the anchor and
      joins it; and every position after the anchor that no earlier group
      holds and that joins the anchor is a member. */
  lemma IndexAnchors(n: nat, joins: (nat, nat) -> bool)
    ensures var gs := IndexGroups(n, joins);
      forall q :: 0 <= q < |gs| ==>
        gs[q] != [] && gs[q][0] < n && gs[q][0] !in UsedBy(gs[..q])
        && (forall k: nat :: k < gs[q][0] ==> k in UsedBy(gs[..q]))
        && (forall x :: 1 <= x < |gs[q]| ==> gs[q][0] < gs[q][x] && joins(gs[q][0], gs[q][x]))
        && (forall k: nat :: gs[q][0] < k < n && k !in UsedBy(gs[..q]) && joins(gs[q][0], k) ==> k in gs[q])
  {
    var gs := IndexGroups(n, joins);
    GreedyShape(n, joins, {}, 0);
    forall q | 0 <= q < |gs|
      ensures gs[q] != [] && gs[q][0] < n && gs[q][0] !in UsedBy(gs[..q])
        && (forall k: nat :: k < gs[q][0] ==> k in UsedBy(gs[..q]))
        && (forall x :: 1 <= x < |gs[q]| ==> gs[q][0] < gs[q][x] && joins(gs[q][0], gs[q][x]))
        && (forall k: nat :: gs[q][0] < k < n && k !in UsedBy(gs[..q]) && joins(gs[q][0], k) ==> k in gs[q])
    {
      var before := {} + UsedBy(gs[..q]);
      assert before == UsedBy(gs[..q]);
      assert Anchored(n, joins, before, gs[q]);
      MembersExact(n, joins, before, gs[q][0]);
    }
  }
}
