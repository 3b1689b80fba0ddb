/** What `groupKeywords` promises about the entries it returns: every entry
    lands in exactly one group, every member is similar enough to its
    group's anchor, and the groups and their members come sorted by
    decreasing value. */
module GroupedFacts {
  import opened Seqs
  import opened Parse
  import opened StableSort
  import opened Grouping
  import opened GroupingFacts

  /** The entries of `Pick`, one by one. */
  lemma {:induction false} PickAt(keywords: seq<Entry>, g: seq<nat>)
    requires InRange(g, |keywords|)
    ensures forall k :: 0 <= k < |g| ==> Pick(keywords, g)[k] == keywords[g[k]]
    decreases |g|
  {
    if g != [] {
      var init := g[..|g| - 1];
      PickAt(keywords, init);
      assert forall k :: 0 <= k < |init| ==> init[k] == g[k];
    }
  }

  /** Each group of `SortGroups` is the sorted entries of the matching group
      of positions. */
  lemma {:induction false} SortGroupsAt(keywords: seq<Entry>, ig: seq<seq<nat>>)
    requires forall q :: 0 <= q < |ig| ==> InRange(ig[q], |keywords|)
    ensures forall q :: 0 <= q < |ig| ==>
      SortGroups(keywords, ig)[q] == SortDesc(Pick(keywords, ig[q]), EntryValue)
    decreases |ig|
  {
    if ig != [] {
      var init := ig[..|ig| - 1];
      SortGroupsAt(keywords, init);
      assert forall q :: 0 <= q < |init| ==> init[q] == ig[q];
    }
  }

  /** The groups come ordered by decreasing first value; they are the
      groups in creation order, rearranged, and groups whose first values
      are equal keep their creation order. */
  lemma GroupedOrder(keywords: seq<Entry>, threshold: int)
    ensures SortedDesc(Grouped(keywords, threshold), FirstValue)
    ensures multiset(Grouped(keywords, threshold)) == multiset(Created(keywords, threshold))
    ensures forall v :: Filter(Grouped(keywords, threshold), HasKey(FirstValue, v))
                     == Filter(Created(keywords, threshold), HasKey(FirstValue, v))
  {
    var created := Created(keywords, threshold);
    SortDescSorted(created, FirstValue);
    SortDescPermutes(created, FirstValue);
    forall v ensures Filter(Grouped(keywords, threshold), HasKey(FirstValue, v))
                  == Filter(created, HasKey(FirstValue, v)) {
      SortDescStable(created, FirstValue, v);
    }
  }

  /** Sorting entries by decreasing value orders them, keeps them all, and
      keeps entries of equal value in their order. */
  lemma SortEntries(p: seq<Entry>)
    ensures SortedDesc(SortDesc(p, EntryValue), EntryValue)
    ensures multiset(SortDesc(p, EntryValue)) == multiset(p)
    ensures forall v :: Filter(SortDesc(p, EntryValue), HasKey(EntryValue, v)) == Filter(p, HasKey(EntryValue, v))
  {
    SortDescSorted(p, EntryValue);
    SortDescPermutes(p, EntryValue);
    forall v ensures Filter(SortDesc(p, EntryValue), HasKey(EntryValue, v)) == Filter(p, HasKey(EntryValue, v)) {
      SortDescStable(p, EntryValue, v);
    }
  }

  /** Group `q` in creation order holds the entries at the positions of
      group `q` of positions: the same entries, sorted by decreasing value,
      and entries of equal value keep their input order. */
  lemma CreatedGroups(keywords: seq<Entry>, threshold: int)
    ensures var ig := IndexGroups(|keywords|, Similar(keywords, threshold));
      var created := Created(keywords, threshold);
      |created| == |ig|
      && forall q :: 0 <= q < |ig| ==>
        |created[q]| == |ig[q]| && ig[q] != [] && Increasing(ig[q]) && InRange(ig[q], |keywords|)
        && SortedDesc(created[q], EntryValue)
        && multiset(created[q]) == multiset(Pick(keywords, ig[q]))
        && forall v :: Filter(created[q], HasKey(EntryValue, v)) == Filter(Pick(keywords, ig[q]), HasKey(EntryValue, v))
  {
    var n := |keywords|;
    var ig := IndexGroups(n, Similar(keywords, threshold));
    SortGroupsAt(keywords, ig);
    GreedyIncreasing(n, Similar(keywords, threshold));
    forall q | 0 <= q < |ig|
      ensures SortedDesc(Created(keywords, threshold)[q], EntryValue)
        && multiset(Created(keywords, threshold)[q]) == multiset(Pick(keywords, ig[q]))
        && forall v :: Filter(Created(keywords, threshold)[q], HasKey(EntryValue, v))
                    == Filter(Pick(keywords, ig[q]), HasKey(EntryValue, v))
    {
      SortEntries(Pick(keywords, ig[q]));
    }
  }

  /** The members of every returned group come by decreasing value, so its
      first member has the largest value in the group. */
  lemma GroupedMembersSorted(keywords: seq<Entry>, threshold: int)
    ensures forall g: seq<Entry> :: g in Grouped(keywords, threshold) ==>
      g != [] && SortedDesc(g, EntryValue) && forall k :: 0 <= k < |g| ==> g[k].value <= g[0].value
  {
    var created := Created(keywords, threshold);
    GroupedOrder(keywords, threshold);
    forall g: seq<Entry> | g in Grouped(keywords, threshold)
      ensures g != [] && SortedDesc(g, EntryValue) && forall k :: 0 <= k < |g| ==> g[k].value <= g[0].value
    {
      assert g in multiset(created);
      var q :| 0 <= q < |created| && created[q] == g;
      CreatedGroupSorted(keywords, threshold, q);
    }
  }

  lemma CreatedGroupSorted(keywords: seq<Entry>, threshold: int, q: nat)
    requires q < |Created(keywords, threshold)|
    ensures var g := Created(keywords, threshold)[q];
      g != [] && SortedDesc(g, EntryValue)
  {
    CreatedGroups(keywords, threshold);
  }

  lemma {:induction false} SumSizesInsert<T>(x: seq<T>, t: seq<seq<T>>, key: seq<T> -> int)
    ensures SumSizes(Insert(x, t, key)) == |x| + SumSizes(t)
    ensures multiset(Flatten(Insert(x, t, key))) == multiset(x) + multiset(Flatten(t))
  {
    if t == [] || key(t[0]) <= key(x) {
      assert ([x] + t)[1..] == t;
    } else {
      SumSizesInsert(x, t[1..], key);
      assert ([t[0]] + Insert(x, t[1..], key))[1..] == Insert(x, t[1..], key);
    }
  }

  /** Sorting lists keeps their summed size and their elements. */
  lemma {:induction false} SumSizesSort<T>(s: seq<seq<T>>, key: seq<T> -> int)
    ensures SumSizes(SortDesc(s, key)) == SumSizes(s)
    ensures multiset(Flatten(SortDesc(s, key))) == multiset(Flatten(s))
  {
    if s != [] {
      SumSizesSort(s[1..], key);
      SumSizesInsert(s[0], SortDesc(s[1..], key), key);
    }
  }

  /** Lists that match one for one in size, or in elements, have the same
      summed size, or the same elements. */
  lemma {:induction false} SumSizesSame<T, U>(a: seq<seq<T>>, b: seq<seq<U>>)
    requires |a| == |b| && forall q :: 0 <= q < |a| ==> |a[q]| == |b[q]|
    ensures SumSizes(a) == SumSizes(b)
  {
    if a != [] {
      assert forall q :: 0 <= q < |a| - 1 ==> a[1..][q] == a[q + 1] && b[1..][q] == b[q + 1];
      SumSizesSame(a[1..], b[1..]);
    }
  }

  lemma {:induction false} FlattenSame<T>(a: seq<seq<T>>, b: seq<seq<T>>)
    requires |a| == |b| && forall q :: 0 <= q < |a| ==> multiset(a[q]) == multiset(b[q])
    ensures multiset(Flatten(a)) == multiset(Flatten(b))
  {
    if a != [] {
      assert forall q :: 0 <= q < |a| - 1 ==> a[1..][q] == a[q + 1] && b[1..][q] == b[q + 1];
      FlattenSame(a[1..], b[1..]);
    }
  }

  /** The groups' sizes sum to the number of entries, and there are at
      most as many groups as entries. */
  lemma GroupedSizes(keywords: seq<Entry>, threshold: int)
    ensures SumSizes(Grouped(keywords, threshold)) == |keywords|
    ensures |Grouped(keywords, threshold)| <= |keywords|
  {
    var ig := IndexGroups(|keywords|, Similar(keywords, threshold));
    var created := Created(keywords, threshold);
    CreatedGroups(keywords, threshold);
    SumSizesSort(created, FirstValue);
    SumSizesSame(created, ig);
    GreedySizes(|keywords|, Similar(keywords, threshold));
  }

  /** Every member of a group other than its anchor comes after the anchor
      in the input, and its normalized keyword scores at least `threshold`
      percent against the anchor's; every entry after the anchor that no
      earlier group took and that scores that well is a member. */
  lemma GroupsMeetThreshold(keywords: seq<Entry>, threshold: int)
    ensures var ig := IndexGroups(|keywords|, Similar(keywords, threshold));
      forall q :: 0 <= q < |ig| ==>
        ig[q] != [] && ig[q][0] < |keywords|
        && (forall x :: 1 <= x < |ig[q]| ==>
              ig[q][0] < ig[q][x] < |keywords| && Linked(keywords, threshold, ig[q][0], ig[q][x]))
        && (forall k: nat ::
              (ig[q][0] < k < |keywords| && k !in UsedBy(ig[..q]) && Linked(keywords, threshold, ig[q][0], k))
              ==> k in ig[q])
  {
    var ig := IndexGroups(|keywords|, Similar(keywords, threshold));
    IndexAnchors(|keywords|, Similar(keywords, threshold));
    GreedyIncreasing(|keywords|, Similar(keywords, threshold));
    forall q | 0 <= q < |ig| ensures InRange(ig[q], |keywords|) {
    }
  }

  lemma {:induction false} PickAppend(keywords: seq<Entry>, a: seq<nat>, b: seq<nat>)
    requires InRange(a, |keywords|) && InRange(b, |keywords|)
    ensures InRange(a + b, |keywords|)
    ensures Pick(keywords, a + b) == Pick(keywords, a) + Pick(keywords, b)
    decreases |b|
  {
    if b == [] {
      assert a + b == a;
    } else {
      var init := b[..|b| - 1];
      PickAppend(keywords, a, init);
      assert (a + b)[..|a + b| - 1] == a + init;
    }
  }

  /** The entries of each group of positions. */
  function PickEach(keywords: seq<Entry>, ig: seq<seq<nat>>): (r: seq<seq<Entry>>)
    requires forall q :: 0 <= q < |ig| ==> InRange(ig[q], |keywords|)
    ensures |r| == |ig| && forall q :: 0 <= q < |ig| ==> r[q] == Pick(keywords, ig[q])
  {
    seq(|ig|, q requires 0 <= q < |ig| => Pick(keywords, ig[q]))
  }

  /** Picking group by group is picking the concatenation. */
  lemma {:induction false} PickFlatten(keywords: seq<Entry>, ig: seq<seq<nat>>)
    requires forall q :: 0 <= q < |ig| ==> InRange(ig[q], |keywords|)
    ensures InRange(Flatten(ig), |keywords|)
    ensures Flatten(PickEach(keywords, ig)) == Pick(keywords, Flatten(ig))
  {
    if ig != [] {
      var rest := ig[1..];
      PickFlatten(keywords, rest);
      assert PickEach(keywords, ig)[1..] == PickEach(keywords, rest);
      PickAppend(keywords, ig[0], Flatten(rest));
    }
  }

  /** Rearranging the positions rearranges the picked entries. */
  lemma {:induction false} PickPermutes(keywords: seq<Entry>, a: seq<nat>, b: seq<nat>)
    requires InRange(a, |keywords|) && InRange(b, |keywords|) && multiset(a) == multiset(b)
    ensures multiset(Pick(keywords, a)) == multiset(Pick(keywords, b))
    decreases |a|
  {
    if a != [] {
      var m := |a| - 1;
      var x := a[m];
      assert a == a[..m] + [x];
      var j := SplitAt(b, x, |keywords|);
      var b1, b2 := b[..j], b[j + 1..];
      RemoveOne(a[..m], b1, b2, x);
      PickSplit(keywords, b1, x, b2);
      PickPermutes(keywords, a[..m], b1 + b2);
      PickSnoc(keywords, a[..m], x);
    }
  }

  /** A position where `x` occurs in `b`, and `b` cut around it. */
  lemma SplitAt(b: seq<nat>, x: nat, n: nat) returns (j: nat)
    requires x in multiset(b) && InRange(b, n)
    ensures j < |b| && b[j] == x && b == b[..j] + [x] + b[j + 1..]
    ensures InRange(b[..j], n) && x < n && InRange(b[j + 1..], n)
  {
    j :| 0 <= j < |b| && b[j] == x;
    var b2 := b[j + 1..];
    assert forall k :: 0 <= k < |b2| ==> b2[k] == b[j + 1 + k];
  }

  lemma PickSplit(keywords: seq<Entry>, b1: seq<nat>, x: nat, b2: seq<nat>)
    requires InRange(b1, |keywords|) && x < |keywords| && InRange(b2, |keywords|)
    ensures InRange(b1 + [x] + b2, |keywords|) && InRange(b1 + b2, |keywords|)
    ensures multiset(Pick(keywords, b1 + [x] + b2)) == multiset(Pick(keywords, b1 + b2)) + multiset{keywords[x]}
  {
    PickSnoc(keywords, b1, x);
    PickAppend(keywords, b1 + [x], b2);
    PickAppend(keywords, b1, b2);
    var p1, p2 := Pick(keywords, b1), Pick(keywords, b2);
    assert Pick(keywords, b1 + [x] + b2) == p1 + [keywords[x]] + p2;
    assert Pick(keywords, b1 + b2) == p1 + p2;
  }

  lemma RemoveOne(a: seq<nat>, b1: seq<nat>, b2: seq<nat>, x: nat)
    requires multiset(a + [x]) == multiset(b1 + [x] + b2)
    ensures multiset(a) == multiset(b1 + b2)
  {
    assert multiset(a + [x]) == multiset(a) + multiset{x};
    assert multiset(b1 + [x] + b2) == multiset(b1 + b2) + multiset{x};
    forall y ensures multiset(a)[y] == multiset(b1 + b2)[y] {
      assert multiset(a + [x])[y] == multiset(b1 + [x] + b2)[y];
    }
  }

  /** The positions `0 .. n - 1` in order. */
  function Iota(n: nat): (r: seq<nat>)
    ensures |r| == n && forall k :: 0 <= k < n ==> r[k] == k
  {
    seq(n, k => k)
  }

  predicate Distinct(s: seq<nat>) {
    forall x, y :: 0 <= x < y < |s| ==> s[x] != s[y]
  }

  /** In a list without repetitions every element occurs once. */
  lemma {:induction false} DistinctCount(s: seq<nat>, k: nat)
    requires Distinct(s)
    ensures multiset(s)[k] == if k in s then 1 else 0
  {
    if s != [] {
      var rest := s[1..];
      DistinctCount(rest, k);
      assert s == [s[0]] + rest;
      assert s[0] !in rest;
    }
  }

  /** The groups listed one after the other repeat no position. */
  lemma {:induction false} FlattenDistinct(gs: seq<seq<nat>>)
    requires forall q :: 0 <= q < |gs| ==> Increasing(gs[q])
    requires forall q1, q2, k :: 0 <= q1 < q2 < |gs| && k in gs[q1] ==> k !in gs[q2]
    ensures Distinct(Flatten(gs))
    ensures forall k :: k in Flatten(gs) <==> k in UsedBy(gs)
  {
    if gs != [] {
      var rest := gs[1..];
      assert forall q :: 0 <= q < |rest| ==> rest[q] == gs[q + 1];
      FlattenDistinct(rest);
      var f := Flatten(gs);
      var g, t := gs[0], Flatten(rest);
      assert f == g + t;
      forall k | k in g ensures k !in t {
        UsedByHas(rest, k);
      }
      forall x, y | 0 <= x < y < |f| ensures f[x] != f[y] {
        if y < |g| {
        } else if x >= |g| {
          assert f[x] == t[x - |g|] && f[y] == t[y - |g|];
        } else {
          assert f[x] in g && f[y] == t[y - |g|];
        }
      }
    }
  }

  /** The groups of positions, one after the other, rearrange `0 .. n - 1`. */
  lemma IndexFlatten(n: nat, joins: (nat, nat) -> bool)
    ensures multiset(Flatten(IndexGroups(n, joins))) == multiset(Iota(n))
  {
    var gs := IndexGroups(n, joins);
    GreedyIncreasing(n, joins);
    GreedyDisjoint(n, joins);
    GreedyExhaustive(n, joins);
    FlattenDistinct(gs);
    var f, r := Flatten(gs), Iota(n);
    forall k | true ensures k in f <==> k in r {
      if 0 <= k < n {
        assert r[k] == k;
      }
    }
    DistinctSame(f, r);
  }

  /** Two lists without repetitions that hold the same elements are
      rearrangements of each other. */
  lemma DistinctSame(f: seq<nat>, r: seq<nat>)
    requires Distinct(f) && Distinct(r) && forall k :: k in f <==> k in r
    ensures multiset(f) == multiset(r)
  {
    forall k: nat ensures multiset(f)[k] == multiset(r)[k] {
      DistinctCount(f, k);
      DistinctCount(r, k);
    }
  }

  /** The returned groups hold every entry exactly as often as the input
      does. */
  lemma GroupedPartition(keywords: seq<Entry>, threshold: int)
    ensures multiset(Flatten(Grouped(keywords, threshold))) == multiset(keywords)
  {
    var n := |keywords|;
    var ig := IndexGroups(n, Similar(keywords, threshold));
    var created := Created(keywords, threshold);
    CreatedGroups(keywords, threshold);
    SumSizesSort(created, FirstValue);
    FlattenSame(created, PickEach(keywords, ig));
    PickFlatten(keywords, ig);
    IndexFlatten(n, Similar(keywords, threshold));
    PickPermutes(keywords, Flatten(ig), Iota(n));
    PickAt(keywords, Iota(n));
    assert Pick(keywords, Iota(n)) == keywords;
  }
}
