/** `groupKeywords`: greedy, anchor-only clustering of the entries, then the
    two descending sorts. */
module Grouping {
  import opened Parse
  import opened Normalize
  import opened Similarity
  import opened StableSort
  import opened Text

  /** Position `j` joins the group anchored at position `a`: `similarity`
      of their normalized keywords reaches the percentage `threshold`. */
  predicate Linked(keywords: seq<Entry>, threshold: int, a: nat, j: nat)
    requires a < |keywords| && j < |keywords|
  {
    MeetsThreshold(NormalizeText(keywords[a].keyword), NormalizeText(keywords[j].keyword), threshold)
  }

  /** `Linked` as a relation on positions, false outside the input. */
  function Similar(keywords: seq<Entry>, threshold: int): (nat, nat) -> bool {
    (a: nat, j: nat) => a < |keywords| && j < |keywords| && Linked(keywords, threshold, a, j)
  }

  function Elems(s: seq<nat>): set<nat> {
    set x | x in s
  }

  predicate InRange(g: seq<nat>, n: nat) {
    forall k :: 0 <= k < |g| ==> g[k] < n
  }

  /** The positions of one group and the positions marked used. */
  datatype Taken = Taken(members: seq<nat>, used: set<nat>)

  /** The inner loop of `groupKeywords` for anchor `a` after it has looked
      at the positions below `j`: the group starts as the anchor alone with
      the positions `taken` marked used, and every position that is not
      used yet and joins the anchor is appended and marked. */
  function ScanFrom(joins: (nat, nat) -> bool, taken: set<nat>, a: nat, j: nat): (r: Taken)
    ensures forall k :: 0 <= k < |r.members| ==> r.members[k] == a || r.members[k] < j
  {
    if j == 0 then Taken([a], taken)
    else
      var s := ScanFrom(joins, taken, a, j - 1);
      if j - 1 !in s.used && joins(a, j - 1) then Taken(s.members + [j - 1], s.used + {j - 1})
      else s
  }

  /** The group that the free position `a` anchors among `n` positions while
      the positions in `used` are taken, and the positions used after it. */
  function Members(n: nat, joins: (nat, nat) -> bool, used: set<nat>, a: nat): (r: Taken)
    requires a < n
    ensures InRange(r.members, n)
  {
    ScanFrom(joins, used + {a}, a, n)
  }

  /** The groups that the outer loop of `groupKeywords` creates among `n`
      positions from position `i` on, while the positions in `used` are
      taken, as lists of positions in creation order. */
  function GreedyFrom(n: nat, joins: (nat, nat) -> bool, used: set<nat>, i: nat): (r: seq<seq<nat>>)
    requires i <= n
    ensures forall q :: 0 <= q < |r| ==> InRange(r[q], n)
    decreases n - i
  {
    if i == n then []
    else if i in used then GreedyFrom(n, joins, used, i + 1)
    else
      var g := Members(n, joins, used, i);
      [g.members] + GreedyFrom(n, joins, g.used, i + 1)
  }

  function IndexGroups(n: nat, joins: (nat, nat) -> bool): (r: seq<seq<nat>>)
    ensures forall q :: 0 <= q < |r| ==> InRange(r[q], n)
  {
    GreedyFrom(n, joins, {}, 0)
  }

  /** The entries at the positions `g`, in the order of `g`. */
  function Pick(keywords: seq<Entry>, g: seq<nat>): (r: seq<Entry>)
    requires InRange(g, |keywords|)
    ensures |r| == |g|
  {
    if g == [] then [] else Pick(keywords, g[..|g| - 1]) + [keywords[g[|g| - 1]]]
  }

  function EntryValue(e: Entry): int {
    e.value
  }

  /** The sort key of a group: its first member's value (groups are never
      empty, so the fallback is never used). */
  function FirstValue(g: seq<Entry>): int {
    if g == [] then 0 else g[0].value
  }

  /** Each group of positions as its entries, sorted by decreasing value. */
  function SortGroups(keywords: seq<Entry>, ig: seq<seq<nat>>): (r: seq<seq<Entry>>)
    requires forall q :: 0 <= q < |ig| ==> InRange(ig[q], |keywords|)
    ensures |r| == |ig|
  {
    if ig == [] then []
    else
      var last := ig[|ig| - 1];
      SortGroups(keywords, ig[..|ig| - 1]) + [SortDesc(Pick(keywords, last), EntryValue)]
  }

  /** The groups in creation order, each sorted. */
  function Created(keywords: seq<Entry>, threshold: int): seq<seq<Entry>> {
    SortGroups(keywords, IndexGroups(|keywords|, Similar(keywords, threshold)))
  }

  /** What `groupKeywords` returns. */
  function Grouped(keywords: seq<Entry>, threshold: int): (r: seq<seq<Entry>>)
    ensures |r| == |IndexGroups(|keywords|, Similar(keywords, threshold))|
  {
    SortDesc(Created(keywords, threshold), FirstValue)
  }

  /** `groupKeywords(keywords)` with the page's `threshold` percentage: each
      position not yet used anchors a new group, which takes every unused
      position whose normalized keyword is similar enough to the anchor's;
      each group is sorted by decreasing value, and so are the groups, by
      their first value. */
  method GroupKeywords(keywords: seq<Entry>, threshold: int) returns (groups: seq<seq<Entry>>)
    ensures groups == Grouped(keywords, threshold)
  {
    groups := GroupBy(keywords, threshold, Similar(keywords, threshold));
  }

  /** The body of `groupKeywords`, for a relation `joins` that agrees with
      `Linked` on the input's positions. */
  method GroupBy(keywords: seq<Entry>, threshold: int, ghost joins: (nat, nat) -> bool) returns (groups: seq<seq<Entry>>)
    requires forall a: nat, j: nat {:trigger Linked(keywords, threshold, a, j)} ::
      a < |keywords| && j < |keywords| ==> (joins(a, j) <==> Linked(keywords, threshold, a, j))
    ensures groups == SortDesc(SortGroups(keywords, IndexGroups(|keywords|, joins)), FirstValue)
  {
    ghost var ig: seq<seq<nat>> := [];
    var n := |keywords|;
    groups := [];
    var usedIndices: set<nat> := {};
    var i := 0;
    while i < n
      invariant 0 <= i <= n
      invariant ig + GreedyFrom(n, joins, usedIndices, i) == IndexGroups(n, joins)
      invariant forall q :: 0 <= q < |ig| ==> InRange(ig[q], n)
      invariant groups == SortGroups(keywords, ig)
    {
      if i in usedIndices {
        GreedySkip(n, joins, usedIndices, i);
        i := i + 1;
        continue;
      }
      ghost var members := Members(n, joins, usedIndices, i);
      GreedyTake(n, joins, usedIndices, i);
      var currentNormalized := NormalizeText(keywords[i].keyword);
      LinkedNear(keywords, threshold, joins, i, currentNormalized);
      var group;
      group, usedIndices := CollectGroup(keywords, threshold, joins, i, currentNormalized, usedIndices);
      group := SortDesc(group, EntryValue);
      SortGroupsSnoc(keywords, ig, members.members);
      groups := groups + [group];
      Assoc(ig, [members.members], GreedyFrom(n, joins, usedIndices, i + 1));
      ig := ig + [members.members];
      i := i + 1;
    }
    GreedyDone(n, joins, usedIndices);
    assert ig == IndexGroups(n, joins);
    groups := SortDesc(groups, FirstValue);
  }

  /** One pass of the outer loop of `groupKeywords` for a free anchor `i`:
      the group starts with the anchor, which is marked used, and the inner
      loop appends, in position order, every entry not yet used whose
      normalized keyword scores at least `threshold / 100` against the
      anchor's, marking each used. */
  method CollectGroup(keywords: seq<Entry>, threshold: int, ghost joins: (nat, nat) -> bool, i: nat,
                      currentNormalized: string, used: set<nat>)
    returns (group: seq<Entry>, usedIndices: set<nat>)
    requires forall j: nat {:trigger Near(currentNormalized, keywords[j], threshold)} ::
      j < |keywords| ==> (joins(i, j) <==> Near(currentNormalized, keywords[j], threshold))
    requires i < |keywords| && i !in used
    ensures var m := Members(|keywords|, joins, used, i);
      group == Pick(keywords, m.members) && usedIndices == m.used
  {
    var n := |keywords|;
    var similarityThreshold := threshold as real / 100.0;
    group := [keywords[i]];
    usedIndices := used + {i};
    ghost var members := [i];
    var j: nat := 0;
    assert [i][..0] == [];
    while j < n
      invariant j <= n
      invariant ScanFrom(joins, used + {i}, i, j) == Taken(members, usedIndices)
      invariant InRange(members, n)
      invariant group == Pick(keywords, members)
    {
      if j !in usedIndices {
        var joined := Compare(keywords, threshold, joins, i, currentNormalized, similarityThreshold, j);
        if joined {
          PickSnoc(keywords, members, j);
          group := group + [keywords[j]];
          usedIndices := usedIndices + {j};
          members := members + [j];
        }
      }
      j := j + 1;
    }
    assert j == n;
  }

  /** The candidate `e` joins the group whose anchor's normalized keyword is
      `anchor`. */
  predicate Near(anchor: string, e: Entry, threshold: int) {
    MeetsThreshold(anchor, NormalizeText(e.keyword), threshold)
  }

  /** The test in the inner loop of `groupKeywords`: normalizes the keyword
      at position `j` and compares its `similarity` to the anchor's
      normalized keyword with the threshold fraction, which decides exactly
      whether `j` joins the anchor `i`. */
  method Compare(keywords: seq<Entry>, ghost threshold: int, ghost joins: (nat, nat) -> bool, ghost i: nat,
                 currentNormalized: string, similarityThreshold: real, j: nat)
    returns (joined: bool)
    requires forall j: nat {:trigger Near(currentNormalized, keywords[j], threshold)} ::
      j < |keywords| ==> (joins(i, j) <==> Near(currentNormalized, keywords[j], threshold))
    requires similarityThreshold == threshold as real / 100.0 && j < |keywords|
    ensures joined == joins(i, j)
  {
    var otherNormalized := NormalizeText(keywords[j].keyword);
    var simScore := Similarity.Similarity(currentNormalized, otherNormalized);
    joined := simScore >= similarityThreshold;
    assert joined == Near(currentNormalized, keywords[j], threshold);
  }

  /** For anchor `i`, agreeing with `Linked` is agreeing with `Near` on
      the anchor's normalized keyword. */
  lemma LinkedNear(keywords: seq<Entry>, threshold: int, joins: (nat, nat) -> bool, i: nat, anchor: string)
    requires forall a: nat, j: nat {:trigger Linked(keywords, threshold, a, j)} ::
      a < |keywords| && j < |keywords| ==> (joins(a, j) <==> Linked(keywords, threshold, a, j))
    requires i < |keywords| && anchor == NormalizeText(keywords[i].keyword)
    ensures forall j: nat {:trigger Near(anchor, keywords[j], threshold)} ::
      j < |keywords| ==> (joins(i, j) <==> Near(anchor, keywords[j], threshold))
  {
    forall j: nat | j < |keywords|
      ensures joins(i, j) <==> Near(anchor, keywords[j], threshold)
    {
      assert Linked(keywords, threshold, i, j) <==> Near(anchor, keywords[j], threshold);
    }
  }

  lemma GreedySkip(n: nat, joins: (nat, nat) -> bool, used: set<nat>, i: nat)
    requires i < n && i in used
    ensures GreedyFrom(n, joins, used, i) == GreedyFrom(n, joins, used, i + 1)
  {
  }

  lemma GreedyTake(n: nat, joins: (nat, nat) -> bool, used: set<nat>, i: nat)
    requires i < n && i !in used
    ensures var g := Members(n, joins, used, i);
      GreedyFrom(n, joins, used, i) == [g.members] + GreedyFrom(n, joins, g.used, i + 1)
  {
  }

  lemma GreedyDone(n: nat, joins: (nat, nat) -> bool, used: set<nat>)
    ensures GreedyFrom(n, joins, used, n) == []
  {
  }

  lemma PickSnoc(keywords: seq<Entry>, g: seq<nat>, x: nat)
    requires InRange(g, |keywords|) && x < |keywords|
    ensures InRange(g + [x], |keywords|)
    ensures Pick(keywords, g + [x]) == Pick(keywords, g) + [keywords[x]]
  {
    assert (g + [x])[..|g|] == g;
  }

  lemma SortGroupsSnoc(keywords: seq<Entry>, ig: seq<seq<nat>>, g: seq<nat>)
    requires forall q :: 0 <= q < |ig| ==> InRange(ig[q], |keywords|)
    requires InRange(g, |keywords|)
    ensures forall q :: 0 <= q < |ig + [g]| ==> InRange((ig + [g])[q], |keywords|)
    ensures SortGroups(keywords, ig + [g]) == SortGroups(keywords, ig) + [SortDesc(Pick(keywords, g), EntryValue)]
  {
    assert (ig + [g])[..|ig|] == ig;
  }
}
