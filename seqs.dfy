/** `Array.prototype.filter`, sizes of nested lists, and the facts about them
    that the parser, the sort and the grouping rely on. */
module Seqs {
  import opened Wrappers

  /** The elements of `s` that satisfy `p`, in their order in `s`. */
  function Filter<T>(s: seq<T>, p: T -> bool): (r: seq<T>)
    ensures |r| <= |s|
  {
    if s == [] then []
    else Filter(s[..|s| - 1], p) + (if p(s[|s| - 1]) then [s[|s| - 1]] else [])
  }

  /** The positions in `s` of the elements that satisfy `p`, in increasing
      order. */
  function Kept<T>(s: seq<T>, p: T -> bool): (r: seq<nat>)
  {
    if s == [] then []
    else Kept(s[..|s| - 1], p) + (if p(s[|s| - 1]) then [|s| - 1] else [])
  }

  /** The filter keeps exactly the elements that satisfy `p`, each as it is and
      in their order: its `k`-th element is the one at the `k`-th kept
      position, the kept positions increase, and a position is kept if and
      only if its element satisfies `p`. */
  lemma {:induction false} FilterExact<T>(s: seq<T>, p: T -> bool)
    ensures |Filter(s, p)| == |Kept(s, p)|
    ensures forall k :: 0 <= k < |Kept(s, p)| ==>
      Kept(s, p)[k] < |s| && Filter(s, p)[k] == s[Kept(s, p)[k]]
    ensures forall k, l :: 0 <= k < l < |Kept(s, p)| ==> Kept(s, p)[k] < Kept(s, p)[l]
    ensures forall i :: 0 <= i < |s| ==> (p(s[i]) <==> i in Kept(s, p))
  {
    if s != [] {
      var n := |s| - 1;
      var init := s[..n];
      FilterExact(init, p);
      var idx0 := Kept(init, p);
      var idx := Kept(s, p);
      var r0 := Filter(init, p);
      var r := Filter(s, p);
      assert idx == idx0 + (if p(s[n]) then [n] else []);
      assert r == r0 + (if p(s[n]) then [s[n]] else []);
      forall k | 0 <= k < |idx| ensures idx[k] < |s| && r[k] == s[idx[k]] {
        if k < |idx0| {
          assert idx[k] == idx0[k] && r[k] == r0[k];
          assert s[idx[k]] == init[idx0[k]];
        }
      }
      forall i | 0 <= i < |s| ensures p(s[i]) <==> i in idx {
        if i < n {
          assert s[i] == init[i];
          assert i in idx0 <==> i in idx;
        }
      }
    }
  }

  /** Filtering a concatenation filters each part. */
  lemma {:induction false} FilterAppend<T>(a: seq<T>, b: seq<T>, p: T -> bool)
    ensures Filter(a + b, p) == Filter(a, p) + Filter(b, p)
    decreases |b|
  {
    if b == [] {
      assert a + b == a;
    } else {
      var n := |b| - 1;
      assert (a + b)[..|a + b| - 1] == a + b[..n];
      FilterAppend(a, b[..n], p);
    }
  }

  /** Filtering a sequence that starts with `x`. */
  lemma FilterCons<T>(x: T, s: seq<T>, p: T -> bool)
    ensures Filter([x] + s, p) == (if p(x) then [x] else []) + Filter(s, p)
  {
    FilterAppend([x], s, p);
    FilterSingle(x, p);
  }

  lemma FilterSingle<T>(x: T, p: T -> bool)
    ensures Filter([x], p) == if p(x) then [x] else []
  {
    assert [x][..0] == [];
  }

  /** The values that `f` gives for the elements of `s`, in order, leaving out
      the elements for which it gives none (a loop that pushes what it
      accepts). */
  function FilterMap<T, U>(s: seq<T>, f: T -> Option<U>): (r: seq<U>)
    ensures |r| <= |s|
  {
    if s == [] then []
    else
      var last := f(s[|s| - 1]);
      FilterMap(s[..|s| - 1], f) + (if last.Some? then [last.value] else [])
  }

  /** The positions in `s` of the elements for which `f` gives a value. */
  function Hits<T, U>(s: seq<T>, f: T -> Option<U>): (r: seq<nat>)
  {
    if s == [] then []
    else Hits(s[..|s| - 1], f) + (if f(s[|s| - 1]).Some? then [|s| - 1] else [])
  }

  /** One more element. */
  lemma FilterMapSnoc<T, U>(s: seq<T>, i: nat, f: T -> Option<U>)
    requires i < |s|
    ensures FilterMap(s[..i + 1], f)
         == FilterMap(s[..i], f) + (if f(s[i]).Some? then [f(s[i]).value] else [])
  {
    assert s[..i + 1][..i] == s[..i];
  }

  /** `FilterMap` keeps exactly the elements for which `f` gives a value, in
      order: its `k`-th value is the one `f` gives at the `k`-th hit, the hits
      increase, and a position is a hit if and only if `f` gives a value
      there. */
  lemma {:induction false} FilterMapExact<T, U>(s: seq<T>, f: T -> Option<U>)
    ensures |FilterMap(s, f)| == |Hits(s, f)|
    ensures forall k :: 0 <= k < |Hits(s, f)| ==>
      Hits(s, f)[k] < |s| && f(s[Hits(s, f)[k]]) == Some(FilterMap(s, f)[k])
    ensures forall k, l :: 0 <= k < l < |Hits(s, f)| ==> Hits(s, f)[k] < Hits(s, f)[l]
    ensures forall i :: 0 <= i < |s| ==> (f(s[i]).Some? <==> i in Hits(s, f))
  {
    if s != [] {
      var n := |s| - 1;
      var init := s[..n];
      FilterMapExact(init, f);
      var idx0 := Hits(init, f);
      var idx := Hits(s, f);
      var r0 := FilterMap(init, f);
      var r := FilterMap(s, f);
      assert idx == idx0 + (if f(s[n]).Some? then [n] else []);
      assert r == r0 + (if f(s[n]).Some? then [f(s[n]).value] else []);
      forall k | 0 <= k < |idx| ensures idx[k] < |s| && f(s[idx[k]]) == Some(r[k]) {
        if k < |idx0| {
          assert idx[k] == idx0[k] && r[k] == r0[k];
          assert s[idx[k]] == init[idx0[k]];
        }
      }
      forall i | 0 <= i < |s| ensures f(s[i]).Some? <==> i in idx {
        if i < n {
          assert s[i] == init[i];
          assert i in idx0 <==> i in idx;
        }
      }
    }
  }

  /** The summed length of the lists in `gs`. */
  function SumSizes<T>(gs: seq<seq<T>>): nat {
    if gs == [] then 0 else |gs[0]| + SumSizes(gs[1..])
  }

  /** The lists in `gs`, one after the other. */
  function Flatten<T>(gs: seq<seq<T>>): (r: seq<T>)
    ensures |r| == SumSizes(gs)
  {
    if gs == [] then [] else gs[0] + Flatten(gs[1..])
  }
}
