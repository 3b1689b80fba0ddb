/** Case-insensitive Levenshtein distance: the textbook recurrence as the
    specification, and `getEditDistance`, which keeps a single rolling row of
    costs, as the implementation proved against it. Strings are compared as
    JavaScript sees them, code unit by code unit. */
module EditDistance {
  import opened Text

  function Min(x: int, y: int): int {
    if x <= y then x else y
  }

  function Max(x: nat, y: nat): nat {
    if x >= y then x else y
  }

  /** The Levenshtein distance between the first `i` code units of `a` and the
      first `j` code units of `b`: the least number of unit-cost insertions,
      deletions and substitutions, by the Wagner-Fischer recurrence (a
      substitution, a deletion from `a`, an insertion into it). */
  function Dist(a: seq<int>, b: seq<int>, i: nat, j: nat): nat
    requires i <= |a| && j <= |b|
    decreases i + j
  {
    if i == 0 then j
    else if j == 0 then i
    else Min(Min(Dist(a, b, i - 1, j - 1) + (if a[i - 1] == b[j - 1] then 0 else 1),
                 Dist(a, b, i - 1, j) + 1),
             Dist(a, b, i, j - 1) + 1)
  }

  /** The Levenshtein distance between `a` and `b`. */
  function Levenshtein(a: seq<int>, b: seq<int>): nat {
    Dist(a, b, |a|, |b|)
  }

  /** Removing the last code unit of the first prefix lowers the distance by
      at most one. */
  lemma {:induction false} DistDropFirst(a: seq<int>, b: seq<int>, i: nat, j: nat)
    requires 0 < i <= |a| && j <= |b|
    ensures Dist(a, b, i - 1, j) <= Dist(a, b, i, j) + 1
    decreases j
  {
    if j > 0 {
      DistDropFirst(a, b, i, j - 1);
      if i > 1 {
        assert Dist(a, b, i - 1, j) <= Dist(a, b, i - 2, j - 1) + 1 + 1;
        assert Dist(a, b, i - 1, j) <= Dist(a, b, i - 1, j - 1) + 1;
      }
    }
  }

  /** Removing the last code unit of the second prefix lowers the distance by
      at most one. */
  lemma {:induction false} DistDropSecond(a: seq<int>, b: seq<int>, i: nat, j: nat)
    requires i <= |a| && 0 < j <= |b|
    ensures Dist(a, b, i, j - 1) <= Dist(a, b, i, j) + 1
    decreases i
  {
    if i > 0 {
      DistDropSecond(a, b, i - 1, j);
      if j > 1 {
        assert Dist(a, b, i, j - 1) <= Dist(a, b, i - 1, j - 2) + 1 + 1;
        assert Dist(a, b, i, j - 1) <= Dist(a, b, i - 1, j - 1) + 1;
      }
    }
  }

  /** When the last code units agree, the distance is that of the shorter
      prefixes: the shortcut the rolling-row code takes. */
  lemma DistMatch(a: seq<int>, b: seq<int>, i: nat, j: nat)
    requires 0 < i <= |a| && 0 < j <= |b| && a[i - 1] == b[j - 1]
    ensures Dist(a, b, i, j) == Dist(a, b, i - 1, j - 1)
  {
    DistDropFirst(a, b, i, j - 1);
    DistDropSecond(a, b, i - 1, j);
  }

  /** The distance does not depend on which string comes first. */
  lemma {:induction false} DistSymmetric(a: seq<int>, b: seq<int>, i: nat, j: nat)
    requires i <= |a| && j <= |b|
    ensures Dist(a, b, i, j) == Dist(b, a, j, i)
    decreases i + j
  {
    if i > 0 && j > 0 {
      var p, q := i - 1, j - 1;
      DistSymmetric(a, b, p, j);
      DistSymmetric(a, b, i, q);
      DistSymmetric(a, b, p, q);
      SymmetricStep(a, b, i, j);
    }
  }

  /** The recurrence is symmetric once the three smaller distances are. */
  lemma SymmetricStep(a: seq<int>, b: seq<int>, i: nat, j: nat)
    requires 0 < i <= |a| && 0 < j <= |b|
    requires Dist(a, b, i - 1, j - 1) == Dist(b, a, j - 1, i - 1)
    requires Dist(a, b, i - 1, j) == Dist(b, a, j, i - 1)
    requires Dist(a, b, i, j - 1) == Dist(b, a, j - 1, i)
    ensures Dist(a, b, i, j) == Dist(b, a, j, i)
  {
  }

  lemma LevenshteinSymmetric(a: seq<int>, b: seq<int>)
    ensures Levenshtein(a, b) == Levenshtein(b, a)
  {
    DistSymmetric(a, b, |a|, |b|);
  }

  /** The distance never exceeds the longer prefix. */
  lemma {:induction false} DistBound(a: seq<int>, b: seq<int>, i: nat, j: nat)
    requires i <= |a| && j <= |b|
    ensures Dist(a, b, i, j) <= Max(i, j)
    decreases i + j
  {
    if i > 0 && j > 0 {
      DistBound(a, b, i - 1, j - 1);
    }
  }

  /** The distance is zero exactly when the two prefixes are equal. */
  lemma {:induction false} DistZeroIff(a: seq<int>, b: seq<int>, i: nat, j: nat)
    requires i <= |a| && j <= |b|
    ensures Dist(a, b, i, j) == 0 <==> (i == j && a[..i] == b[..j])
    decreases i + j
  {
    if i > 0 && j > 0 {
      DistZeroIff(a, b, i - 1, j - 1);
      if i == j && a[..i] == b[..j] {
        assert a[i - 1] == a[..i][i - 1] == b[..j][j - 1] == b[j - 1];
        assert a[..i - 1] == a[..i][..i - 1];
        assert b[..j - 1] == b[..j][..j - 1];
      }
      if Dist(a, b, i, j) == 0 {
        assert a[i - 1] == b[j - 1];
        assert a[..i] == a[..i - 1] + [a[i - 1]];
        assert b[..j] == b[..j - 1] + [b[j - 1]];
      }
    }
  }

  lemma LevenshteinBound(a: seq<int>, b: seq<int>)
    ensures Levenshtein(a, b) <= Max(|a|, |b|)
  {
    DistBound(a, b, |a|, |b|);
  }

  lemma LevenshteinZeroIff(a: seq<int>, b: seq<int>)
    ensures Levenshtein(a, b) == 0 <==> a == b
  {
    DistZeroIff(a, b, |a|, |b|);
    assert a[..|a|] == a && b[..|b|] == b;
  }

  /** Row `i` of the table: the distance from every prefix of `a` to the
      first `i` characters of `b`. */
  ghost function Row(a: seq<int>, b: seq<int>, i: nat): (r: seq<int>)
    requires i <= |b|
    ensures |r| == |a| + 1
  {
    seq(|a| + 1, k requires 0 <= k <= |a| => Dist(a, b, k, i) as int)
  }

  /** The cell rule of the rolling-row loop: the diagonal cell when the
      code units agree, otherwise one more than the least of the diagonal,
      left and upper cells. */
  function Cell(diag: int, up: int, left: int, same: bool): int {
    if same then diag else Min(Min(diag, left), up) + 1
  }

  /** `cur` is the row that follows `prev` when the next code unit of the
      second string is `c` and the row index is `i`. */
  predicate NextRow(prev: seq<int>, cur: seq<int>, a: seq<int>, c: int, i: nat) {
    |prev| == |a| + 1 && |cur| == |a| + 1 && cur[0] == i
    && forall k :: 1 <= k <= |a| ==> cur[k] == Cell(prev[k - 1], prev[k], cur[k - 1], a[k - 1] == c)
  }

  /** Row 0 counts the code units of each prefix; every later row follows
      from the one before by the cell rule. */
  lemma RowZero(a: seq<int>, b: seq<int>)
    ensures forall k :: 0 <= k <= |a| ==> Row(a, b, 0)[k] == k
  {
  }

  lemma RowStep(a: seq<int>, b: seq<int>, i: nat)
    requires 0 < i <= |b|
    ensures NextRow(Row(a, b, i - 1), Row(a, b, i), a, b[i - 1], i)
  {
    var prev, cur := Row(a, b, i - 1), Row(a, b, i);
    forall k | 1 <= k <= |a|
      ensures cur[k] == Cell(prev[k - 1], prev[k], cur[k - 1], a[k - 1] == b[i - 1])
    {
      assert cur[k] == Dist(a, b, k, i) && cur[k - 1] == Dist(a, b, k - 1, i);
      assert prev[k] == Dist(a, b, k, i - 1) && prev[k - 1] == Dist(a, b, k - 1, i - 1);
      if a[k - 1] == b[i - 1] {
        DistMatch(a, b, k, i);
      }
    }
  }

  /** `getEditDistance(s1, s2)`: lower-cases both strings and runs the
      Wagner-Fischer recurrence on their code units (what `length` counts and
      `charAt` returns) over one row of `costs`, which holds row
      `i - 1` of the table when pass `i` starts and is overwritten in place. */
  method GetEditDistance(s1: string, s2: string) returns (d: nat)
    ensures d == Levenshtein(Utf16(Lower(s1)), Utf16(Lower(s2)))
  {
    var t1 := Utf16(Lower(s1));
    var t2 := Utf16(Lower(s2));
    var costs := new int[|t1| + 1];
    var i := 0;
    while i <= |t2|
      invariant 0 <= i <= |t2| + 1
      invariant i > 0 ==> costs[..] == Row(t1, t2, i - 1)
    {
      ghost var prev := costs[..];
      ghost var cur := Row(t1, t2, i);
      if i == 0 {
        RowZero(t1, t2);
      } else {
        RowStep(t1, t2, i);
      }
      FillRow(costs, t1, t2, i, prev, cur);
      i := i + 1;
    }
    assert costs[|t1|] == Row(t1, t2, |t2|)[|t1|];
    d := costs[|t1|];
  }

  /** One pass of the outer loop of `getEditDistance`. At `i == 0` it writes
      row 0; otherwise it overwrites row `i - 1` with row `i` column by
      column: `lastValue` carries the cell to the left, and `costs[j - 1]`
      is moved into place one column late, so that the diagonal cell is still
      there when column `j` is computed. */
  method FillRow(costs: array<int>, t1: seq<int>, t2: seq<int>, i: nat, ghost prev: seq<int>, ghost cur: seq<int>)
    requires costs.Length == |t1| + 1 && i <= |t2| && |cur| == |t1| + 1
    requires i == 0 ==> forall k :: 0 <= k <= |t1| ==> cur[k] == k
    requires i > 0 ==> costs[..] == prev && NextRow(prev, cur, t1, t2[i - 1], i)
    modifies costs
    ensures costs[..] == cur
  {
    var lastValue := i;
    var j := 0;
    while j <= |t1|
      invariant 0 <= j <= |t1| + 1
      invariant i == 0 ==> forall k :: 0 <= k < j ==> costs[k] == cur[k]
      invariant i > 0 ==> forall k :: 0 <= k < j - 1 ==> costs[k] == cur[k]
      invariant i > 0 ==> forall k :: Max(j, 1) - 1 <= k <= |t1| ==> costs[k] == prev[k]
      invariant i > 0 ==> lastValue == cur[Max(j, 1) - 1]
    {
      if i == 0 {
        costs[j] := j;
      } else if j > 0 {
        var newValue := costs[j - 1];
        if t1[j - 1] != t2[i - 1] {
          newValue := Min(Min(newValue, lastValue), costs[j]) + 1;
        }
        costs[j - 1] := lastValue;
        lastValue := newValue;
      }
      j := j + 1;
    }
    if i > 0 {
      costs[|t1|] := lastValue;
    }
    assert forall k :: 0 <= k <= |t1| ==> costs[k] == cur[k];
  }
}
