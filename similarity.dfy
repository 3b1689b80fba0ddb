/** `similarity(a, b)`: one minus the case-insensitive edit distance divided by
    the longer length, in exact rational arithmetic, and the test against the
    percentage threshold that decides whether two keywords join a group.
    Lengths and distances are in UTF-16 code units, as JavaScript counts them. */
module Similarity {
  import opened Text
  import opened EditDistance

  /** The distance between the lower-cased code units of two strings. */
  function Distance(a: string, b: string): nat {
    Levenshtein(Utf16(Lower(a)), Utf16(Lower(b)))
  }

  /** The score of two strings: 1 when both are empty, otherwise the share of
      the longer length that the case-insensitive edit distance leaves. */
  function Score(a: string, b: string): real {
    var n := Max(Length(a), Length(b));
    if n == 0 then 1.0
    else (n - Distance(a, b)) as real / n as real
  }

  /** `similarity(a, b)`: picks the longer string (`b` on a tie), measures
      its distance to the shorter one, and divides. */
  method Similarity(a: string, b: string) returns (r: real)
    ensures r == Score(a, b)
  {
    var longer := if Length(a) > Length(b) then a else b;
    var shorter := if Length(a) > Length(b) then b else a;
    var editDistance := GetEditDistance(longer, shorter);
    ScoreByLonger(a, b);
    if Length(longer) == 0 {
      return 1.0;
    }
    r := (Length(longer) - editDistance) as real / Length(longer) as real;
  }

  /** The score measured from the longer string, as `similarity` does. */
  lemma ScoreByLonger(a: string, b: string)
    ensures var longer := if Length(a) > Length(b) then a else b;
      var shorter := if Length(a) > Length(b) then b else a;
      Score(a, b) == if Length(longer) == 0 then 1.0
                     else (Length(longer) - Distance(longer, shorter)) as real / Length(longer) as real
  {
    LevenshteinSymmetric(Utf16(Lower(a)), Utf16(Lower(b)));
  }

  /** The score is a fraction between 0 and 1. */
  lemma ScoreBounds(a: string, b: string)
    ensures 0.0 <= Score(a, b) <= 1.0
  {
    var n := Max(Length(a), Length(b));
    if n > 0 {
      DistanceBound(a, b);
      var d := Distance(a, b);
      assert 0 <= n - d <= n;
      DivBounds(n - d, n);
    }
  }

  /** The distance never exceeds the longer length. */
  lemma DistanceBound(a: string, b: string)
    ensures Distance(a, b) <= Max(Length(a), Length(b))
  {
    LevenshteinBound(Utf16(Lower(a)), Utf16(Lower(b)));
    LowerLength(a);
    LowerLength(b);
  }

  lemma DivBounds(x: int, n: int)
    requires 0 <= x <= n && n > 0
    ensures 0.0 <= x as real / n as real <= 1.0
  {
    assert x as real <= n as real;
    assert x as real / n as real <= n as real / n as real;
  }

  /** The order of the arguments does not matter. */
  lemma ScoreSymmetric(a: string, b: string)
    ensures Score(a, b) == Score(b, a)
  {
    LevenshteinSymmetric(Utf16(Lower(a)), Utf16(Lower(b)));
  }

  /** The score is 1 exactly when the lower-cased strings are equal, so in
      particular every string scores 1 against itself. */
  lemma ScoreOneIff(a: string, b: string)
    ensures Score(a, b) == 1.0 <==> Lower(a) == Lower(b)
  {
    var ua, ub := Utf16(Lower(a)), Utf16(Lower(b));
    LevenshteinZeroIff(ua, ub);
    if ua == ub {
      Utf16Injective(Lower(a), Lower(b));
    }
    ScoreOneDistance(a, b);
  }

  /** The score is 1 exactly when the distance is 0. */
  lemma ScoreOneDistance(a: string, b: string)
    ensures Score(a, b) == 1.0 <==> Distance(a, b) == 0
  {
    var n := Max(Length(a), Length(b));
    if n > 0 {
      DivOne(n - Distance(a, b), n);
    } else {
      LowerLength(a);
      LowerLength(b);
      assert Utf16(Lower(a)) == [] == Utf16(Lower(b));
    }
  }

  lemma DivOne(x: int, n: int)
    requires n > 0
    ensures x as real / n as real == 1.0 <==> x == n
  {
    var q := x as real / n as real;
    assert q * n as real == x as real;
    if q == 1.0 {
      assert x as real == n as real;
    }
  }

  lemma ScoreSelf(a: string)
    ensures Score(a, a) == 1.0
  {
    ScoreOneIff(a, a);
  }

  /** `similarity(a, b) >= threshold / 100`, `threshold` being the integer
      percentage the slider sets. */
  predicate MeetsThreshold(a: string, b: string, threshold: int) {
    Score(a, b) >= threshold as real / 100.0
  }

  /** The same test in integers: `(L - d) * 100 >= threshold * L` for the
      longer length `L` and the distance `d`, or `threshold <= 100` when both
      strings are empty. */
  lemma MeetsThresholdExact(a: string, b: string, threshold: int)
    ensures var n := Max(Length(a), Length(b)); var d := Distance(a, b);
      MeetsThreshold(a, b, threshold)
      <==> (if n == 0 then threshold <= 100 else (n - d) * 100 >= threshold * n)
  {
    var n := Max(Length(a), Length(b));
    var d := Distance(a, b);
    if n > 0 {
      CrossMultiply(n as int - d, n, threshold);
    }
  }

  /** `x / n >= t / 100` is `x * 100 >= t * n` for a positive `n`. */
  lemma CrossMultiply(x: int, n: int, t: int)
    requires n > 0
    ensures x as real / n as real >= t as real / 100.0 <==> x * 100 >= t * n
  {
    var q := x as real / n as real;
    var c := 100.0 * n as real;
    assert q * n as real == x as real;
    ScaleIff(q, t as real / 100.0, c);
    assert q * c == (x * 100) as real by {
      assert q * c == (q * n as real) * 100.0;
    }
    assert (t as real / 100.0) * c == (t * n) as real;
  }

  /** Multiplying by a positive number keeps an inequality. */
  lemma ScaleIff(u: real, v: real, c: real)
    requires c > 0.0
    ensures u >= v <==> u * c >= v * c
  {
    assert u * c - v * c == (u - v) * c;
    if u < v {
      assert (u - v) * c < 0.0;
    }
  }

  /** At 100% only strings that are equal up to case pass, and at any
      threshold up to 100% a string passes against itself. */
  lemma FullThresholdIff(a: string, b: string)
    ensures MeetsThreshold(a, b, 100) <==> Lower(a) == Lower(b)
  {
    ScoreOneIff(a, b);
    ScoreBounds(a, b);
  }

  lemma SelfMeetsThreshold(a: string, threshold: int)
    requires threshold <= 100
    ensures MeetsThreshold(a, a, threshold)
  {
    ScoreSelf(a);
  }
}

/** Scores of concrete keyword pairs. */
module SimilarityExamples {
  import opened Text
  import opened EditDistance
  import opened Similarity

  /** Two emoji outside the Basic Multilingual Plane are two code units
      each and share their high surrogate, so they score 0.5 and are grouped
      at a threshold of 50%. */
  lemma SurrogatePairs()
    ensures Length("\U{1F600}") == 2
    ensures Score("\U{1F600}", "\U{1F601}") == 0.5
    ensures MeetsThreshold("\U{1F600}", "\U{1F601}", 50)
  {
    var a, b := "\U{1F600}", "\U{1F601}";
    EmojiUnits();
    PairDistance([0xD83D, 0xDE00], [0xD83D, 0xDE01]);
    assert Distance(a, b) == 1;
    assert Score(a, b) == (2 - 1) as real / 2 as real;
  }

  lemma EmojiUnits()
    ensures Utf16(Lower("\U{1F600}")) == Utf16("\U{1F600}") == [0xD83D, 0xDE00]
    ensures Utf16(Lower("\U{1F601}")) == Utf16("\U{1F601}") == [0xD83D, 0xDE01]
  {
    assert Lower("\U{1F600}") == "\U{1F600}";
    assert Lower("\U{1F601}") == "\U{1F601}";
    assert CodeUnits('\U{1F600}') == [0xD83D, 0xDE00];
    assert CodeUnits('\U{1F601}') == [0xD83D, 0xDE01];
  }

  /** Two code units apart only in the last one are at distance 1. */
  lemma PairDistance(u: seq<int>, v: seq<int>)
    requires |u| == 2 && |v| == 2 && u[0] == v[0] && u[1] != v[1]
    ensures Levenshtein(u, v) == 1
  {
    assert Dist(u, v, 1, 1) == 0;
    assert Dist(u, v, 2, 1) == 1 && Dist(u, v, 1, 2) == 1;
  }
}
