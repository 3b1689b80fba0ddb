/** String primitives the clustering engine is built from, stated on `seq<char>`:
    JavaScript's white-space class (what `\s` and `trim()` match), `trim()`,
    the `/\s+/g` collapse, a global literal `replace`, `split` by a literal
    separator and `join`, and case folding. */
module Text {

  /** ECMAScript WhiteSpace and LineTerminator code points; `\s` in a regular
      expression and `String.prototype.trim` both use exactly this set. */
  predicate IsSpace(c: char) {
    var n := c as int;
    if n <= 0x20 then n == 0x20 || 0x09 <= n <= 0x0D
    else if n < 0xA0 then false
    else (n == 0xA0 || n == 0x1680 || (0x2000 <= n <= 0x200A) || n == 0x2028
          || n == 0x2029 || n == 0x202F || n == 0x205F || n == 0x3000 || n == 0xFEFF)
  }

  /** No white space at either end. */
  predicate NoEdgeSpace(s: string) {
    s == [] || (!IsSpace(s[0]) && !IsSpace(s[|s| - 1]))
  }

  /** No two adjacent white-space characters. */
  ghost predicate NoDoubleSpace(s: string) {
    forall j, k :: 0 <= j < k < |s| && k == j + 1 ==> !(IsSpace(s[j]) && IsSpace(s[k]))
  }

  /** The only white-space character present is the plain space. */
  predicate OnlyPlainSpaces(s: string) {
    forall k :: 0 <= k < |s| && IsSpace(s[k]) ==> s[k] == ' '
  }

  /** The clean form: single plain spaces between words, none at the ends. */
  ghost predicate Clean(s: string) {
    NoEdgeSpace(s) && NoDoubleSpace(s) && OnlyPlainSpaces(s)
  }

  /** Every character is white space. */
  predicate AllSpace(s: string) {
    forall k :: 0 <= k < |s| ==> IsSpace(s[k])
  }

  // ---------------------------------------------------------------------
  // trim()

  /** The number of white-space characters at the front of `s`. */
  function LeadingSpaces(s: string): (n: nat)
    ensures n <= |s|
    ensures n < |s| ==> !IsSpace(s[n])
  {
    if |s| > 0 && IsSpace(s[0]) then 1 + LeadingSpaces(s[1..]) else 0
  }

  /** Only white space is counted. */
  lemma {:induction false} LeadingAreSpaces(s: string)
    ensures AllSpace(s[..LeadingSpaces(s)])
  {
    if |s| > 0 && IsSpace(s[0]) {
      LeadingAreSpaces(s[1..]);
      var n := LeadingSpaces(s);
      forall k | 0 <= k < n ensures IsSpace(s[..n][k]) {
        if k > 0 {
          assert s[..n][k] == s[1..][..n - 1][k - 1];
        }
      }
    }
  }

  /** The length of `s` without the white space at its back. */
  function KeptLength(s: string): (n: nat)
    ensures n <= |s|
    ensures n > 0 ==> !IsSpace(s[n - 1])
  {
    if |s| > 0 && IsSpace(s[|s| - 1]) then KeptLength(s[..|s| - 1]) else |s|
  }

  /** Only white space follows the kept part. */
  lemma {:induction false} TrailingAreSpaces(s: string)
    ensures AllSpace(s[KeptLength(s)..])
  {
    if |s| > 0 && IsSpace(s[|s| - 1]) {
      var p := s[..|s| - 1];
      TrailingAreSpaces(p);
      var n := KeptLength(s);
      forall k | 0 <= k < |s| - n ensures IsSpace(s[n..][k]) {
        if n + k < |s| - 1 {
          assert s[n..][k] == p[n..][k];
        }
      }
    }
  }

  /** Drops the white space at the front (the first half of `trim()`). */
  function TrimStart(s: string): (r: string)
    ensures |r| <= |s|
    ensures r == [] || !IsSpace(r[0])
  {
    s[LeadingSpaces(s)..]
  }

  /** Drops the white space at the back (the second half of `trim()`). */
  function TrimEnd(s: string): (r: string)
    ensures |r| <= |s|
    ensures r == [] || !IsSpace(r[|r| - 1])
  {
    s[..KeptLength(s)]
  }

  /** `String.prototype.trim`. */
  function Trim(s: string): (r: string)
    ensures NoEdgeSpace(r)
    ensures |r| <= |s|
  {
    TrimEnd(TrimStart(s))
  }

  /** `trim()` returns a slice of `s`: the one that starts after the leading
      run of white space. */
  lemma TrimSlice(s: string)
    ensures LeadingSpaces(s) + |Trim(s)| <= |s|
    ensures Trim(s) == s[LeadingSpaces(s)..LeadingSpaces(s) + |Trim(s)|]
  {
    var i := LeadingSpaces(s);
    var t := s[i..];
    var j := KeptLength(t);
    assert Trim(s) == t[..j];
    assert t[..j] == s[i..i + j];
  }

  /** What `trim()` cuts from the front is white space. */
  lemma TrimCutsFront(s: string)
    ensures AllSpace(s[..LeadingSpaces(s)])
  {
    LeadingAreSpaces(s);
  }

  /** What `trim()` cuts from the back is white space. */
  lemma TrimCutsBack(s: string)
    ensures LeadingSpaces(s) + |Trim(s)| <= |s|
    ensures AllSpace(s[LeadingSpaces(s) + |Trim(s)|..])
  {
    var i := LeadingSpaces(s);
    var t := s[i..];
    TrailingAreSpaces(t);
    SpaceSuffix(s, i, KeptLength(t));
  }

  lemma SpaceSuffix(s: string, i: nat, j: nat)
    requires i + j <= |s| && AllSpace(s[i..][j..])
    ensures AllSpace(s[i + j..])
  {
    assert s[i..][j..] == s[i + j..];
  }

  /** `trim()` is empty exactly when every character is white space. */
  lemma TrimEmptyIff(s: string)
    ensures Trim(s) == [] <==> AllSpace(s)
  {
    TrimSlice(s);
    TrimCutsFront(s);
    var i := LeadingSpaces(s);
    if Trim(s) == [] {
      TrimCutsBack(s);
      forall k | 0 <= k < |s| ensures IsSpace(s[k]) {
        assert s[k] == s[..i][k];
      }
    } else {
      assert s[i] == Trim(s)[0];
    }
  }

  /** A string with no white space at its ends is its own trim. */
  lemma TrimNoEdge(s: string)
    requires NoEdgeSpace(s)
    ensures Trim(s) == s
  {
  }

  /** `trim()` keeps a string free of doubled and non-plain white space. */
  lemma TrimKeeps(s: string)
    requires NoDoubleSpace(s) && OnlyPlainSpaces(s)
    ensures Clean(Trim(s))
  {
    var i := LeadingSpaces(s);
    var r := Trim(s);
    assert r == s[i..i + |r|];
    KeepsSlice(s, i, i + |r|);
  }

  /** A slice of a string free of doubled and non-plain white space is free
      of them too. */
  lemma KeepsSlice(s: string, i: nat, j: nat)
    requires i <= j <= |s| && NoDoubleSpace(s) && OnlyPlainSpaces(s)
    ensures NoDoubleSpace(s[i..j]) && OnlyPlainSpaces(s[i..j])
  {
    var r := s[i..j];
    forall j, k | 0 <= j < k < |r| && k == j + 1 ensures !(IsSpace(r[j]) && IsSpace(r[k])) {
      assert r[j] == s[i + j] && r[k] == s[i + k];
    }
    forall k | 0 <= k < |r| && IsSpace(r[k]) ensures r[k] == ' ' {
      assert r[k] == s[i + k];
    }
  }

  // ---------------------------------------------------------------------
  // replace(/\s+/g, ' ')

  /** `s.replace(/\s+/g, ' ')`: every maximal run of white space becomes one
      plain space; nothing else changes. */
  function CollapseSpaces(s: string): (r: string)
    ensures |r| <= |s|
    ensures r == [] <==> s == []
    ensures s != [] ==> (IsSpace(r[0]) <==> IsSpace(s[0]))
    decreases |s|
  {
    if s == [] then []
    else if IsSpace(s[0]) then
      [' '] + CollapseSpaces(TrimStart(s[1..]))
    else
      [s[0]] + CollapseSpaces(s[1..])
  }

  /** After the collapse every run of white space is one plain space. */
  lemma {:induction false} CollapseClean(s: string)
    ensures NoDoubleSpace(CollapseSpaces(s)) && OnlyPlainSpaces(CollapseSpaces(s))
    decreases |s|
  {
    if s != [] {
      var r := CollapseSpaces(s);
      var rest := if IsSpace(s[0]) then TrimStart(s[1..]) else s[1..];
      var tail := CollapseSpaces(rest);
      CollapseClean(rest);
      assert r[1..] == tail;
      forall j, k | 0 <= j < k < |r| && k == j + 1 ensures !(IsSpace(r[j]) && IsSpace(r[k])) {
        if j > 0 {
          assert r[j] == tail[j - 1] && r[k] == tail[k - 1];
        } else {
          assert r[1] == tail[0];
        }
      }
      forall k | 0 <= k < |r| && IsSpace(r[k]) ensures r[k] == ' ' {
        if k > 0 {
          assert r[k] == tail[k - 1];
        }
      }
    }
  }

  /** The white-space-free characters of `s`, in order. */
  function Visible(s: string): (r: string)
    ensures |r| <= |s|
  {
    if s == [] then []
    else (if IsSpace(s[0]) then [] else [s[0]]) + Visible(s[1..])
  }

  /** The collapse keeps every other character, in order. */
  lemma {:induction false} CollapseKeepsVisible(s: string)
    ensures Visible(CollapseSpaces(s)) == Visible(s)
    decreases |s|
  {
    if s != [] {
      if IsSpace(s[0]) {
        VisibleDropsSpaces(s[1..]);
        CollapseKeepsVisible(TrimStart(s[1..]));
        assert Visible(CollapseSpaces(s)) == Visible(CollapseSpaces(TrimStart(s[1..])));
      } else {
        CollapseKeepsVisible(s[1..]);
        assert Visible(CollapseSpaces(s)) == [s[0]] + Visible(CollapseSpaces(s[1..]));
      }
    }
  }

  lemma {:induction false} VisibleDropsSpaces(s: string)
    ensures Visible(TrimStart(s)) == Visible(s)
  {
    if |s| > 0 && IsSpace(s[0]) {
      VisibleDropsSpaces(s[1..]);
    }
  }

  /** `s.replace(/\s+/g, ' ').trim()`, the form both ends of the normaliser
      produce. */
  function Squish(s: string): (r: string)
    ensures |r| <= |s|
  {
    Trim(CollapseSpaces(s))
  }

  lemma SquishClean(s: string)
    ensures Clean(Squish(s))
  {
    CollapseClean(s);
    TrimKeeps(CollapseSpaces(s));
  }

  /** A clean string is its own `Squish`. */
  lemma {:induction false} CollapseFixed(s: string)
    requires NoDoubleSpace(s) && OnlyPlainSpaces(s)
    ensures CollapseSpaces(s) == s
    decreases |s|
  {
    if s != [] {
      var t := s[1..];
      assert NoDoubleSpace(t) && OnlyPlainSpaces(t) by {
        forall j, k | 0 <= j < k < |t| && k == j + 1 ensures !(IsSpace(t[j]) && IsSpace(t[k])) {
          assert t[j] == s[j + 1] && t[k] == s[k + 1];
        }
        forall k | 0 <= k < |t| && IsSpace(t[k]) ensures t[k] == ' ' {
          assert t[k] == s[k + 1];
        }
      }
      CollapseFixed(t);
      if IsSpace(s[0]) {
        assert t == [] || !IsSpace(t[0]) by {
          if t != [] {
            assert t[0] == s[1];
          }
        }
        assert s == [' '] + t;
      } else {
        assert s == [s[0]] + t;
      }
    }
  }

  lemma SquishFixed(s: string)
    requires Clean(s)
    ensures Squish(s) == s
  {
    CollapseFixed(s);
    TrimNoEdge(s);
  }

  /** A run of white space before a visible character becomes one space. */
  lemma CollapseRun(g: string, y: string)
    requires g != [] && AllSpace(g)
    requires y == [] || !IsSpace(y[0])
    ensures CollapseSpaces(g + y) == [' '] + CollapseSpaces(y)
  {
    assert (g + y)[0] == g[0] && (g + y)[1..] == g[1..] + y;
    TrimStartSpaces(g[1..], y);
  }

  lemma {:induction false} TrimStartSpaces(g: string, y: string)
    requires AllSpace(g)
    requires y == [] || !IsSpace(y[0])
    ensures LeadingSpaces(g + y) == |g|
    ensures TrimStart(g + y) == y
    decreases |g|
  {
    if g != [] {
      assert (g + y)[0] == g[0] && (g + y)[1..] == g[1..] + y;
      TrimStartSpaces(g[1..], y);
    } else {
      assert g + y == y;
    }
  }

  /** The collapse works piece by piece when the first piece does not end
      inside a run of white space. */
  lemma {:induction false} CollapseAppend(a: string, b: string)
    requires a == [] || !IsSpace(a[|a| - 1])
    ensures CollapseSpaces(a + b) == CollapseSpaces(a) + CollapseSpaces(b)
    decreases |a|
  {
    if a == [] {
      assert a + b == b;
    } else if IsSpace(a[0]) {
      var u := a[1..];
      var v := TrimStart(u);
      assert u != [] && !IsSpace(u[|u| - 1]) by {
        assert u[|u| - 1] == a[|a| - 1];
      }
      assert CollapseSpaces(a + b) == [' '] + CollapseSpaces(TrimStart(u + b)) by {
        assert (a + b)[0] == a[0] && (a + b)[1..] == u + b;
      }
      assert TrimStart(u + b) == v + b by {
        TrimStartAppend(u, b);
      }
      assert v != [] && !IsSpace(v[|v| - 1]) by {
        TrimStartAppend(u, b);
        assert v[|v| - 1] == u[|u| - 1];
      }
      CollapseAppend(v, b);
      assert CollapseSpaces(a) == [' '] + CollapseSpaces(v);
      Assoc([' '], CollapseSpaces(v), CollapseSpaces(b));
    } else {
      var u := a[1..];
      assert u == [] || !IsSpace(u[|u| - 1]) by {
        if u != [] {
          assert u[|u| - 1] == a[|a| - 1];
        }
      }
      assert CollapseSpaces(a + b) == [a[0]] + CollapseSpaces(u + b) by {
        assert (a + b)[0] == a[0] && (a + b)[1..] == u + b;
      }
      CollapseAppend(u, b);
      Assoc([a[0]], CollapseSpaces(u), CollapseSpaces(b));
    }
  }

  lemma {:induction false} TrimStartAppend(u: string, b: string)
    requires u != [] && !IsSpace(u[|u| - 1])
    ensures LeadingSpaces(u + b) == LeadingSpaces(u) < |u|
    ensures TrimStart(u + b) == TrimStart(u) + b
    decreases |u|
  {
    assert (u + b)[0] == u[0];
    if IsSpace(u[0]) {
      assert (u + b)[1..] == u[1..] + b;
      TrimStartAppend(u[1..], b);
    }
    var n := LeadingSpaces(u);
    assert (u + b)[n..] == u[n..] + b;
  }

  /** Two clean, non-empty strings glued by one space make a clean string. */
  lemma CleanGlue(a: string, b: string)
    requires Clean(a) && Clean(b) && a != [] && b != []
    ensures Clean(a + " " + b)
  {
    var s := a + " " + b;
    var n := |a|;
    forall j, k | 0 <= j < k < |s| && k == j + 1 ensures !(IsSpace(s[j]) && IsSpace(s[k])) {
      if k < n {
        assert s[j] == a[j] && s[k] == a[k];
      } else if k == n {
        assert s[j] == a[n - 1];
      } else if k == n + 1 {
        assert s[k] == b[0];
      } else {
        assert s[j] == b[j - n - 1] && s[k] == b[k - n - 1];
      }
    }
    forall k | 0 <= k < |s| && IsSpace(s[k]) ensures s[k] == ' ' {
      if k < n {
        assert s[k] == a[k];
      } else if k > n {
        assert s[k] == b[k - n - 1];
      }
    }
    assert s[|s| - 1] == b[|b| - 1];
  }

  lemma Assoc<T>(x: seq<T>, y: seq<T>, z: seq<T>)
    ensures x + (y + z) == (x + y) + z
  {
  }

  lemma ConsSplit(x: string, r: string)
    requires x != []
    ensures [x[0]] + (x[1..] + r) == x + r
  {
    assert x == [x[0]] + x[1..];
  }

  // ---------------------------------------------------------------------
  // replace(/pat/g, rep)

  /** `s` holds `pat` starting at position `i`. */
  predicate MatchAt(s: string, pat: string, i: nat) {
    i + |pat| <= |s| && s[i..i + |pat|] == pat
  }

  /** `pat` occurs somewhere in `s`. */
  predicate Occurs(s: string, pat: string) {
    exists i :: 0 <= i <= |s| && MatchAt(s, pat, i)
  }

  /** `s.replace(/pat/g, rep)` for a literal, non-empty `pat` and a `rep` without
      `$` patterns: matches are found left to right and do not overlap; the
      scan resumes right after each replaced match. */
  function ReplaceAll(s: string, pat: string, rep: string): (r: string)
    requires |pat| > 0
    ensures |pat| <= |rep| ==> |s| <= |r|
    ensures |rep| <= |pat| ==> |r| <= |s|
    decreases |s|
  {
    if |s| < |pat| then s
    else if s[..|pat|] == pat then rep + ReplaceAll(s[|pat|..], pat, rep)
    else [s[0]] + ReplaceAll(s[1..], pat, rep)
  }

  /** Replacing a pattern that does not occur changes nothing. */
  lemma {:induction false} ReplaceAllAbsent(s: string, pat: string, rep: string)
    requires |pat| > 0 && !Occurs(s, pat)
    ensures ReplaceAll(s, pat, rep) == s
  {
    if |s| >= |pat| {
      assert !MatchAt(s, pat, 0);
      assert s[..|pat|] != pat;
      assert !Occurs(s[1..], pat) by {
        forall i | 0 <= i <= |s[1..]| && MatchAt(s[1..], pat, i) ensures false {
          assert s[1..][i..i + |pat|] == s[i + 1..i + 1 + |pat|];
          assert MatchAt(s, pat, i + 1);
        }
      }
      ReplaceAllAbsent(s[1..], pat, rep);
    }
  }

  /** A pattern one of whose characters is missing from `s` is never replaced. */
  lemma ReplaceAllMissing(s: string, pat: string, rep: string, k: nat)
    requires k < |pat| && pat[k] !in s
    ensures ReplaceAll(s, pat, rep) == s
  {
    ReplaceAllAbsent(s, pat, rep);
  }

  /** A prefix at no position of which a match starts is copied. */
  lemma {:induction false} ReplaceAllPrefix(x: string, y: string, pat: string, rep: string)
    requires |pat| > 0
    requires forall i :: 0 <= i < |x| ==> !MatchAt(x + y, pat, i)
    ensures ReplaceAll(x + y, pat, rep) == x + ReplaceAll(y, pat, rep)
    decreases |x|
  {
    if x != [] {
      var s := x + y;
      assert s[0] == x[0] && s[1..] == x[1..] + y;
      forall i | 0 <= i < |x| - 1 ensures !MatchAt(x[1..] + y, pat, i) {
        assert !MatchAt(s, pat, i + 1);
        if i + |pat| <= |s| - 1 {
          assert (x[1..] + y)[i..i + |pat|] == s[i + 1..i + 1 + |pat|];
        }
      }
      ReplaceAllPrefix(x[1..], y, pat, rep);
      if |s| >= |pat| {
        assert !MatchAt(s, pat, 0);
        assert ReplaceAll(s, pat, rep) == [s[0]] + ReplaceAll(s[1..], pat, rep);
        ConsSplit(x, ReplaceAll(y, pat, rep));
      } else {
        assert ReplaceAll(y, pat, rep) == y;
      }
    } else {
      assert x + y == y;
    }
  }

  /** A match at the front is replaced and the scan resumes after it. */
  lemma ReplaceAllHit(y: string, pat: string, rep: string)
    requires |pat| > 0
    ensures ReplaceAll(pat + y, pat, rep) == rep + ReplaceAll(y, pat, rep)
  {
    assert (pat + y)[..|pat|] == pat && (pat + y)[|pat|..] == y;
  }

  /** A character at which no match starts is copied. */
  lemma ReplaceAllStep(c: char, y: string, pat: string, rep: string)
    requires |pat| > 0 && !MatchAt([c] + y, pat, 0)
    ensures ReplaceAll([c] + y, pat, rep) == [c] + ReplaceAll(y, pat, rep)
  {
    assert ([c] + y)[1..] == y;
  }

  // ---------------------------------------------------------------------
  // split(sep) and join(sep)

  /** `parts.join(sep)`. */
  function Join(parts: seq<string>, sep: string): (r: string)
    ensures parts == [] ==> r == []
    ensures |parts| == 1 ==> r == parts[0]
  {
    if |parts| == 0 then []
    else if |parts| == 1 then parts[0]
    else parts[0] + sep + Join(parts[1..], sep)
  }

  /** `s.split(sep)` for a literal, non-empty separator: the pieces between
      the left-to-right, non-overlapping occurrences of `sep`, which joined
      by `sep` give back `s`. */
  function Split(s: string, sep: string): (r: seq<string>)
    requires |sep| > 0
    ensures |r| >= 1
    ensures Join(r, sep) == s
    decreases |s|
  {
    if |s| < |sep| then
      [s]
    else if s[..|sep|] == sep then
      var rest := Split(s[|sep|..], sep);
      assert s == sep + s[|sep|..];
      [[]] + rest
    else
      var rest := Split(s[1..], sep);
      JoinCons(s[0], rest, sep);
      assert s == [s[0]] + s[1..];
      [[s[0]] + rest[0]] + rest[1..]
  }

  /** No piece of a split holds the separator. */
  lemma {:induction false} SplitPieces(s: string, sep: string)
    requires |sep| > 0
    ensures forall k :: 0 <= k < |Split(s, sep)| ==> !Occurs(Split(s, sep)[k], sep)
    decreases |s|
  {
    var r := Split(s, sep);
    if |s| < |sep| {
      NoRoom(s, sep);
    } else if s[..|sep|] == sep {
      SplitPieces(s[|sep|..], sep);
      NoRoom([], sep);
      assert r[1..] == Split(s[|sep|..], sep);
      forall k | 0 <= k < |r| ensures !Occurs(r[k], sep) {
        if k > 0 {
          assert r[k] == Split(s[|sep|..], sep)[k - 1];
        }
      }
    } else {
      var rest := Split(s[1..], sep);
      SplitPieces(s[1..], sep);
      JoinStartsWith(rest, sep);
      assert s[1..1 + |rest[0]|] == s[1..][..|rest[0]|];
      FrontNoMatch(s, sep, rest[0]);
      forall k | 0 <= k < |r| ensures !Occurs(r[k], sep) {
        if k > 0 {
          assert r[k] == rest[k];
        }
      }
    }
  }

  /** A prefix of `s` at whose start `sep` does not occur, made of one
      character and a separator-free rest, is separator-free. */
  lemma FrontNoMatch(s: string, sep: string, tail: string)
    requires |sep| > 0 && |s| >= |sep| && s[..|sep|] != sep
    requires 1 + |tail| <= |s| && s[1..1 + |tail|] == tail && !Occurs(tail, sep)
    ensures !Occurs([s[0]] + tail, sep)
  {
    var head := [s[0]] + tail;
    assert head == s[..|head|];
    forall i | 0 <= i <= |head| && MatchAt(head, sep, i) ensures false {
      if i > 0 {
        assert head[i..i + |sep|] == tail[i - 1..i - 1 + |sep|];
        assert MatchAt(tail, sep, i - 1);
      }
    }
  }

  lemma JoinCons(c: char, parts: seq<string>, sep: string)
    requires |parts| >= 1
    ensures Join([[c] + parts[0]] + parts[1..], sep) == [c] + Join(parts, sep)
  {
    var ps := [[c] + parts[0]] + parts[1..];
    assert ps[1..] == parts[1..];
  }

  lemma NoRoom(s: string, pat: string)
    requires |s| < |pat|
    ensures !Occurs(s, pat)
  {
  }

  /** A joined sequence starts with its first part. */
  lemma JoinStartsWith(parts: seq<string>, sep: string)
    requires |parts| >= 1
    ensures |parts[0]| <= |Join(parts, sep)| && Join(parts, sep)[..|parts[0]|] == parts[0]
  {
  }

  /** No occurrence of `sep` starts inside `p`, even one that would run on
      into a separator placed right after it. */
  predicate Separable(p: string, sep: string) {
    forall i :: 0 <= i < |p| ==> !MatchAt(p + sep, sep, i)
  }

  /** A one-character separator occurs exactly where its character does. */
  lemma OccursChar(s: string, c: char)
    ensures Occurs(s, [c]) <==> c in s
    ensures c !in s ==> Separable(s, [c])
  {
    if c in s {
      var i :| 0 <= i < |s| && s[i] == c;
      assert s[i..i + 1] == [c];
      assert MatchAt(s, [c], i);
    }
    if Occurs(s, [c]) {
      var i :| 0 <= i <= |s| && MatchAt(s, [c], i);
      assert s[i] == s[i..i + 1][0];
    }
    if c !in s {
      forall i | 0 <= i < |s| ensures !MatchAt(s + [c], [c], i) {
        assert (s + [c])[i..i + 1][0] == s[i];
      }
    }
  }

  /** A string without the separator is its own single piece. */
  lemma {:induction false} SplitNone(s: string, sep: string)
    requires |sep| > 0 && !Occurs(s, sep)
    ensures Split(s, sep) == [s]
    decreases |s|
  {
    if |s| >= |sep| {
      assert !MatchAt(s, sep, 0);
      assert !Occurs(s[1..], sep) by {
        forall i | 0 <= i <= |s[1..]| && MatchAt(s[1..], sep, i) ensures false {
          assert s[1..][i..i + |sep|] == s[i + 1..i + 1 + |sep|];
          assert MatchAt(s, sep, i + 1);
        }
      }
      SplitNone(s[1..], sep);
      assert [s[0]] + s[1..] == s;
    }
  }

  /** The first piece of `p + sep + rest` is `p` when no occurrence of `sep`
      starts inside `p`. */
  lemma {:induction false} SplitFront(p: string, sep: string, rest: string)
    requires |sep| > 0 && Separable(p, sep)
    ensures Split(p + sep + rest, sep) == [p] + Split(rest, sep)
    decreases |p|
  {
    var s := p + sep + rest;
    if p == [] {
      assert s == sep + rest;
      SplitAtSep(s, sep);
      assert s[|sep|..] == rest;
    } else {
      var q := p[1..];
      SeparableTail(p, sep);
      SplitFront(q, sep, rest);
      assert s[1..] == q + sep + rest;
      assert s[..|sep|] != sep by {
        assert !MatchAt(p + sep, sep, 0);
        assert s[..|sep|] == (p + sep)[..|sep|];
      }
      SplitStep(s, sep);
      assert [s[0]] + q == p;
    }
  }

  /** One step of `Split` where the separator starts the string. */
  lemma SplitAtSep(s: string, sep: string)
    requires |sep| > 0 && |s| >= |sep| && s[..|sep|] == sep
    ensures Split(s, sep) == [[]] + Split(s[|sep|..], sep)
  {
  }

  /** One step of `Split` where the separator does not start the string. */
  lemma SplitStep(s: string, sep: string)
    requires |sep| > 0 && |s| >= |sep| && s[..|sep|] != sep
    ensures Split(s, sep) == [[s[0]] + Split(s[1..], sep)[0]] + Split(s[1..], sep)[1..]
  {
  }

  /** Dropping the first character keeps a string separable. */
  lemma SeparableTail(p: string, sep: string)
    requires |p| > 0 && Separable(p, sep)
    ensures Separable(p[1..], sep)
  {
    var q := p[1..];
    forall i | 0 <= i < |q| ensures !MatchAt(q + sep, sep, i) {
      assert !MatchAt(p + sep, sep, i + 1);
      assert (q + sep)[i..i + |sep|] == (p + sep)[i + 1..i + 1 + |sep|];
    }
  }

  /** Splitting undoes joining when no occurrence of the separator starts
      inside a part. */
  lemma {:induction false} SplitJoin(parts: seq<string>, sep: string)
    requires |sep| > 0 && |parts| >= 1
    requires forall k :: 0 <= k < |parts| ==> Separable(parts[k], sep)
    ensures Split(Join(parts, sep), sep) == parts
    decreases |parts|
  {
    if |parts| == 1 {
      SeparableAbsent(parts[0], sep);
      SplitNone(parts[0], sep);
    } else {
      SplitJoin(parts[1..], sep);
      SplitFront(parts[0], sep, Join(parts[1..], sep));
      assert parts == [parts[0]] + parts[1..];
    }
  }

  lemma SeparableAbsent(p: string, sep: string)
    requires |sep| > 0 && Separable(p, sep)
    ensures !Occurs(p, sep)
  {
    forall i | 0 <= i <= |p| && MatchAt(p, sep, i) ensures false {
      assert (p + sep)[i..i + |sep|] == p[i..i + |sep|];
      assert MatchAt(p + sep, sep, i);
    }
  }

  // ---------------------------------------------------------------------
  // toLowerCase()

  /** Lower-casing of a code point, for the ASCII and Latin-1 letters
      (`toLowerCase` on the rest of Unicode is not modelled). */
  function LowerChar(c: char): (r: char)
    ensures 'A' <= c <= 'Z' ==> r as int == c as int + 32
    ensures !('A' <= c <= 'Z') && !(0xC0 <= c as int <= 0xDE && c as int != 0xD7) ==> r == c
  {
    var n := c as int;
    if 'A' <= c <= 'Z' || (0xC0 <= n <= 0xDE && n != 0xD7) then (n + 32) as char else c
  }

  /** `String.prototype.toLowerCase` restricted to `LowerChar`. */
  function Lower(s: string): (r: string)
    ensures |r| == |s|
    ensures forall k :: 0 <= k < |s| ==> r[k] == LowerChar(s[k])
  {
    seq(|s|, k requires 0 <= k < |s| => LowerChar(s[k]))
  }

  /** `toLowerCase` keeps every character inside or outside the Basic
      Multilingual Plane where it was, so the UTF-16 length is unchanged. */
  lemma LowerLength(s: string)
    ensures Length(Lower(s)) == Length(s)
  {
    Utf16Lengths(s, Lower(s));
  }

  lemma {:induction false} Utf16Lengths(s: string, t: string)
    requires |s| == |t| && forall k :: 0 <= k < |s| ==> (s[k] as int < 0x10000 <==> t[k] as int < 0x10000)
    ensures Length(s) == Length(t)
  {
    if s != [] {
      Utf16Lengths(s[1..], t[1..]);
    }
  }

  // ---------------------------------------------------------------------
  // A JavaScript string as its UTF-16 code units

  /** The UTF-16 code units of one character: itself inside the Basic
      Multilingual Plane, otherwise a high and a low surrogate. */
  function CodeUnits(c: char): (r: seq<int>)
    ensures |r| == if c as int < 0x10000 then 1 else 2
    ensures forall k :: 0 <= k < |r| ==> 0 <= r[k] < 0x10000
    ensures (0xD800 <= r[0] <= 0xDBFF) <==> |r| == 2
  {
    var n := c as int;
    if n < 0x10000 then [n]
    else [0xD800 + (n - 0x10000) / 0x400, 0xDC00 + (n - 0x10000) % 0x400]
  }

  /** The string as JavaScript stores it: what `length` counts and `charAt`
      indexes. */
  function Utf16(s: string): (r: seq<int>)
    ensures |r| >= |s|
  {
    if s == [] then [] else CodeUnits(s[0]) + Utf16(s[1..])
  }

  /** `s.length`. */
  function Length(s: string): nat {
    |Utf16(s)|
  }

  /** Two characters with the same code units are the same character. */
  lemma CodeUnitsInjective(c: char, d: char)
    requires CodeUnits(c) == CodeUnits(d)
    ensures c == d
  {
    var m, n := c as int, d as int;
    if m >= 0x10000 {
      assert (m - 0x10000) / 0x400 == (n - 0x10000) / 0x400;
      assert (m - 0x10000) % 0x400 == (n - 0x10000) % 0x400;
    }
  }

  /** Encoding is injective: the code units give back the string. */
  lemma {:induction false} Utf16Injective(s: string, t: string)
    requires Utf16(s) == Utf16(t)
    ensures s == t
  {
    if s != [] && t != [] {
      var u, v := CodeUnits(s[0]), CodeUnits(t[0]);
      assert Utf16(s)[0] == u[0] && Utf16(t)[0] == v[0];
      assert |u| == |v|;
      assert u == Utf16(s)[..|u|] && v == Utf16(t)[..|v|];
      CodeUnitsInjective(s[0], t[0]);
      assert Utf16(s[1..]) == Utf16(s)[|u|..] == Utf16(t)[|v|..] == Utf16(t[1..]);
      Utf16Injective(s[1..], t[1..]);
      assert s == [s[0]] + s[1..] && t == [t[0]] + t[1..];
    }
  }
}
