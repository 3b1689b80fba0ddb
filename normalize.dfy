/** `normalizeText`: the fixed chain of rewrites applied to a keyword before
    it is compared. */
module Normalize {
  import opened Text

  /** `normalizeText(text)`, its rewrites in the order it applies them:
      collapse white space and trim; remove every `d'un`, then every `d'une`;
      replace every ` à `, then every ` a `, by one space; collapse and trim
      again. */
  function NormalizeText(text: string): (r: string)
    ensures |r| <= |text|
  {
    var t1 := Squish(text);
    var t2 := ReplaceAll(ReplaceAll(t1, "d'un", ""), "d'une", "");
    var t3 := ReplaceAll(ReplaceAll(t2, " à ", " "), " a ", " ");
    Squish(t3)
  }

  /** The result has no white space at its ends, no two white-space
      characters in a row, and no white space other than the plain space. */
  lemma NormalizeClean(text: string)
    ensures Clean(NormalizeText(text))
  {
    var t2 := ReplaceAll(ReplaceAll(Squish(text), "d'un", ""), "d'une", "");
    SquishClean(ReplaceAll(ReplaceAll(t2, " à ", " "), " a ", " "));
  }

  // ---------------------------------------------------------------------
  // What the chain does to a keyword made of plain words around one of the
  // rewritten forms.

  /** Every `a` in `x` touches, on a side where `x` goes on, a character
      other than the plain space: `x` holds no `a` standing alone as a word. */
  predicate NoLoneA(x: string) {
    forall k {:trigger x[k]} :: 0 <= k < |x| && x[k] == 'a' ==>
      (0 < k && x[k - 1] != ' ') || (k + 1 < |x| && x[k + 1] != ' ')
  }

  /** Text that none of the rewrites touches: non-empty, clean, with no
      apostrophe, no `à` and no lone `a`. */
  ghost predicate Plain(x: string) {
    x != [] && Clean(x) && '\'' !in x && 'à' !in x && NoLoneA(x)
  }

  /** `d'un` between two plain parts disappears with one of its spaces. */
  lemma DropsContraction(x: string, y: string)
    requires Plain(x) && Plain(y)
    ensures NormalizeText(x + " d'un " + y) == x + " " + y
  {
    Unchanged(x, "d'un", y);
    RemoveFirst(x, "", y);
    ContractionShapes(x, y);
    MissingInMiddle(x, "  ", y);
    ClosesGap(x, y);
  }

  /** `d'une` between two plain parts leaves an `e` behind: `d'un` is removed
      first, so the later `d'une` rewrite no longer finds it. */
  lemma LeavesE(x: string, y: string)
    requires Plain(x) && Plain(y)
    ensures NormalizeText(x + " d'une " + y) == x + " e " + y
  {
    Unchanged(x, "d'une", y);
    RemoveFirst(x, "e", y);
    LongContractionShapes(x, y);
    MissingInMiddle(x, " e ", y);
    KeepsE(x, y);
  }

  /** A lone `a` between two plain parts is replaced by one space. */
  lemma DropsLoneA(x: string, y: string)
    requires Plain(x) && Plain(y)
    ensures NormalizeText(x + " a " + y) == x + " " + y
  {
    var s := x + " a " + y;
    var t := x + " " + y;
    Unchanged(x, "a", y);
    assert x + " " + "a" + " " + y == s by {
      GlueShape(x, "a", y);
    }
    ReplaceAllMissing(s, "d'un", "", 1);
    ReplaceAllMissing(s, "d'une", "", 1);
    ReplaceAllMissing(s, " à ", " ", 1);
    ReplaceLoneA(x, y);
    CleanGlue(x, y);
    SquishFixed(t);
  }

  /** `d'une` and, further on, a lone `a` between plain parts: the `a` goes
      with one of its spaces, the `e` of `d'une` stays. */
  lemma LeavesEDropsLoneA(x: string, y: string, z: string)
    requires Plain(x) && Plain(y) && Plain(z)
    ensures NormalizeText(x + " d'une " + y + " a " + z) == x + " e " + y + " " + z
  {
    var m := x + " e " + y;
    RemovesOnlyDun(x, y, z);
    DropsLoneAAfter(x, y, z);
    KeepsEAndGlue(x, y, z);
    Chain(x + " d'une " + y + " a " + z, m + " a " + z, m + " " + z);
  }

  /** `NormalizeText` as its two halves, each given by its result. */
  lemma Chain(s: string, t: string, r: string)
    requires ReplaceAll(ReplaceAll(Squish(s), "d'un", ""), "d'une", "") == t
    requires ReplaceAll(ReplaceAll(t, " à ", " "), " a ", " ") == r
    requires Squish(r) == r
    ensures NormalizeText(s) == r
  {
  }

  /** The first `Squish` and the two contraction rewrites on
      `x d'une y a z`: only the `d'un` goes. */
  lemma RemovesOnlyDun(x: string, y: string, z: string)
    requires Plain(x) && Plain(y) && Plain(z)
    ensures ReplaceAll(ReplaceAll(Squish(x + " d'une " + y + " a " + z), "d'un", ""), "d'une", "")
         == (x + " e " + y) + " a " + z
  {
    var u := y + " a " + z;
    var s := x + " d'une " + y + " a " + z;
    CleanAroundA(y, z);
    Unchanged(x, "d'une", u);
    LongContractionShapes(x, u);
    assert s == x + " d'une " + u;
    RemoveFirst(x, "e", u);
    ShapeEA(x, y, z);
    ReplaceAllMissing((x + " e " + y) + " a " + z, "d'une", "", 1);
  }

  lemma CleanAroundA(y: string, z: string)
    requires y != [] && z != [] && Clean(y) && Clean(z)
    ensures Clean(y + " a " + z)
  {
    CleanGlue(y, "a");
    CleanGlue(y + " " + "a", z);
    GlueShape(y, "a", z);
  }

  /** The final `Squish` keeps `x e y z` as it is. */
  lemma KeepsEAndGlue(x: string, y: string, z: string)
    requires Plain(x) && Plain(y) && Plain(z)
    ensures Squish((x + " e " + y) + " " + z) == (x + " e " + y) + " " + z
  {
    CleanGlue(y, z);
    KeepsE(x, y + " " + z);
    assert (x + " e " + y) + " " + z == x + " e " + (y + " " + z);
  }

  /** The two space rewrites on `x e y a z`: only the lone `a` goes. */
  lemma DropsLoneAAfter(x: string, y: string, z: string)
    requires Plain(x) && Plain(y) && Plain(z)
    ensures ReplaceAll(ReplaceAll((x + " e " + y) + " a " + z, " à ", " "), " a ", " ")
         == (x + " e " + y) + " " + z
  {
    var m := x + " e " + y;
    ReplaceAllMissing(m + " a " + z, " à ", " ", 1);
    NoLoneAGlue(x, " e ", y);
    ReplaceLoneA(m, z);
  }

  lemma ShapeEA(x: string, y: string, z: string)
    ensures x + " " + "e" + " " + (y + " a " + z) == (x + " e " + y) + " a " + z
  {
  }

  /** Gluing two parts around a middle without `a` leaves no `a` alone. */
  lemma NoLoneAGlue(x: string, m: string, y: string)
    requires NoLoneA(x) && NoLoneA(y) && 'a' !in m
    ensures NoLoneA(x + m + y)
  {
    var s := x + m + y;
    forall k | 0 <= k < |s| && s[k] == 'a'
      ensures (0 < k && s[k - 1] != ' ') || (k + 1 < |s| && s[k + 1] != ' ')
    {
      OutsideMiddle(x, m, y, k);
      if k < |x| {
        assert x[k] == s[k];
        LoneAt(x, k);
        if 0 < k { assert x[k - 1] == s[k - 1]; }
        if k + 1 < |x| { assert x[k + 1] == s[k + 1]; }
      } else {
        var q := k - |x| - |m|;
        assert y[q] == s[k];
        LoneAt(y, q);
        if 0 < q { assert y[q - 1] == s[k - 1]; }
        if q + 1 < |y| { assert y[q + 1] == s[k + 1]; }
      }
    }
  }

  /** An `a` of `x m y` lies outside a middle `m` without `a`. */
  lemma OutsideMiddle(x: string, m: string, y: string, k: nat)
    requires 'a' !in m && k < |x + m + y| && (x + m + y)[k] == 'a'
    ensures k < |x| || |x| + |m| <= k
  {
  }

  lemma ContractionShapes(x: string, y: string)
    ensures x + " " + "d'un" + " " + y == x + " d'un " + y
    ensures x + " d'un" + "" + " " + y == x + " d'un " + y
    ensures x + " " + "" + " " + y == x + "  " + y
  {
    GlueShape(x, "d'un", y);
    GlueShape(x, "", y);
    assert x + " d'un" + "" == x + " d'un";
  }

  lemma LongContractionShapes(x: string, y: string)
    ensures x + " " + "d'une" + " " + y == x + " d'une " + y
    ensures x + " d'un" + "e" + " " + y == x + " d'une " + y
    ensures x + " " + "e" + " " + y == x + " e " + y
  {
    GlueShape(x, "d'une", y);
    GlueShape(x, "e", y);
    assert x + " d'un" + "e" == x + " d'une";
  }

  /** A word between two spaces, written with the spaces apart or together. */
  lemma GlueShape(x: string, w: string, y: string)
    ensures x + " " + w + " " + y == x + (" " + w + " ") + y
  {
  }

  /** The first `Squish` leaves a clean keyword as it is. */
  lemma Unchanged(x: string, w: string, y: string)
    requires x != [] && y != [] && w != [] && Clean(x) && Clean(y) && Clean(w)
    ensures Squish(x + " " + w + " " + y) == x + " " + w + " " + y
  {
    CleanGlue(x, w);
    CleanGlue(x + " " + w, y);
    SquishFixed(x + " " + w + " " + y);
  }

  /** The `d'un` rewrite on `x d'un<e> y`: no match starts in `x` or at the
      space after it, because every match has its apostrophe one place after
      its start; the one match is removed; nothing after it matches. */
  lemma RemoveFirst(x: string, e: string, y: string)
    requires '\'' !in x && '\'' !in e && '\'' !in y
    ensures ReplaceAll(x + " d'un" + e + " " + y, "d'un", "") == x + " " + e + " " + y
  {
    var rest := e + " " + y;
    NoMatchBefore(x, rest);
    ReplaceAllPrefix(x + " ", "d'un" + rest, "d'un", "");
    ReplaceAllHit(rest, "d'un", "");
    ReplaceAllMissing(rest, "d'un", "", 1);
    AroundContraction(x, e, y);
  }

  lemma AroundContraction(x: string, e: string, y: string)
    ensures (x + " ") + ("d'un" + (e + " " + y)) == x + " d'un" + e + " " + y
    ensures (x + " ") + ("" + (e + " " + y)) == x + " " + e + " " + y
  {
  }

  lemma NoMatchBefore(x: string, rest: string)
    requires '\'' !in x
    ensures forall i :: 0 <= i < |x + " "| ==> !MatchAt((x + " ") + ("d'un" + rest), "d'un", i)
  {
    var s := (x + " ") + ("d'un" + rest);
    forall i | 0 <= i < |x| + 1 ensures !MatchAt(s, "d'un", i) {
      if MatchAt(s, "d'un", i) {
        assert s[i + 1] == s[i..i + 4][1] == '\'';
        ApostropheAt(x, rest, i);
      }
    }
  }

  lemma ApostropheAt(x: string, rest: string, i: nat)
    requires '\'' !in x && i < |x| + 1
    ensures ((x + " ") + ("d'un" + rest))[i + 1] != '\''
  {
    var s := (x + " ") + ("d'un" + rest);
    if i + 1 < |x| {
      assert s[i + 1] == x[i + 1];
    } else if i + 1 == |x| {
      assert s[i + 1] == ' ';
    } else {
      assert s[i + 1] == 'd';
    }
  }

  /** After the `d'un` rewrite nothing else in `x m y` is rewritten. */
  lemma MissingInMiddle(x: string, m: string, y: string)
    requires Plain(x) && Plain(y) && '\'' !in m && 'à' !in m && 'a' !in m
    ensures ReplaceAll(x + m + y, "d'une", "") == x + m + y
    ensures ReplaceAll(x + m + y, " à ", " ") == x + m + y
    ensures ReplaceAll(x + m + y, " a ", " ") == x + m + y
  {
    var t := x + m + y;
    ReplaceAllMissing(t, "d'une", "", 1);
    ReplaceAllMissing(t, " à ", " ", 1);
    LoneAFree(x, m, y);
    ReplaceAllAbsent(t, " a ", " ");
  }

  /** ` a ` needs an `a` between two plain spaces, which plain parts around a
      middle without `a` do not offer. */
  lemma LoneAFree(x: string, m: string, y: string)
    requires NoLoneA(x) && NoLoneA(y) && 'a' !in m
    ensures !Occurs(x + m + y, " a ")
  {
    var t := x + m + y;
    forall i | 0 <= i <= |t| && MatchAt(t, " a ", i) ensures false {
      assert t[i..i + 3] == " a ";
      assert t[i..i + 3][0] == t[i] && t[i..i + 3][1] == t[i + 1] && t[i..i + 3][2] == t[i + 2];
      NoLoneAAt(x, m, y, i);
    }
  }

  lemma NoLoneAAt(x: string, m: string, y: string, i: nat)
    requires NoLoneA(x) && NoLoneA(y) && 'a' !in m
    requires i + 3 <= |x + m + y|
    ensures var t := x + m + y; t[i] == ' ' && t[i + 1] == 'a' ==> t[i + 2] != ' '
  {
    var t := x + m + y;
    var p := i + 1;
    if t[i] == ' ' && t[p] == 'a' {
      if p < |x| {
        assert x[p] == t[p] && x[p - 1] == t[i];
        LoneAt(x, p);
        if p + 1 < |x| {
          assert x[p + 1] == t[p + 1];
        }
      } else if p >= |x| + |m| {
        var q := p - |x| - |m|;
        assert y[q] == t[p] && y[q + 1] == t[i + 2];
        LoneAt(y, q);
        if q > 0 {
          assert y[q - 1] == t[i];
        }
      }
    }
  }

  lemma LoneAt(x: string, k: nat)
    requires NoLoneA(x) && k < |x| && x[k] == 'a'
    ensures (0 < k && x[k - 1] != ' ') || (k + 1 < |x| && x[k + 1] != ' ')
  {
  }

  /** The ` a ` rewrite on `x a y`: no match starts inside `x`, the one match
      becomes a space, and `y` holds none. */
  lemma ReplaceLoneA(x: string, y: string)
    requires NoLoneA(x) && NoLoneA(y)
    ensures ReplaceAll(x + " a " + y, " a ", " ") == x + " " + y
  {
    var s := x + " a " + y;
    forall i | 0 <= i < |x| ensures !MatchAt(s, " a ", i) {
      if MatchAt(s, " a ", i) {
        assert s[i..i + 3] == " a ";
        assert s[i..i + 3][0] == s[i] && s[i..i + 3][1] == s[i + 1] && s[i..i + 3][2] == s[i + 2];
        LoneAInside(x, y, i);
      }
    }
    assert s == x + (" a " + y);
    ReplaceAllPrefix(x, " a " + y, " a ", " ");
    ReplaceAllHit(y, " a ", " ");
    LoneAFree([], [], y);
    assert [] + [] + y == y;
    ReplaceAllAbsent(y, " a ", " ");
  }

  lemma LoneAInside(x: string, y: string, i: nat)
    requires NoLoneA(x) && i < |x|
    ensures var s := x + " a " + y; s[i] == ' ' && s[i + 1] == 'a' ==> s[i + 2] != ' '
  {
    var s := x + " a " + y;
    var k := i + 1;
    if k < |x| && s[i] == ' ' && s[k] == 'a' {
      assert x[k] == s[k] && x[k - 1] == s[i];
      LoneAt(x, k);
      if k + 1 < |x| {
        assert x[k + 1] == s[k + 1];
      }
    }
  }

  /** The final `Squish` closes the gap that a removed word leaves. */
  lemma ClosesGap(x: string, y: string)
    requires x != [] && y != [] && Clean(x) && Clean(y)
    ensures Squish(x + "  " + y) == x + " " + y
  {
    CollapsesGap(x, y);
    CleanGlue(x, y);
    TrimNoEdge(x + " " + y);
  }

  lemma CollapsesGap(x: string, y: string)
    requires x != [] && y != [] && Clean(x) && Clean(y)
    ensures CollapseSpaces(x + "  " + y) == x + " " + y
  {
    var g := "  ";
    CollapseAppend(x, g + y);
    CollapseFixed(x);
    CollapseRun(g, y);
    CollapseFixed(y);
    Assoc(x, g, y);
    Assoc(x, " ", y);
  }

  /** The final `Squish` keeps a clean keyword with an `e` in the middle. */
  lemma KeepsE(x: string, y: string)
    requires x != [] && y != [] && Clean(x) && Clean(y)
    ensures Squish(x + " e " + y) == x + " e " + y
  {
    CleanGlue("e", y);
    CleanGlue(x, "e" + " " + y);
    assert x + " e " + y == x + " " + ("e" + " " + y);
    SquishFixed(x + " e " + y);
  }
}

module NormalizeExamples {
  import opened Text
  import opened Normalize

  /** "tarif d'un coiffeur bayonne" becomes "tarif coiffeur bayonne". */
  lemma ExampleContraction()
    ensures NormalizeText("tarif" + " d'un " + "coiffeur bayonne") == "tarif" + " " + "coiffeur bayonne"
  {
    PlainTarif();
    PlainCoiffeurBayonne();
    DropsContraction("tarif", "coiffeur bayonne");
  }

  /** "tarif d'une coiffeur bayonne" becomes "tarif e coiffeur bayonne": the
      `d'un` inside `d'une` goes first and leaves its `e`. */
  lemma ExampleLongContraction()
    ensures NormalizeText("tarif" + " d'une " + "coiffeur bayonne") == "tarif" + " e " + "coiffeur bayonne"
  {
    PlainTarif();
    PlainCoiffeurBayonne();
    LeavesE("tarif", "coiffeur bayonne");
  }

  /** The `d'une` rewrite is not always idle: removing `d'un` from
      "d'd'unune" joins the pieces around it into a new `d'une`. */
  lemma ExampleSecondRemoval()
    ensures NormalizeText("d'" + "d'un" + "une") == ""
  {
    var s := "d'" + "d'un" + "une";
    NoSpaceClean(s);
    SquishFixed(s);
    FirstRemovalJoins();
    ReplaceAllHit("", "d'une", "");
    assert "d'une" + "" == "d'une";
  }

  /** "tarif d'une coiffeur a bayonne" becomes "tarif e coiffeur bayonne",
      not "tarif coiffeur bayonne": the lone `a` goes, the `e` of `d'une`
      stays. */
  lemma ExampleContractionAndLoneA()
    ensures NormalizeText("tarif" + " d'une " + "coiffeur" + " a " + "bayonne")
         == "tarif" + " e " + "coiffeur" + " " + "bayonne"
  {
    PlainTarif();
    PlainCoiffeur();
    NoSpaceClean("bayonne");
    NoLoneABayonne();
    LeavesEDropsLoneA("tarif", "coiffeur", "bayonne");
  }

  lemma PlainCoiffeur()
    ensures Plain("coiffeur")
  {
    NoSpaceClean("coiffeur");
  }

  lemma NoLoneABayonne()
    ensures NoLoneA("bayonne")
  {
    var s := "bayonne";
    forall k | 0 <= k < |s| && s[k] == 'a' ensures 0 < k && s[k - 1] != ' ' {
      assert k == 1;
    }
  }

  lemma FirstRemovalJoins()
    ensures ReplaceAll("d'" + "d'un" + "une", "d'un", "") == "d'une"
  {
    var s := "d'" + ("d'un" + "une");
    assert !MatchAt(s, "d'un", 0) by {
      assert s[0..4][1] == '\'' != s[0..4][2];
    }
    assert !MatchAt(s, "d'un", 1) by {
      assert s[1..5][0] == '\'';
    }
    ReplaceAllPrefix("d'", "d'un" + "une", "d'un", "");
    ReplaceAllHit("une", "d'un", "");
    assert "d'" + "d'un" + "une" == s;
    assert "d'" + ("" + "une") == "d'une";
  }

  /** A string without white space is clean. */
  lemma NoSpaceClean(s: string)
    requires forall k :: 0 <= k < |s| ==> !IsSpace(s[k])
    ensures Clean(s)
  {
  }

  lemma PlainTarif()
    ensures Plain("tarif")
  {
  }

  lemma PlainCoiffeurBayonne()
    ensures Plain("coiffeur bayonne")
  {
    CleanCoiffeurBayonne();
    NoLoneAB();
  }

  lemma CleanCoiffeurBayonne()
    ensures Clean("coiffeur bayonne")
  {
    NoSpaceClean("coiffeur");
    NoSpaceClean("bayonne");
    CleanGlue("coiffeur", "bayonne");
    assert "coiffeur" + " " + "bayonne" == "coiffeur bayonne";
  }

  lemma NoLoneAB()
    ensures NoLoneA("coiffeur bayonne")
  {
    var s := "coiffeur bayonne";
    forall k | 0 <= k < |s| && s[k] == 'a' ensures 0 < k && s[k - 1] != ' ' {
      assert k == 10;
    }
  }
}
