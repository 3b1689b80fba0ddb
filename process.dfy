/** `processKeywords`: the groups written out as one line each, members
    separated by a double tab and each member as `keyword<TAB>value`, with the
    statistics shown under the result; and `exportToCsv`, which reads that
    text back into comma-separated rows. */
module Process {
  import opened Wrappers
  import opened Seqs
  import opened Text
  import opened Parse
  import opened StableSort
  import opened Grouping
  import opened GroupingFacts
  import opened GroupedFacts

  // ---------------------------------------------------------------------
  // The result text

  /** One member: `${item.keyword}\t${item.value}`. */
  function FormatEntry(e: Entry): string {
    e.keyword + "\t" + IntToString(e.value)
  }

  function FormatItems(g: seq<Entry>): (r: seq<string>)
    ensures |r| == |g| && forall k :: 0 <= k < |g| ==> r[k] == FormatEntry(g[k])
  {
    seq(|g|, k requires 0 <= k < |g| => FormatEntry(g[k]))
  }

  /** One group: its members joined by a double tab. */
  function FormatGroup(g: seq<Entry>): string {
    Join(FormatItems(g), "\t\t")
  }

  function FormatLines(gs: seq<seq<Entry>>): (r: seq<string>)
    ensures |r| == |gs| && forall q :: 0 <= q < |gs| ==> r[q] == FormatGroup(gs[q])
  {
    seq(|gs|, q requires 0 <= q < |gs| => FormatGroup(gs[q]))
  }

  /** The whole result: one line per group. */
  function FormatResult(gs: seq<seq<Entry>>): string {
    Join(FormatLines(gs), "\n")
  }

  /** A member's text holds a line break only when its keyword does: the
      printed value never does. */
  lemma FormatEntryLines(e: Entry)
    ensures '\n' in FormatEntry(e) <==> '\n' in e.keyword
  {
  }

  /** A group's line starts with its first member, the one with the largest
      value. */
  lemma FormatGroupStarts(g: seq<Entry>)
    requires g != []
    ensures |FormatEntry(g[0])| <= |FormatGroup(g)|
    ensures FormatGroup(g)[..|FormatEntry(g[0])|] == FormatEntry(g[0])
  {
    JoinStartsWith(FormatItems(g), "\t\t");
  }

  /** The result is empty without groups and otherwise starts with the line
      of the first group. */
  lemma FormatResultStarts(gs: seq<seq<Entry>>)
    ensures gs == [] ==> FormatResult(gs) == []
    ensures gs != [] ==>
      (|FormatGroup(gs[0])| <= |FormatResult(gs)| && FormatResult(gs)[..|FormatGroup(gs[0])|] == FormatGroup(gs[0]))
  {
    if gs != [] {
      JoinStartsWith(FormatLines(gs), "\n");
    }
  }

  // ---------------------------------------------------------------------
  // Statistics

  /** `groups.reduce(...)`: the members of the groups with more than one
      member. */
  function GroupedCount<T>(gs: seq<seq<T>>): (r: nat)
    ensures r == 0 || r >= 2
  {
    if gs == [] then 0
    else GroupedCount(gs[..|gs| - 1]) + (var g := gs[|gs| - 1]; if |g| > 1 then |g| else 0)
  }

  /** The number of groups with exactly one member. */
  function Singles<T>(gs: seq<seq<T>>): nat {
    if gs == [] then 0
    else Singles(gs[..|gs| - 1]) + (if |gs[|gs| - 1]| == 1 then 1 else 0)
  }

  datatype Stats = Stats(total: nat, groups: nat, grouped: nat)

  datatype Summary = Summary(result: string, stats: Stats)

  /** The entries `parseKeywords` reads from `text`. */
  function Keywords(text: string): seq<Entry> {
    FilterMap(Filter(Split(text, "\n"), NonBlank), ParseLine)
  }

  /** What a run stores: the result text and the three counters. */
  function Summarize(keywords: seq<Entry>, threshold: int): Summary {
    var groups := Grouped(keywords, threshold);
    Summary(FormatResult(groups), Stats(|keywords|, |groups|, GroupedCount(groups)))
  }

  /** `processKeywords()`: nothing happens on blank input or when no line
      parses; otherwise the keywords are grouped at `threshold` percent and
      the result and the statistics are produced. */
  method ProcessKeywords(inputText: string, threshold: int) returns (r: Option<Summary>)
    ensures r.None? <==> Trim(inputText) == [] || Keywords(inputText) == []
    ensures r.Some? ==> r.value == Summarize(Keywords(inputText), threshold)
  {
    if Trim(inputText) == [] {
      return None;
    }
    var keywords := ParseKeywords(inputText);
    if |keywords| == 0 {
      return None;
    }
    var groups := GroupKeywords(keywords, threshold);
    var resultLines := FormatLines(groups);
    var resultText := Join(resultLines, "\n");
    var groupedCount := GroupedCount(groups);
    r := Some(Summary(resultText, Stats(|keywords|, |groups|, groupedCount)));
  }

  /** Every member is either in a group of one or counted as grouped. */
  lemma {:induction false} GroupedPlusSingles<T>(gs: seq<seq<T>>)
    requires forall q :: 0 <= q < |gs| ==> gs[q] != []
    ensures GroupedCount(gs) + Singles(gs) == SumSizes(gs)
    ensures GroupedCount(gs) != 1
    ensures |gs| == SumSizes(gs) <==> GroupedCount(gs) == 0
  {
    if gs != [] {
      var init, last := gs[..|gs| - 1], gs[|gs| - 1];
      GroupedPlusSingles(init);
      SumSizesSnoc(init, last);
      assert gs == init + [last];
      SumSizesAtLeast(init);
    }
  }

  lemma {:induction false} SumSizesSnoc<T>(gs: seq<seq<T>>, g: seq<T>)
    ensures SumSizes(gs + [g]) == SumSizes(gs) + |g|
  {
    if gs != [] {
      assert (gs + [g])[1..] == gs[1..] + [g];
      SumSizesSnoc(gs[1..], g);
    }
  }

  /** The counters agree with the groups: `total` is the number of keywords,
      which the groups share out; there are never more groups than keywords;
      `grouped` is what is left after the groups of one and is never 1; and
      there are as many groups as keywords exactly when nothing was grouped. */
  lemma StatsAgree(keywords: seq<Entry>, threshold: int)
    ensures var groups := Grouped(keywords, threshold); var s := Summarize(keywords, threshold).stats;
      s.total == SumSizes(groups) && s.groups <= s.total
      && s.grouped + Singles(groups) == s.total && s.grouped != 1
      && (s.groups == s.total <==> s.grouped == 0)
  {
    var groups := Grouped(keywords, threshold);
    GroupedSizes(keywords, threshold);
    GroupedMembersSorted(keywords, threshold);
    forall q | 0 <= q < |groups| ensures groups[q] != [] {
      assert groups[q] in groups;
    }
    GroupedPlusSingles(groups);
  }

  /** A blank input yields no keyword, so the first early return only
      short-cuts the second. */
  lemma BlankHasNoKeywords(text: string)
    requires Trim(text) == []
    ensures Keywords(text) == []
  {
    var pieces := Split(text, "\n");
    TrimEmptyIff(text);
    forall j | 0 <= j < |pieces| ensures !NonBlank(pieces[j]) {
      CharsOfPiece(text, "\n", j);
      assert AllSpace(pieces[j]) by {
        forall k | 0 <= k < |pieces[j]| ensures IsSpace(pieces[j][k]) {
          assert pieces[j][k] in text;
        }
      }
      TrimEmptyIff(pieces[j]);
    }
    FilterNone(pieces, NonBlank);
  }

  lemma {:induction false} FilterNone<T>(s: seq<T>, p: T -> bool)
    requires forall k :: 0 <= k < |s| ==> !p(s[k])
    ensures Filter(s, p) == []
  {
    if s != [] {
      FilterNone(s[..|s| - 1], p);
    }
  }

  /** Every character of a piece of a split is a character of the string. */
  lemma CharsOfPiece(s: string, sep: string, j: nat)
    requires |sep| > 0 && j < |Split(s, sep)|
    ensures forall c :: c in Split(s, sep)[j] ==> c in s
  {
    JoinHolds(Split(s, sep), sep, j);
  }

  lemma {:induction false} JoinHolds(parts: seq<string>, sep: string, j: nat)
    requires j < |parts|
    ensures forall c :: c in parts[j] ==> c in Join(parts, sep)
  {
    if |parts| > 1 && j > 0 {
      JoinHolds(parts[1..], sep, j - 1);
    }
  }

  // ---------------------------------------------------------------------
  // Reading the result back

  /** A keyword as the parser produces it: trimmed, without a tab or a line
      break. */
  predicate Printable(e: Entry) {
    NoEdgeSpace(e.keyword) && '\t' !in e.keyword && '\n' !in e.keyword
  }

  /** A group as `groupKeywords` produces it from parsed keywords. */
  predicate Writable(g: seq<Entry>) {
    g != [] && forall k :: 0 <= k < |g| ==> Printable(g[k])
  }

  /** A member splits on the tab into its keyword and its value string, and
      parses back to itself. */
  lemma FormatEntryRoundTrip(e: Entry)
    requires NoEdgeSpace(e.keyword) && '\t' !in e.keyword
    ensures Split(FormatEntry(e), "\t") == [e.keyword, IntToString(e.value)]
    ensures ParseLine(FormatEntry(e)) == Some(e)
  {
    var s := IntToString(e.value);
    OccursChar(e.keyword, '\t');
    OccursChar(s, '\t');
    SplitFront(e.keyword, "\t", s);
    SplitNone(s, "\t");
    TrimNoEdge(e.keyword);
    TrimNoEdge(s);
    IntToStringRoundTrip(e.value);
  }

  /** No double tab starts inside a member, even next to the separator. */
  lemma EntrySeparable(e: Entry)
    requires '\t' !in e.keyword
    ensures Separable(FormatEntry(e), "\t\t")
  {
    var p := FormatEntry(e);
    var s := IntToString(e.value);
    var w := p + "\t\t";
    forall i | 0 <= i < |p| ensures !MatchAt(w, "\t\t", i) {
      if i < |e.keyword| {
        assert w[i] == e.keyword[i];
      } else if i == |e.keyword| {
        assert w[i + 1] == s[0];
      } else {
        assert w[i] == s[i - |e.keyword| - 1];
      }
      NoPairAt(w, i);
    }
  }

  lemma NoPairAt(w: string, i: nat)
    requires i + 1 < |w| && (w[i] != '\t' || w[i + 1] != '\t')
    ensures !MatchAt(w, "\t\t", i)
  {
    assert w[i..i + 2][0] == w[i] && w[i..i + 2][1] == w[i + 1];
  }

  /** A group splits on the double tab into its members. */
  lemma GroupRoundTrip(g: seq<Entry>)
    requires g != [] && forall k :: 0 <= k < |g| ==> '\t' !in g[k].keyword
    ensures Split(FormatGroup(g), "\t\t") == FormatItems(g)
  {
    var items := FormatItems(g);
    forall k | 0 <= k < |items| ensures Separable(items[k], "\t\t") {
      EntrySeparable(g[k]);
    }
    SplitJoin(items, "\t\t");
  }

  lemma {:induction false} JoinAvoids(parts: seq<string>, sep: string, c: char)
    requires c !in sep && forall k :: 0 <= k < |parts| ==> c !in parts[k]
    ensures c !in Join(parts, sep)
  {
    if |parts| > 1 {
      JoinAvoids(parts[1..], sep, c);
    }
  }

  lemma GroupOneLine(g: seq<Entry>)
    requires forall k :: 0 <= k < |g| ==> '\n' !in g[k].keyword
    ensures '\n' !in FormatGroup(g)
  {
    var items := FormatItems(g);
    forall k | 0 <= k < |items| ensures '\n' !in items[k] {
      assert items[k] == g[k].keyword + "\t" + IntToString(g[k].value);
    }
    JoinAvoids(items, "\t\t", '\n');
  }

  /** A non-empty group's line is not blank: its first value is printed. */
  lemma GroupNonBlank(g: seq<Entry>)
    requires g != []
    ensures NonBlank(FormatGroup(g))
  {
    var items := FormatItems(g);
    var line := FormatGroup(g);
    var s := IntToString(g[0].value);
    JoinStartsWith(items, "\t\t");
    assert line[|items[0]| - 1] == items[0][|items[0]| - 1] == s[|s| - 1];
    TrimEmptyIff(line);
  }

  /** The result text splits on line breaks into one line per group, and
      every line of it is kept by the blank-line filter. */
  lemma ResultRoundTrip(gs: seq<seq<Entry>>)
    requires gs != []
    requires forall q :: 0 <= q < |gs| ==> Writable(gs[q])
    ensures Split(FormatResult(gs), "\n") == FormatLines(gs)
    ensures Filter(FormatLines(gs), NonBlank) == FormatLines(gs)
  {
    var lines := FormatLines(gs);
    forall q | 0 <= q < |lines| ensures Separable(lines[q], "\n") && NonBlank(lines[q]) {
      GroupOneLine(gs[q]);
      OccursChar(lines[q], '\n');
      GroupNonBlank(gs[q]);
    }
    SplitJoin(lines, "\n");
    FilterAll(lines, NonBlank);
  }

  lemma {:induction false} FilterAll<T>(s: seq<T>, p: T -> bool)
    requires forall k :: 0 <= k < |s| ==> p(s[k])
    ensures Filter(s, p) == s
  {
    if s != [] {
      FilterAll(s[..|s| - 1], p);
    }
  }

  // ---------------------------------------------------------------------
  // exportToCsv()

  const CsvHeader: string :=
    "Mot-cl\U{E9} principal,Valeur principale,Mot-cl\U{E9} 2,Valeur 2,Mot-cl\U{E9} 3,Valeur 3,Mot-cl\U{E9} 4,Valeur 4\n"

  /** One item `keyword<TAB>value`: the keyword in double quotes and the
      second field, or an empty cell when there is none. */
  function ItemCells(item: string): (r: seq<string>)
    ensures |r| == 2
  {
    var parts := Split(item, "\t");
    ["\"" + parts[0] + "\"", if |parts| >= 2 then parts[1] else ""]
  }

  /** The cells of the items, two per item, in order. */
  function CellsOf(items: seq<string>): (r: seq<string>)
    ensures |r| == 2 * |items|
  {
    if items == [] then []
    else CellsOf(items[..|items| - 1]) + ItemCells(items[|items| - 1])
  }

  /** The `while (csvRow.length < 8)` padding: a row shorter than eight
      cells is filled up with empty cells, a longer one is left alone. */
  function Pad(row: seq<string>): (r: seq<string>)
    ensures |r| == if |row| >= 8 then |row| else 8
    ensures r[..|row|] == row
    ensures forall k :: |row| <= k < |r| ==> r[k] == ""
    decreases 8 - |row|
  {
    if |row| >= 8 then row
    else
      var r := Pad(row + [""]);
      assert r[..|row|] == r[..|row| + 1][..|row|];
      r
  }

  /** One line of the result as a CSV line. */
  function CsvLine(line: string): string {
    Join(Pad(CellsOf(Split(line, "\t\t"))), ",") + "\n"
  }

  function CsvBody(lines: seq<string>): string {
    if lines == [] then []
    else CsvBody(lines[..|lines| - 1]) + CsvLine(lines[|lines| - 1])
  }

  /** What `exportToCsv` writes: nothing when there is no result, otherwise
      the header and one CSV line per non-blank line of the result. */
  function CsvText(result: string): Option<string> {
    if result == [] then None
    else Some(CsvHeader + CsvBody(Filter(Split(result, "\n"), NonBlank)))
  }

  /** An item without a tab is all keyword: its value cell is empty. */
  lemma ItemCellsShape(item: string)
    ensures '\t' !in item ==> ItemCells(item) == ["\"" + item + "\"", ""]
  {
    if '\t' !in item {
      OccursChar(item, '\t');
      SplitNone(item, "\t");
    }
  }

  /** Every CSV line opens with the quote of its first keyword and ends with
      a line break. */
  lemma CsvLineShape(line: string)
    ensures var r := CsvLine(line); r != [] && r[0] == '"' && r[|r| - 1] == '\n'
  {
    var items := Split(line, "\t\t");
    var cells := CellsOf(items);
    CellsOfFirst(items);
    var row := Pad(cells);
    assert row[0] == cells[0];
    JoinStartsWith(row, ",");
    assert Join(row, ",")[0] == '"';
  }

  lemma {:induction false} CellsOfFirst(items: seq<string>)
    requires items != []
    ensures CellsOf(items)[0] == ItemCells(items[0])[0]
  {
    if |items| > 1 {
      CellsOfFirst(items[..|items| - 1]);
      assert items[..|items| - 1][0] == items[0];
    }
  }

  /** Nothing is exported for an empty result; otherwise the text starts with
      the header. */
  lemma CsvTextShape(result: string)
    ensures CsvText(result).None? <==> result == []
    ensures CsvText(result).Some? ==>
      (|CsvHeader| <= |CsvText(result).value| && CsvText(result).value[..|CsvHeader|] == CsvHeader)
  {
  }

  /** `exportToCsv()`, up to handing the text to the browser. */
  method ExportToCsv(result: string) returns (csv: Option<string>)
    ensures csv == CsvText(result)
  {
    if result == [] {
      return None;
    }
    var lines := Filter(Split(result, "\n"), NonBlank);
    var csvContent := CsvHeader;
    var i := 0;
    while i < |lines|
      invariant 0 <= i <= |lines|
      invariant csvContent == CsvHeader + CsvBody(lines[..i])
    {
      var items := Split(lines[i], "\t\t");
      var csvRow := BuildRow(items);
      var csvLine := Join(csvRow, ",") + "\n";
      CsvBodySnoc(lines, i, csvLine);
      Assoc(CsvHeader, CsvBody(lines[..i]), csvLine);
      csvContent := csvContent + csvLine;
      i := i + 1;
    }
    assert lines[..i] == lines;
    csv := Some(csvContent);
  }

  lemma CsvBodySnoc(lines: seq<string>, i: nat, csvLine: string)
    requires i < |lines| && csvLine == CsvLine(lines[i])
    ensures CsvBody(lines[..i + 1]) == CsvBody(lines[..i]) + csvLine
  {
    assert lines[..i + 1][..i] == lines[..i];
  }

  /** The cells of one CSV line: two per item, then the padding loop. */
  method BuildRow(items: seq<string>) returns (csvRow: seq<string>)
    ensures csvRow == Pad(CellsOf(items))
  {
    csvRow := [];
    var k := 0;
    while k < |items|
      invariant 0 <= k <= |items|
      invariant csvRow == CellsOf(items[..k])
    {
      assert items[..k + 1][..k] == items[..k];
      var parts := Split(items[k], "\t");
      csvRow := csvRow + ["\"" + parts[0] + "\"", if |parts| >= 2 then parts[1] else ""];
      k := k + 1;
    }
    assert items[..k] == items;
    while |csvRow| < 8
      invariant Pad(csvRow) == Pad(CellsOf(items))
      decreases 8 - |csvRow|
    {
      csvRow := csvRow + [""];
    }
  }

  /** The cells of a group as the model writes them: each keyword quoted,
      followed by its value. */
  function EntryCells(g: seq<Entry>): (r: seq<string>)
    ensures |r| == 2 * |g|
  {
    if g == [] then []
    else EntryCells(g[..|g| - 1]) + ["\"" + g[|g| - 1].keyword + "\"", IntToString(g[|g| - 1].value)]
  }

  /** The CSV lines of a result made of groups. */
  function CsvRows(gs: seq<seq<Entry>>): string {
    if gs == [] then []
    else CsvRows(gs[..|gs| - 1]) + Join(Pad(EntryCells(gs[|gs| - 1])), ",") + "\n"
  }

  lemma {:induction false} CellsOfGroup(g: seq<Entry>)
    requires forall k :: 0 <= k < |g| ==> NoEdgeSpace(g[k].keyword) && '\t' !in g[k].keyword
    ensures CellsOf(FormatItems(g)) == EntryCells(g)
  {
    if g != [] {
      var init := g[..|g| - 1];
      assert FormatItems(g)[..|g| - 1] == FormatItems(init);
      CellsOfGroup(init);
      FormatEntryRoundTrip(g[|g| - 1]);
    }
  }

  lemma {:induction false} CsvBodyOfGroups(gs: seq<seq<Entry>>)
    requires forall q :: 0 <= q < |gs| ==> Writable(gs[q])
    ensures CsvBody(FormatLines(gs)) == CsvRows(gs)
  {
    if gs != [] {
      var init, last := gs[..|gs| - 1], gs[|gs| - 1];
      assert forall q :: 0 <= q < |init| ==> init[q] == gs[q];
      CsvBodyOfGroups(init);
      CsvLineOfGroup(last);
      CsvBodyStep(gs);
    }
  }

  /** The body of a result ends with the CSV line of its last group. */
  lemma CsvBodyStep(gs: seq<seq<Entry>>)
    requires gs != []
    ensures CsvBody(FormatLines(gs)) == CsvBody(FormatLines(gs[..|gs| - 1])) + CsvLine(FormatGroup(gs[|gs| - 1]))
  {
    FormatLinesInit(gs);
  }

  lemma FormatLinesInit(gs: seq<seq<Entry>>)
    requires gs != []
    ensures FormatLines(gs)[..|gs| - 1] == FormatLines(gs[..|gs| - 1])
    ensures FormatLines(gs)[|gs| - 1] == FormatGroup(gs[|gs| - 1])
  {
  }

  lemma CsvLineOfGroup(g: seq<Entry>)
    requires Writable(g)
    ensures CsvLine(FormatGroup(g)) == Join(Pad(EntryCells(g)), ",") + "\n"
  {
    GroupRoundTrip(g);
    CellsOfGroup(g);
  }

  /** Exporting a result of `processKeywords` gives the header and one CSV
      line per group, in the order of the groups, whose cells are the
      quoted keywords and the values of its members followed by empty cells
      up to eight; a group of more than four members makes a longer line
      than the header, and nothing is cut off. */
  lemma ExportOfProcessed(text: string, threshold: int)
    requires Keywords(text) != []
    ensures var groups := Grouped(Keywords(text), threshold);
      CsvText(Summarize(Keywords(text), threshold).result) == Some(CsvHeader + CsvRows(groups))
  {
    var keywords := Keywords(text);
    var groups := Grouped(keywords, threshold);
    KeywordsPrintable(text);
    GroupsWritable(keywords, threshold);
    GroupedSizes(keywords, threshold);
    assert groups != [];
    ResultRoundTrip(groups);
    CsvBodyOfGroups(groups);
    GroupNonBlank(groups[0]);
    var lines := FormatLines(groups);
    JoinStartsWith(lines, "\n");
  }

  /** Parsed keywords can be written: trimmed, and without tabs or line
      breaks. */
  lemma KeywordsPrintable(text: string)
    ensures forall e :: e in Keywords(text) ==> Printable(e)
  {
    KeywordsTrimmed(Filter(Split(text, "\n"), NonBlank));
    KeywordsOneLine(text);
  }

  /** Grouping printable keywords makes writable groups. */
  lemma GroupsWritable(keywords: seq<Entry>, threshold: int)
    requires forall e :: e in keywords ==> Printable(e)
    ensures forall q :: 0 <= q < |Grouped(keywords, threshold)| ==> Writable(Grouped(keywords, threshold)[q])
  {
    var groups := Grouped(keywords, threshold);
    GroupedMembersSorted(keywords, threshold);
    GroupedPartition(keywords, threshold);
    forall q | 0 <= q < |groups| ensures Writable(groups[q]) {
      assert groups[q] in groups;
      forall k | 0 <= k < |groups[q]| ensures Printable(groups[q][k]) {
        FlattenHas(groups, q, k);
        assert groups[q][k] in multiset(keywords);
      }
    }
  }

  lemma {:induction false} FlattenHas<T>(gs: seq<seq<T>>, q: nat, k: nat)
    requires q < |gs| && k < |gs[q]|
    ensures gs[q][k] in Flatten(gs)
  {
    if q > 0 {
      FlattenHas(gs[1..], q - 1, k);
    }
  }
}
