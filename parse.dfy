/** `parseKeywords`: the pasted text, one `keyword<TAB>value` line per
    entry, turned into entries; and the `parseInt` it relies on. */
module Parse {
  import opened Wrappers
  import opened Seqs
  import opened Text

  /** One keyword and its search volume. */
  datatype Entry = Entry(keyword: string, value: int)

  // ---------------------------------------------------------------------
  // parseInt(s), the radix left out

  /** The digit value of `c`: 0 to 9 for the decimal digits, 10 to 15 for the
      letters `a` to `f` in either case, and 16, a digit in no radix used
      here, for every other character. */
  function DigitOf(c: char): (d: nat)
    ensures d <= 16
    ensures d < 10 <==> '0' <= c <= '9'
  {
    if '0' <= c <= '9' then c as int - '0' as int
    else if 'a' <= c <= 'f' then c as int - 'a' as int + 10
    else if 'A' <= c <= 'F' then c as int - 'A' as int + 10
    else 16
  }

  /** The length of the longest prefix of `s` made of digits in `radix`. */
  function DigitsLength(s: string, radix: nat): (n: nat)
    ensures n <= |s|
    ensures n < |s| ==> DigitOf(s[n]) >= radix
    ensures forall k :: 0 <= k < n ==> DigitOf(s[k]) < radix
  {
    if s != [] && DigitOf(s[0]) < radix then 1 + DigitsLength(s[1..], radix) else 0
  }

  /** The number that the digits `ds` write in `radix`, most significant
      first. */
  function ValueOf(ds: string, radix: nat): nat {
    if ds == [] then 0 else ValueOf(ds[..|ds| - 1], radix) * radix + DigitOf(ds[|ds| - 1])
  }

  /** `parseInt(s)` with no radix argument: white space at the front is
      skipped and a `-` or `+` sign is taken; the rest is read by
      `ParseMagnitude`. `NaN` is `None`. */
  function ParseInt(s: string): (r: Option<int>)
    ensures TrimStart(s) == [] ==> r.None?
    ensures var t := TrimStart(s);
      t != [] && t[0] != '-' && t[0] != '+' && DigitOf(t[0]) >= 10 ==> r.None?
    ensures r.Some? && r.value < 0 ==> TrimStart(s)[0] == '-'
  {
    var t := TrimStart(s);
    var negative := t != [] && t[0] == '-';
    var u := if t != [] && (t[0] == '-' || t[0] == '+') then t[1..] else t;
    var m := ParseMagnitude(u);
    if m.None? then None else Some(if negative then -(m.value as int) else m.value)
  }

  /** After the sign: a `0x` or `0X` prefix switches to radix 16; then the
      longest run of digits is read and everything after it is ignored. An
      empty run gives `NaN`. */
  function ParseMagnitude(u: string): (r: Option<nat>)
    ensures u == [] || DigitOf(u[0]) >= 10 ==> r.None?
    ensures var hex := |u| >= 2 && u[0] == '0' && (u[1] == 'x' || u[1] == 'X');
      (!hex && u != [] && DigitOf(u[0]) < 10 ==> r.Some?)
      && (hex ==> (r.Some? <==> |u| > 2 && DigitOf(u[2]) < 16))
  {
    var hex := |u| >= 2 && u[0] == '0' && (u[1] == 'x' || u[1] == 'X');
    var radix := if hex then 16 else 10;
    var w := if hex then u[2..] else u;
    var n := DigitsLength(w, radix);
    if n == 0 then None else Some(ValueOf(w[..n], radix))
  }

  // ---------------------------------------------------------------------
  // `${value}` for an integer value

  function DigitChar(d: nat): (c: char)
    requires d < 10
    ensures DigitOf(c) == d
  {
    ('0' as int + d) as char
  }

  /** The decimal digits of `n`, without leading zeros. */
  function NatToString(n: nat): (r: string)
    ensures r != []
    ensures forall k :: 0 <= k < |r| ==> DigitOf(r[k]) < 10
    ensures r[0] == '0' ==> n == 0 && |r| == 1
  {
    if n < 10 then [DigitChar(n)] else NatToString(n / 10) + [DigitChar(n % 10)]
  }

  /** The decimal form of an integer, with a `-` in front when it is
      negative. */
  function IntToString(v: int): (r: string)
    ensures r != [] && !IsSpace(r[0]) && !IsSpace(r[|r| - 1])
    ensures '\t' !in r && '\n' !in r
  {
    if v < 0 then "-" + NatToString(-v) else NatToString(v)
  }

  /** Reading back the digits of `n` gives `n`. */
  lemma {:induction false} ValueOfNatToString(n: nat)
    ensures ValueOf(NatToString(n), 10) == n
  {
    var r := NatToString(n);
    if n >= 10 {
      ValueOfNatToString(n / 10);
      assert r[..|r| - 1] == NatToString(n / 10);
    }
  }

  /** A run of digits followed by a non-digit is read to its end. */
  lemma {:induction false} DigitsLengthAppend(ds: string, rest: string, radix: nat)
    requires forall k :: 0 <= k < |ds| ==> DigitOf(ds[k]) < radix
    requires rest == [] || DigitOf(rest[0]) >= radix
    ensures DigitsLength(ds + rest, radix) == |ds|
  {
    if ds != [] {
      assert (ds + rest)[1..] == ds[1..] + rest;
      DigitsLengthAppend(ds[1..], rest, radix);
    } else {
      assert ds + rest == rest;
    }
  }

  /** `parseInt` reads back what `${v}` writes, whatever follows it, as long
      as what follows is not a digit and does not turn a lone `0` into a
      `0x` prefix. */
  lemma ParseIntToString(v: int, rest: string)
    requires rest == [] || DigitOf(rest[0]) >= 10
    requires rest != [] && v == 0 ==> rest[0] != 'x' && rest[0] != 'X'
    ensures ParseInt(IntToString(v) + rest) == Some(v)
  {
    if v < 0 {
      var m: nat := -v;
      ReadsDigits(m, rest);
      ReadsNegative(v, m, rest);
    } else {
      ReadsDigits(v, rest);
      ReadsUnsigned(v, rest);
    }
  }

  lemma ReadsNegative(v: int, m: nat, rest: string)
    requires v < 0 && m == -v && ParseMagnitude(NatToString(m) + rest) == Some(m)
    ensures ParseInt(IntToString(v) + rest) == Some(v)
  {
    var u := NatToString(m) + rest;
    var s := "-" + u;
    var ds := NatToString(m);
    NegativeText(v, m);
    Assoc("-", ds, rest);
    assert s[1..] == u;
    ReadsMinus(s, m);
  }

  lemma NegativeText(v: int, m: nat)
    requires v < 0 && m == -v
    ensures IntToString(v) == "-" + NatToString(m)
  {
  }

  /** A minus sign in front of a magnitude makes it negative. */
  lemma ReadsMinus(s: string, m: nat)
    requires s != [] && s[0] == '-' && ParseMagnitude(s[1..]) == Some(m)
    ensures ParseInt(s) == Some(-(m as int))
  {
    NoLeadingSpaces(s);
  }

  lemma ReadsUnsigned(m: nat, rest: string)
    requires ParseMagnitude(NatToString(m) + rest) == Some(m)
    ensures ParseInt(IntToString(m) + rest) == Some(m)
  {
    var ds := NatToString(m);
    assert IntToString(m) == ds;
    assert (ds + rest)[0] == ds[0];
    ReadsFromDigit(ds + rest, m);
  }

  lemma ReadsFromDigit(u: string, m: nat)
    requires u != [] && DigitOf(u[0]) < 10 && ParseMagnitude(u) == Some(m)
    ensures ParseInt(u) == Some(m)
  {
    NoLeadingSpaces(u);
  }

  lemma NoLeadingSpaces(s: string)
    requires s != [] && !IsSpace(s[0])
    ensures TrimStart(s) == s
  {
  }

  /** After the sign, the digits of `m` are read in radix 10 and give `m`. */
  lemma ReadsDigits(m: nat, rest: string)
    requires rest == [] || DigitOf(rest[0]) >= 10
    requires rest != [] && m == 0 ==> rest[0] != 'x' && rest[0] != 'X'
    ensures ParseMagnitude(NatToString(m) + rest) == Some(m)
  {
    var ds := NatToString(m);
    var u := ds + rest;
    if |u| >= 2 && u[0] == '0' {
      assert ds[0] == '0';
      assert u[1] == rest[0];
    }
    DigitsLengthAppend(ds, rest, 10);
    assert u[..|ds|] == ds;
    ValueOfNatToString(m);
  }

  lemma IntToStringRoundTrip(v: int)
    ensures ParseInt(IntToString(v)) == Some(v)
  {
    ParseIntToString(v, []);
    assert IntToString(v) + [] == IntToString(v);
  }

  // ---------------------------------------------------------------------
  // parseKeywords(text)

  /** One line: split on tabs; kept when there are at least two fields and
      `parseInt` of the trimmed second field is a number; the keyword is the
      trimmed first field, and further fields are ignored. */
  function ParseLine(line: string): (r: Option<Entry>)
    ensures r.Some? ==> NoEdgeSpace(r.value.keyword) && '\t' !in r.value.keyword
  {
    var parts := Split(line, "\t");
    if |parts| < 2 then None
    else
      match ParseInt(Trim(parts[1]))
      case None => None
      case Some(v) =>
        assert '\t' !in Trim(parts[0]) by {
          SplitPieces(line, "\t");
          OccursChar(parts[0], '\t');
          TrimSlice(parts[0]);
        }
        Some(Entry(Trim(parts[0]), v))
  }

  /** A line is blank when it trims to nothing; blank lines are dropped
      before parsing. */
  predicate NonBlank(line: string) {
    Trim(line) != []
  }

  /** `parseKeywords(text)`: the non-blank lines of `text` are parsed one by
      one, and each line that parses adds its entry at the end. */
  method ParseKeywords(text: string) returns (keywords: seq<Entry>)
    ensures keywords == FilterMap(Filter(Split(text, "\n"), NonBlank), ParseLine)
  {
    var lines := Filter(Split(text, "\n"), NonBlank);
    keywords := [];
    var i := 0;
    while i < |lines|
      invariant 0 <= i <= |lines|
      invariant keywords == FilterMap(lines[..i], ParseLine)
    {
      var line := lines[i];
      var parts := Split(line, "\t");
      FilterMapSnoc(lines, i, ParseLine);
      ParseLineFields(line, parts);
      if |parts| >= 2 {
        var keyword := Trim(parts[0]);
        var value := ParseInt(Trim(parts[1]));
        if value.Some? {
          keywords := keywords + [Entry(keyword, value.value)];
        }
      }
      i := i + 1;
    }
    assert lines[..i] == lines;
  }

  /** `ParseLine` in terms of the fields of the line. */
  lemma ParseLineFields(line: string, parts: seq<string>)
    requires parts == Split(line, "\t")
    ensures |parts| < 2 ==> ParseLine(line) == None
    ensures |parts| >= 2 ==>
      (var value := ParseInt(Trim(parts[1]));
       ParseLine(line) == if value.Some? then Some(Entry(Trim(parts[0]), value.value)) else None)
  {
  }

  /** The parser keeps exactly the lines that parse, in order: entry `k` is
      the entry of the `k`-th kept line, the kept lines keep their order, and
      a line is kept if and only if it parses. */
  lemma KeepsExactlyValidLines(lines: seq<string>)
    ensures var idx := Hits(lines, ParseLine); var r := FilterMap(lines, ParseLine);
      |r| == |idx|
      && (forall k :: 0 <= k < |idx| ==> idx[k] < |lines| && ParseLine(lines[idx[k]]) == Some(r[k]))
      && (forall k, l :: 0 <= k < l < |idx| ==> idx[k] < idx[l])
      && (forall i :: 0 <= i < |lines| ==> (ParseLine(lines[i]).Some? <==> i in idx))
  {
    FilterMapExact(lines, ParseLine);
  }

  /** Every entry's keyword is trimmed and holds no tab. */
  lemma KeywordsTrimmed(lines: seq<string>)
    ensures forall e :: e in FilterMap(lines, ParseLine) ==> NoEdgeSpace(e.keyword) && '\t' !in e.keyword
  {
    FilterMapExact(lines, ParseLine);
    var r := FilterMap(lines, ParseLine);
    forall e | e in r ensures NoEdgeSpace(e.keyword) && '\t' !in e.keyword {
      var k :| 0 <= k < |r| && r[k] == e;
      assert ParseLine(lines[Hits(lines, ParseLine)[k]]) == Some(e);
    }
  }

  /** A line without a tab has a single field and is dropped. */
  lemma NoTabDropped(line: string)
    requires '\t' !in line
    ensures ParseLine(line) == None
  {
    OccursChar(line, '\t');
    SplitNone(line, "\t");
  }

  /** A line whose trimmed second field starts with a character that is
      neither a sign nor a decimal digit is dropped. */
  lemma NotNumberDropped(keyword: string, field: string)
    requires '\t' !in keyword && '\t' !in field
    requires Trim(field) != [] && DigitOf(Trim(field)[0]) >= 10
    requires Trim(field)[0] != '-' && Trim(field)[0] != '+'
    ensures ParseLine(keyword + "\t" + field) == None
  {
    OccursChar(keyword, '\t');
    OccursChar(field, '\t');
    SplitFront(keyword, "\t", field);
    SplitNone(field, "\t");
    var t := Trim(field);
    assert LeadingSpaces(t) == 0;
  }

  /** The keyword of a line that parses is a piece of that line. */
  lemma ParseLineWithin(line: string, c: char)
    requires ParseLine(line).Some? && c !in line
    ensures c !in ParseLine(line).value.keyword
  {
    var parts := Split(line, "\t");
    JoinStartsWith(parts, "\t");
    assert parts[0] == line[..|parts[0]|];
    TrimSlice(parts[0]);
  }

  /** No keyword holds a line break: lines are split on `\n` first. */
  lemma KeywordsOneLine(text: string)
    ensures forall e :: e in FilterMap(Filter(Split(text, "\n"), NonBlank), ParseLine) ==> '\n' !in e.keyword
  {
    var pieces := Split(text, "\n");
    var lines := Filter(pieces, NonBlank);
    SplitPieces(text, "\n");
    FilterExact(pieces, NonBlank);
    FilterMapExact(lines, ParseLine);
    var r := FilterMap(lines, ParseLine);
    forall e | e in r ensures '\n' !in e.keyword {
      var k :| 0 <= k < |r| && r[k] == e;
      var i := Hits(lines, ParseLine)[k];
      var j := Kept(pieces, NonBlank)[i];
      OccursChar(pieces[j], '\n');
      ParseLineWithin(lines[i], '\n');
    }
  }
}
