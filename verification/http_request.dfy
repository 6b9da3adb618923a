/**
 This module models `parse_http_header` of src/http/http_request.rs: one raw
 header line becomes a `(name, value)` pair, or `None` when the line holds no
 separator. The line is split on the literal `": "` (a colon and exactly one
 space), the first piece is the name and the second piece is the value;
 everything after a second separator is dropped.
 */
module HttpRequest {
  import opened Wrappers
  import opened StrSplit
  import opened StrSplitIter

  /** The separator `parse_http_header` splits on. */
  const HeaderSeparator: string := ": "

  /** A header line parses to the first two pieces of its split, or to `None`
      when there is only one piece. The match on the first `parts.next()` has a
      `None` arm in the source; it is kept here although it never fires. */
  function ParseHttpHeader(s: string): (r: Option<(string, string)>)
    ensures var parts := Split(s, HeaderSeparator);
            r == if |parts| >= 2 then Some((parts[0], parts[1])) else None
  {
    var (first, parts) := Next(Start(s, HeaderSeparator));
    match first
    case None => None
    case Some(name) =>
      var (second, _) := Next(parts);
      match second
      case None => None
      case Some(value) => Some((name, value))
  }

  /** Writes a header back as `name: value`. */
  function FormatHeader(name: string, value: string): string
  {
    name + HeaderSeparator + value
  }

  /** The line begins with `name`, the separator and `value`, neither part
      holds the separator, and the value stops at the end of the line or at
      the next separator. */
  ghost predicate IsHeaderLine(line: string, name: string, value: string)
  {
    var v := |name| + |HeaderSeparator|;
    var n := v + |value|;
    && n <= |line|
    && line[..|name|] == name
    && line[|name|..v] == HeaderSeparator
    && line[v..n] == value
    && !Contains(name, HeaderSeparator)
    && !Contains(value, HeaderSeparator)
    && (n == |line| || OccursAt(line, HeaderSeparator, n))
  }

  /** The line holds the separator at exactly one position. */
  ghost predicate ExactlyOneSeparator(line: string)
  {
    exists i :: OccursAt(line, HeaderSeparator, i) && forall j :: OccursAt(line, HeaderSeparator, j) ==> j == i
  }

  /** Two occurrences of `": "` cannot start at neighbouring positions. */
  lemma SeparatorsDoNotOverlap(s: string, i: int)
    ensures OccursAt(s, HeaderSeparator, i) ==> !OccursAt(s, HeaderSeparator, i + 1)
  {
    if OccursAt(s, HeaderSeparator, i) && i + 1 + |HeaderSeparator| <= |s| {
      assert s[i + 1] == s[i..i + |HeaderSeparator|][1] == ' ';
      assert s[i + 1..i + 1 + |HeaderSeparator|][0] == s[i + 1];
    }
  }

  /** When `s[from..end]` holds no separator and a separator starts at `end`,
      or `end` is the end of the line, the first separator at or after `from`
      is the one at `end`. */
  lemma NextSeparatorAt(s: string, from: nat, end: nat)
    requires from <= end <= |s|
    requires !Contains(s[from..end], HeaderSeparator)
    requires end == |s| || OccursAt(s, HeaderSeparator, end)
    ensures FindFrom(s, HeaderSeparator, from) == if end == |s| then None else Some(end)
  {
    var expected: Option<nat> := if end == |s| then None else Some(end);
    forall k | from <= k < end
      ensures !OccursAt(s, HeaderSeparator, k)
    {
      if k + |HeaderSeparator| <= end {
        OccursInSlice(s, HeaderSeparator, from, end, k - from);
      } else {
        SeparatorsDoNotOverlap(s, k);
      }
    }
    assert IsFirstFrom(s, HeaderSeparator, from, expected);
    FirstFromUnique(s, HeaderSeparator, from, FindFrom(s, HeaderSeparator, from), expected);
  }

  /** `parse_http_header` returns `None` exactly when the line holds no `": "`. */
  lemma ParseNoneIff(s: string)
    ensures ParseHttpHeader(s) == None <==> !Contains(s, HeaderSeparator)
  {
    SplitSingleIff(s, HeaderSeparator);
  }

  /** The first `parts.next()` always yields a piece, even for the empty line. */
  lemma FirstPieceAlwaysPresent(s: string)
    ensures Next(Start(s, HeaderSeparator)).0.Some?
  {
  }

  /** A line of the shape `IsHeaderLine` describes begins with the formatted pair. */
  lemma HeaderLinePrefix(line: string, name: string, value: string)
    requires IsHeaderLine(line, name, value)
    ensures FormatHeader(name, value) <= line
  {
    var v := |name| + |HeaderSeparator|;
    var n := v + |value|;
    assert line[..n] == line[..|name|] + line[|name|..v] + line[v..n];
  }

  /** A successful parse returns a name and value that the line is made of. */
  lemma ParseIsHeaderLine(s: string, name: string, value: string)
    requires ParseHttpHeader(s) == Some((name, value))
    ensures IsHeaderLine(s, name, value)
  {
    var parts := Split(s, HeaderSeparator);
    SplitPiecesFree(s, HeaderSeparator);
    SplitFromFirstPiece(s, HeaderSeparator, 0);
    SplitFromRest(s, HeaderSeparator, 0);
    assert name == parts[0] && value == parts[1];
    var i := FindFrom(s, HeaderSeparator, 0).value;
    assert parts[1] == SplitFrom(s, HeaderSeparator, i + |HeaderSeparator|)[0];
    ValueEndsAtSeparator(s, i, name, value);
  }

  /** The value after the first separator at `i` ends at the next separator or at the end of the line. */
  lemma ValueEndsAtSeparator(s: string, i: nat, name: string, value: string)
    requires FindFrom(s, HeaderSeparator, 0) == Some(i)
    requires name == s[0..i] && value == SplitFrom(s, HeaderSeparator, i + |HeaderSeparator|)[0]
    requires !Contains(name, HeaderSeparator) && !Contains(value, HeaderSeparator)
    ensures IsHeaderLine(s, name, value)
  {
    SplitFromFirstPiece(s, HeaderSeparator, i + |HeaderSeparator|);
    assert s[i..i + |HeaderSeparator|] == HeaderSeparator;
    match FindFrom(s, HeaderSeparator, i + |HeaderSeparator|)
    case None =>
      assert value == s[i + |HeaderSeparator|..|s|];
    case Some(b) =>
      assert value == s[i + |HeaderSeparator|..b];
  }

  /** A line of the shape `IsHeaderLine` describes parses to exactly that pair. */
  lemma HeaderLineParses(s: string, name: string, value: string)
    requires IsHeaderLine(s, name, value)
    ensures ParseHttpHeader(s) == Some((name, value))
  {
    var v := |name| + |HeaderSeparator|;
    var n := v + |value|;
    assert s[0..|name|] == name;
    NextSeparatorAt(s, 0, |name|);
    NextSeparatorAt(s, v, n);
    SplitFromFirstPiece(s, HeaderSeparator, 0);
    SplitFromRest(s, HeaderSeparator, 0);
    SplitFromFirstPiece(s, HeaderSeparator, v);
    assert n == |s| ==> s[v..] == value;
    assert Split(s, HeaderSeparator)[1] == SplitFrom(s, HeaderSeparator, v)[0] == value;
  }

  /** Characterises every successful parse without mentioning the splitter. */
  lemma ParseCharacterization(s: string, name: string, value: string)
    ensures ParseHttpHeader(s) == Some((name, value)) <==> IsHeaderLine(s, name, value)
  {
    if ParseHttpHeader(s) == Some((name, value)) {
      ParseIsHeaderLine(s, name, value);
    }
    if IsHeaderLine(s, name, value) {
      HeaderLineParses(s, name, value);
    }
  }

  /** Name and value are taken verbatim: `name: value` is a prefix of the line. */
  lemma FormattedHeaderIsPrefix(s: string)
    requires ParseHttpHeader(s).Some?
    ensures var (name, value) := ParseHttpHeader(s).value;
            FormatHeader(name, value) <= s
  {
    var (name, value) := ParseHttpHeader(s).value;
    ParseIsHeaderLine(s, name, value);
    HeaderLinePrefix(s, name, value);
  }

  /** Formatting a header and parsing it back gives the same pair exactly when
      neither the name nor the value holds the separator. */
  lemma ParseFormatRoundTrip(name: string, value: string)
    ensures ParseHttpHeader(FormatHeader(name, value)) == Some((name, value))
            <==> !Contains(name, HeaderSeparator) && !Contains(value, HeaderSeparator)
  {
    var line := FormatHeader(name, value);
    var v := |name| + |HeaderSeparator|;
    assert line[..|name|] == name;
    assert line[|name|..v] == HeaderSeparator;
    assert line[v..|line|] == value;
    ParseCharacterization(line, name, value);
  }

  /** A line that is exactly a formatted header line holds its separator only once. */
  lemma HeaderLineSeparatorUnique(s: string, name: string, value: string)
    requires IsHeaderLine(s, name, value) && |name| + |HeaderSeparator| + |value| == |s|
    ensures ExactlyOneSeparator(s)
  {
    var v := |name| + |HeaderSeparator|;
    forall j | 0 <= j && j != |name|
      ensures !OccursAt(s, HeaderSeparator, j)
    {
      if j + |HeaderSeparator| <= |name| {
        assert s[0..|name|] == name;
        OccursInSlice(s, HeaderSeparator, 0, |name|, j);
      } else if j + 1 == |name| {
        SeparatorsDoNotOverlap(s, j);
      } else if j == |name| + 1 {
        SeparatorsDoNotOverlap(s, |name|);
      } else {
        assert s[v..|s|] == value;
        OccursInSlice(s, HeaderSeparator, v, |s|, j - v);
      }
    }
    assert OccursAt(s, HeaderSeparator, |name|);
  }

  /** A line with one separator parses into a pair that formats back to the whole line. */
  lemma SingleSeparatorFormatsBack(s: string)
    requires ExactlyOneSeparator(s)
    ensures ParseHttpHeader(s).Some?
    ensures FormatHeader(ParseHttpHeader(s).value.0, ParseHttpHeader(s).value.1) == s
  {
    ParseNoneIff(s);
    var (name, value) := ParseHttpHeader(s).value;
    ParseIsHeaderLine(s, name, value);
    HeaderLinePrefix(s, name, value);
    var n := |name| + |HeaderSeparator| + |value|;
    assert OccursAt(s, HeaderSeparator, |name|);
    assert n == |s|;
    assert s[..n] == s;
  }

  /** A line that parses into a pair formatting back to it holds one separator. */
  lemma FormatsBackHasSingleSeparator(s: string)
    requires ParseHttpHeader(s).Some?
    requires FormatHeader(ParseHttpHeader(s).value.0, ParseHttpHeader(s).value.1) == s
    ensures ExactlyOneSeparator(s)
  {
    var (name, value) := ParseHttpHeader(s).value;
    ParseIsHeaderLine(s, name, value);
    HeaderLineSeparatorUnique(s, name, value);
  }

  /** A line parses into a pair that formats back to the whole line exactly
      when the line holds one separator. */
  lemma SingleSeparatorRoundTrip(s: string)
    ensures ExactlyOneSeparator(s)
            <==> ParseHttpHeader(s).Some? && FormatHeader(ParseHttpHeader(s).value.0, ParseHttpHeader(s).value.1) == s
  {
    if ExactlyOneSeparator(s) {
      SingleSeparatorFormatsBack(s);
    }
    if ParseHttpHeader(s).Some? && FormatHeader(ParseHttpHeader(s).value.0, ParseHttpHeader(s).value.1) == s {
      FormatsBackHasSingleSeparator(s);
    }
  }

  /** The unit test's well-formed header. */
  lemma ContentTypeExample()
    ensures ParseHttpHeader("Content-Type: application/json") == Some(("Content-Type", "application/json"))
  {
    var line, name, value := "Content-Type: application/json", "Content-Type", "application/json";
    NoColonNoSeparator(name);
    NoColonNoSeparator(value);
    assert line[..12] == name;
    assert line[12..14] == HeaderSeparator;
    assert line[14..] == value;
    HeaderLineParses(line, name, value);
  }

  /** The unit test's line without a separator. */
  lemma InvalidLineExample()
    ensures ParseHttpHeader("asjkdsah12321-213 21") == None
  {
    NoColonNoSeparator("asjkdsah12321-213 21");
    ParseNoneIff("asjkdsah12321-213 21");
  }

  /** The bare separator is a header with an empty name and an empty value. */
  lemma BareSeparatorExample()
    ensures ParseHttpHeader(": ") == Some(("", ""))
  {
    var line: string := ": ";
    assert line[..0] == "" && line[0..2] == HeaderSeparator && line[2..2] == "";
    HeaderLineParses(line, "", "");
  }

  /** A second separator cuts the value short: `A: b: c` has the value `b`. */
  lemma SecondSeparatorTruncatesExample()
    ensures ParseHttpHeader("A: b: c") == Some(("A", "b"))
  {
    var line, name, value := "A: b: c", "A", "b";
    NoColonNoSeparator(name);
    NoColonNoSeparator(value);
    assert line[..1] == name && line[1..3] == HeaderSeparator && line[3..4] == value;
    assert line[4..6] == HeaderSeparator;
    HeaderLineParses(line, name, value);
  }

  /** The name is not checked against the token grammar: it may hold a space. */
  lemma NameWithSpaceExample()
    ensures ParseHttpHeader("Bad Name: x") == Some(("Bad Name", "x"))
  {
    var line, name, value := "Bad Name: x", "Bad Name", "x";
    NoColonNoSeparator(name);
    NoColonNoSeparator(value);
    assert line[..8] == name && line[8..10] == HeaderSeparator && line[10..11] == value;
    HeaderLineParses(line, name, value);
  }

  /** Whitespace after the separator is not stripped: it stays in the value. */
  lemma ValueKeepsLeadingSpaceExample()
    ensures ParseHttpHeader("A:  b") == Some(("A", " b"))
  {
    var line, name, value := "A:  b", "A", " b";
    NoColonNoSeparator(name);
    NoColonNoSeparator(value);
    assert line[..1] == name && line[1..3] == HeaderSeparator && line[3..5] == value;
    HeaderLineParses(line, name, value);
  }

  /** A colon not followed by a space is no separator, so the line is rejected. */
  lemma ColonWithoutSpaceExample()
    ensures ParseHttpHeader("A:b") == None
  {
    var line := "A:b";
    forall i | 0 <= i && i + |HeaderSeparator| <= |line|
      ensures !OccursAt(line, HeaderSeparator, i)
    {
      assert line[i..i + |HeaderSeparator|][1] == line[i + 1];
    }
    ParseNoneIff(line);
  }

  /** The header split the way field lines are meant to be split: the name
      runs to the first separator and the value is everything after it. */
  function ParseHttpHeaderFirstSeparator(s: string): (r: Option<(string, string)>)
    ensures r == None <==> !Contains(s, HeaderSeparator)
    ensures r.Some? ==> FormatHeader(r.value.0, r.value.1) == s && !Contains(r.value.0, HeaderSeparator)
  {
    match FindFrom(s, HeaderSeparator, 0)
    case None => None
    case Some(i) =>
      assert s[i..i + |HeaderSeparator|] == HeaderSeparator;
      assert s == s[..i] + HeaderSeparator + s[i + |HeaderSeparator|..];
      SliceFree(s, HeaderSeparator, 0, i);
      assert s[..i] == s[0..i];
      Some((s[..i], s[i + |HeaderSeparator|..]))
  }

  /** With the corrected split, every header whose name is free of the
      separator survives formatting and parsing, whatever its value holds. */
  lemma FirstSeparatorRoundTrip(name: string, value: string)
    ensures ParseHttpHeaderFirstSeparator(FormatHeader(name, value)) == Some((name, value))
            <==> !Contains(name, HeaderSeparator)
  {
    var line := FormatHeader(name, value);
    if !Contains(name, HeaderSeparator) {
      assert line[0..|name|] == name;
      assert line[|name|..|name| + |HeaderSeparator|] == HeaderSeparator;
      NextSeparatorAt(line, 0, |name|);
      assert line[..|name|] == name;
      assert line[|name| + |HeaderSeparator|..] == value;
    }
  }

  /** The two splits agree on every line with at most one separator. */
  lemma FirstSeparatorAgreesOnSingleSeparator(s: string)
    requires !Contains(s, HeaderSeparator) || ExactlyOneSeparator(s)
    ensures ParseHttpHeaderFirstSeparator(s) == ParseHttpHeader(s)
  {
    ParseNoneIff(s);
    if Contains(s, HeaderSeparator) {
      SingleSeparatorFormatsBack(s);
      var (name, value) := ParseHttpHeader(s).value;
      ParseIsHeaderLine(s, name, value);
      FirstSeparatorRoundTrip(name, value);
    }
  }

  /** A value holding the separator does not survive `parse_http_header`,
      while the corrected split keeps it whole. */
  lemma ValueWithSeparatorCounterexample()
    ensures FormatHeader("A", "b: c") == "A: b: c"
    ensures ParseHttpHeader(FormatHeader("A", "b: c")) == Some(("A", "b"))
    ensures ParseHttpHeaderFirstSeparator(FormatHeader("A", "b: c")) == Some(("A", "b: c"))
  {
    var name, value := "A", "b: c";
    assert FormatHeader(name, value) == "A: b: c";
    SecondSeparatorTruncatesExample();
    NoColonNoSeparator(name);
    FirstSeparatorRoundTrip(name, value);
  }

  /** A string without a colon cannot hold the separator. */
  lemma NoColonNoSeparator(s: string)
    requires ':' !in s
    ensures !Contains(s, HeaderSeparator)
  {
    forall i | 0 <= i && i + |HeaderSeparator| <= |s|
      ensures !OccursAt(s, HeaderSeparator, i)
    {
      assert s[i..i + |HeaderSeparator|][0] == s[i];
    }
  }
}
