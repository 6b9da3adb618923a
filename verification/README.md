# HTTP header-line parsing, modelled in Dafny

This project models `parse_http_header` from the `narin` HTTP server
(src/http/http_request.rs). The function turns one raw header line into a
`(name, value)` pair, or returns `None` when the line is not a header. It
splits the line with Rust's `str::split` on the literal separator `": "` (a
colon followed by exactly one space), takes the first piece as the name and
the second piece as the value, and ignores any later pieces.

The accepted form differs from the `field-name ":" OWS field-value` grammar of
section 5.1 of RFC 9112 in both directions:

- The code requires exactly `": "` after the name. A line such as `A:b` is rejected.
- The name is not checked against the token grammar. It may be empty or hold spaces.
- Whitespace around the value is not stripped. In `A:  b` the value is ` b`.
- A field value may contain `": "`, but the code keeps only the text up to the next one.
  See "## Findings".

Strings are `seq<char>` (Dafny's `string`). The project has four modules:

- `Wrappers` (wrappers.dfy): the `Option` datatype standing for Rust's `Option`.
- `StrSplit` (str_split.dfy): the meaning of `str::split` with a non-empty
  pattern. `FindFrom` is the leftmost-match searcher. `SplitFrom` splits from
  a cursor, moving the cursor past each match, as Rust's iterator does.
  `Split` is `SplitFrom` at cursor 0. It gives the maximal runs between
  non-overlapping, left-to-right occurrences of the separator. `Join` undoes
  it: `Join(Split(s, sep), sep) == s`.
- `StrSplitIter` (str_split_iter.dfy): the lazy iterator that `str::split`
  returns. It holds a cursor just past the last match and a `finished` flag.
  `Next` is `parts.next()`. Its contract ties every step to the pieces still
  pending in `SplitFrom`.
- `HttpRequest` (http_request.dfy): `ParseHttpHeader`
  written as the source writes it, with two `parts.next()` calls. The lemmas
  state what a parse returns without mentioning the splitter. `FormatHeader`
  writes a pair back as `name: value`, and every round-trip lemma uses it.
  `ParseHttpHeaderFirstSeparator` is the corrected parse described under
  "## Findings": it splits at the first separator only.

## Model

| member | source | states |
|---|---|---|
| StrSplit.FindFrom | src/http/http_request.rs:4 | the search behind `split` returns the leftmost occurrence of the separator at or after the cursor, or `None` when no occurrence remains |
| StrSplit.SplitFrom | src/http/http_request.rs:4 | splitting from any cursor position yields at least one piece |
| StrSplit.Split | src/http/http_request.rs:4 | `split` always yields at least one piece, even for the empty line |
| StrSplit.SplitFromJoin | src/http/http_request.rs:4 | joining the pieces produced from a cursor with the separator gives back the text from that cursor on |
| StrSplit.SplitFromPiecesFree | src/http/http_request.rs:4 | no piece produced from a cursor contains the separator |
| StrSplit.SplitJoin | src/http/http_request.rs:4 | splitting loses nothing: joining the pieces with the separator gives the line back |
| StrSplit.SplitPiecesFree | src/http/http_request.rs:4 | no piece produced by `split` contains the separator |
| StrSplit.SplitSingleIff | src/http/http_request.rs:4 | a line splits into exactly one piece if and only if it holds no separator |
| StrSplitIter.Start | src/http/http_request.rs:4 | the fresh iterator will yield exactly the pieces of `Split`, in order |
| StrSplitIter.Next | src/http/http_request.rs:7-14 | each `parts.next()` yields the next piece of `Split` and removes it from the pending pieces; an exhausted iterator yields `None` |
| HttpRequest.ParseHttpHeader | src/http/http_request.rs:3-16 | the two-step iterator parse equals taking the first two pieces of the split, and is `None` when there are fewer than two |
| HttpRequest.ParseNoneIff | src/http/http_request.rs:11-14 | the parse is `None` if and only if the line holds no `": "` |
| HttpRequest.FirstPieceAlwaysPresent | src/http/http_request.rs:7-9 | the first `parts.next()` always yields a piece, so its `None` arm never fires |
| HttpRequest.ParseIsHeaderLine | src/http/http_request.rs:8-12 | on success the name is the line up to the first `": "`, the value runs from there to the next `": "` or the end of the line, and neither holds the separator |
| HttpRequest.HeaderLineParses | src/http/http_request.rs:3-15 | any line that starts with a separator-free name, `": "`, and a separator-free value ending at a separator or at the end parses to exactly that pair |
| HttpRequest.ParseCharacterization | src/http/http_request.rs:3-15 | the two lemmas above as one if-and-only-if: a parse returns `(name, value)` exactly when the line has that shape |
| HttpRequest.FormattedHeaderIsPrefix | src/http/http_request.rs:8-12 | name and value are taken verbatim: `name + ": " + value` is a prefix of the line |
| HttpRequest.ParseFormatRoundTrip | src/http/http_request.rs:3-15 | parsing `name + ": " + value` gives back `(name, value)` if and only if neither part holds the separator |
| HttpRequest.SingleSeparatorRoundTrip | src/http/http_request.rs:3-15 | a line holds exactly one `": "` if and only if it parses and the parsed pair formats back to the whole line |
| HttpRequest.ContentTypeExample | src/http/http_request.rs:25-29 | `Content-Type: application/json` parses to `("Content-Type", "application/json")` |
| HttpRequest.InvalidLineExample | src/http/http_request.rs:34-35 | `asjkdsah12321-213 21` parses to `None` |
| HttpRequest.BareSeparatorExample | src/http/http_request.rs:4-15 | the line `": "` parses to an empty name and an empty value |
| HttpRequest.SecondSeparatorTruncatesExample | src/http/http_request.rs:11-12 | `A: b: c` parses to `("A", "b")`: text after a second separator is dropped |
| HttpRequest.NameWithSpaceExample | src/http/http_request.rs:4-15 | the name is not checked against the token grammar: `Bad Name: x` parses to `("Bad Name", "x")` |
| HttpRequest.ValueKeepsLeadingSpaceExample | src/http/http_request.rs:4-15 | whitespace after the separator is kept: `A:  b` parses to `("A", " b")` |
| HttpRequest.ColonWithoutSpaceExample | src/http/http_request.rs:4-14 | a colon not followed by a space is no separator: `A:b` parses to `None` |
| HttpRequest.ValueWithSeparatorCounterexample | src/http/http_request.rs:11-12 | formatting `("A", "b: c")` and parsing it back gives `("A", "b")`, while the corrected split keeps `("A", "b: c")` |
| HttpRequest.ParseHttpHeaderFirstSeparator | src/http/http_request.rs:3-16 | corrected parse: `None` exactly when there is no separator; otherwise a separator-free name and a value that format back to the whole line |
| HttpRequest.FirstSeparatorRoundTrip | src/http/http_request.rs:11-12 | with the corrected split, `name + ": " + value` parses back to `(name, value)` if and only if the name is free of the separator, whatever the value holds |
| HttpRequest.FirstSeparatorAgreesOnSingleSeparator | src/http/http_request.rs:3-16 | the corrected and the as-written parse agree on every line with at most one separator |

## Left out

- `start_http_server` and `handle_connection` (src/http/http_server.rs:8-35): TCP bind and accept, buffered reading, console logging and the canned response are I/O with no parsing logic.
- `parse_http_request`, the `Request` struct, method lookup, the header-block loop and `Content-Length` body reading: they are only referenced at src/http/http_server.rs:6 and 18-24. Their source is not part of this model.
- StrSplit.Split: requires a non-empty separator. Rust's empty-pattern splitting (a piece between every two characters) is not modelled, because the only caller passes `": "`.
- StrSplitIter.Next: the iterator's `end` bound is always the end of the haystack, and trailing empty pieces are always allowed. These are the fixed settings `str::split` uses, so they are not fields.
- UTF-8 and allocation: strings are sequences of characters. Byte offsets and `to_string` copies are not modelled. The separator is ASCII and UTF-8 is self-synchronising, so the matches found in the characters are exactly the matches found in the bytes, and the pieces are the same strings.

## Findings

| source | as written | input that shows it | evidently intended | confidence | as-written member | corrected member |
|---|---|---|---|---|---|---|
| src/http/http_request.rs:11-12 | the value is the second piece of `split(": ")`, so it stops at the next `": "` and the rest of the line is dropped | `A: b: c` gives the value `b` instead of `b: c` | the value is everything after the first `": "` (a `splitn(2, ": ")`), so any `Name: Value` line with a separator-free name round-trips | medium, not executed | HttpRequest.ValueWithSeparatorCounterexample | HttpRequest.FirstSeparatorRoundTrip |
