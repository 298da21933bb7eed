# Init-file splitting, statement display and pagination rules, in Dafny

This project models parts of a Caddy web-server module that serves a DuckDB
database over HTTP: two pure text functions of its database layer, and the
pagination rules of its JSON response writer.

- `parseSQL` (database/init.go) splits the text of an init file into SQL
  statements. It is a single left-to-right scan over characters with one
  character of lookahead. The scanner is in one of four modes: normal
  text, a string literal, a `--` line comment, or a block comment.
  - A `;` ends a statement only in normal text.
  - Inside a string, a doubled `''` is an escaped quote.
  - A line comment leaves its newline behind.
  - A block comment leaves nothing behind.
  - Every statement is trimmed, and blank ones are dropped.
- `truncateStatement` (database/init.go) builds the display form of a
  statement for log lines and error messages. It collapses whitespace runs
  to single spaces. If the result is longer than the byte budget, it is cut
  and ends in `...`.
- The page count, the "truncated by safety limit" notice and the HATEOAS
  navigation links that `WriteJSON` adds to a response (formats/json.go).

Modules:

| module | file | contents |
|---|---|---|
| `Wrappers` | wrappers.dfy | `Option`, `Result` |
| `GoStrings` | gostrings.dfy | Go's `unicode.IsSpace`, `strings.TrimSpace`, `strings.Fields`, `strings.Join`, UTF-8 bytes |
| `SqlSplit` | sqlsplit.dfy | the scanner `Step`/`Pieces`, `ParseSql`, and the loop `ParseSqlLoop` as the Go code runs it |
| `SplitLaws` | splitlaws.dfy | what each kind of input text does to the scan; the plain-text reference splitter `Segments` |
| `SplitGrammar` | splitgrammar.dfy | a token description of init-file text and the theorem that the scan follows it |
| `SplitShapes` | splitshapes.dfy | comments, terminators and strings in arbitrary surroundings |
| `SplitTokens` | splittokens.dfy | a tokenizer reading any text as well-formed token text |
| `Display` | display.dfy | `truncateStatement` and the display form |
| `InitFile` | initfile.dfy | the statement loop of `loadInitFile`, with the database abstracted |
| `Decimal` | decimal.dfy | `%d` formatting and its inverse |
| `Hateoas` | hateoas.dfy | `generateHATEOASLinks` |
| `Paging` | paging.dfy | `totalPages`, the truncation notice, the response shape |

`ParseSql` is defined by recursion over the remaining input. `Step` takes
one scanning step in the order of the Go `if` blocks, and `Pieces` collects
the raw text between terminators. `ParseSqlLoop` is the Go loop itself: an
index, a mode and an accumulator. Its loop invariant proves that it returns
what `ParseSql` returns.

`SplitGrammar` is an independent description of the same behaviour. Input
text is written as a sequence of tokens: code, terminators, string
literals, and line and block comments, either closed or cut off by the end
of the input. `Collect` says which pieces a token sequence should give.
`ScanMatchesTokens` proves that the scan of any well-formed token text
gives exactly those pieces. `SplitTokens.Tokenize` reads any input as
tokens, and `TokenizeComplete` proves that those tokens are well formed and
spell the input back. So every input is token text, and
`ParseSqlOfAnyText` gives `parseSQL` on every input through the token
description.

## Model

| member | source | states |
|---|---|---|
| SqlSplit.ParseSql | database/init.go:68-154 | never fails; every statement returned is non-empty and has no leading or trailing whitespace |
| SqlSplit.ParseSqlLoop | database/init.go:68-154 | the index/mode/accumulator loop returns no error and exactly the statements of the recursive definition |
| SqlSplit.ScanOne | database/init.go:79-145 | one pass of the loop body advances the index by the characters the step consumes; it sets the mode and accumulator the step prescribes; a `;` in normal text adds the trimmed accumulator when it is not blank |
| SqlSplit.StatementsAreTrimmed | database/init.go:135-151 | statements made from raw pieces are non-empty and trimmed |
| SqlSplit.StatementsOfOne | database/init.go:136-139 | a piece gives no statement when blank, else its trimmed text |
| SqlSplit.StatementsAppend | database/init.go:135-151 | statements of consecutive pieces are concatenated in input order |
| GoStrings.TrimSpaceSpec | database/init.go:136 | `TrimSpace` leaves no edge whitespace; it is empty exactly on blank input; it changes nothing when there is no edge whitespace |
| GoStrings.TrimSpaceAround | database/init.go:136 | trimming removes exactly the whitespace around a trimmed text |
| GoStrings.TrimSpaceSkipsLeadingSpace | database/init.go:148 | leading whitespace does not change the trimmed text |
| SplitLaws.OrdinaryCopied | database/init.go:144 | text with no quote, terminator or comment opener is appended to the current statement verbatim |
| SplitLaws.TerminatorEnds | database/init.go:135-142 | a `;` in normal text ends the current piece and starts an empty one |
| SplitLaws.StringBodyCopied | database/init.go:101-113 | inside a string every character, a doubled quote included, is kept, and the scan stays in the string |
| SplitLaws.QuotedLiteralCopied | database/init.go:100-120 | a closed string literal is kept verbatim with its quotes, whatever `;`, `--` or `/*` it holds |
| SplitLaws.UnterminatedStringKept | database/init.go:147-151 | a string cut off by the end of input is still emitted, from its opening quote |
| SplitLaws.LineCommentKeepsNewline | database/init.go:83-89 | a line comment is dropped up to its newline, and the newline is kept |
| SplitLaws.LineCommentRunsToEnd | database/init.go:83-89 | a line comment without a newline consumes the rest of the input |
| SplitLaws.BlockCommentVanishes | database/init.go:91-98 | a block comment through its closer is removed with nothing put in its place |
| SplitLaws.BlockCommentRunsToEnd | database/init.go:91-98 | an unclosed block comment consumes the rest of the input |
| SplitLaws.SegmentsJoin | database/init.go:135-142 | the reference splitter's segments hold no `;` and rejoin with `;` to the input |
| SplitLaws.PlainPieces | database/init.go:135-151 | on text with no quote or comment opener, the scan's pieces are the `;`-separated segments |
| SplitLaws.ParseSqlPlain | database/init_test.go:24-38 | on such text the statements are the trimmed non-blank `;`-separated segments, in order |
| SplitLaws.TrailingTerminatorOptional | database/init_test.go:24-33 | on such text a trailing `;` changes nothing |
| SplitLaws.SingleStatement | database/init_test.go:29-33 | such text without `;` gives its trimmed self, or nothing when blank |
| SplitLaws.BlankInputYieldsNothing | database/init_test.go:14-23 | empty and whitespace-only input give no statements |
| SplitLaws.CommentOnlyYieldsNothing | database/init_test.go:54-58 | input that is a single comment running to the end gives no statements |
| SplitGrammar.ScanMatchesTokens | database/init.go:79-145 | the scan of well-formed token text gives exactly the pieces the token description prescribes |
| SplitGrammar.ParseSqlMatchesTokens | database/init.go:68-154 | `parseSQL` of token text is the trimmed non-blank pieces of the token description |
| SplitTokens.TokenizeComplete | database/init.go:79-145 | any text is well-formed token text: code up to a `;`, quote or comment opener; a string literal up to a quote that is not doubled, or to the end; a line comment up to its newline, or to the end; a block comment up to its closer, or to the end |
| SplitTokens.ParseSqlOfAnyText | database/init.go:68-154 | on every input, `parseSQL` gives the trimmed non-blank pieces its tokens prescribe |
| SplitShapes.PieceCount | database/init.go:135-142 | there is one piece more than there are terminators outside strings and comments |
| SplitShapes.QuoteFreeBody | database/init_test.go:128-132 | any quote-free text, `--` and `/*` included, is the body of a string literal |
| SplitShapes.SwapTokens | database/init.go:79-145 | token runs that leave the same pieces can be exchanged without changing the result |
| SplitShapes.BlockCommentRemoved | database/init_test.go:69-73 | a block comment anywhere is removed without leaving even a space |
| SplitShapes.LineCommentLeavesNewline | database/init.go:83-89 | a line comment anywhere has the effect of a single newline |
| SplitShapes.LeadingLineCommentIgnored | database/init_test.go:44-48 | a line comment before the first statement changes nothing |
| SplitShapes.TrailingCommentIgnored | database/init_test.go:49-53 | a comment that runs to the end of the input changes nothing |
| SplitShapes.LeadingSpaceTrimmed | database/init.go:136 | whitespace in front of a piece does not change its statement |
| Display.Truncate | database/init.go:157-164 | the result has at most `maxLen` bytes; it is the display form exactly when that fits |
| Display.TruncatedShape | database/init.go:163 | a display form that does not fit is cut to exactly `maxLen` bytes: its first `maxLen-3` bytes, then `...` |
| Display.NormalizeCollapsed | database/init.go:159 | the display form has no edge whitespace, no whitespace but single spaces, and no two spaces in a row |
| Display.NormalizeKeepsWords | database/init.go:159 | the display form has the same words as the statement, in order |
| Display.NormalizeFixedPoints | database/init_test.go:162-173 | the display form equals the statement exactly when the statement is already in display form |
| Display.NormalizeIdempotent | database/init.go:159 | normalizing twice is normalizing once |
| Display.FieldsOfJoin | database/init.go:159 | splitting words joined by single spaces gives back the words |
| Display.FieldsAreWords | database/init.go:159 | every field is a non-empty run of non-space characters |
| Display.TruncateCharsCollapsed | database/init.go:159-163 | the cut result keeps the display form's shape: no edge whitespace, only single spaces, never two in a row |
| Display.NormalizeAscii | database/init.go:159 | the display form of ASCII text is ASCII |
| Display.TruncateAscii | database/init_test.go:174-191 | on ASCII statements, bytes are characters: the display form is kept whole when it has at most `maxLen` characters, else cut to `maxLen-3` characters and `...` |
| InitFile.RunInit | database/init.go:26-51 | an empty file is skipped; otherwise statements are sent in order; the run stops at the first rejected one and reports its 1-based number and its 50-byte display form; it completes only if every statement is accepted |
| Decimal.ItoaRoundTrip | formats/json.go:324 | the `%d` text of a number reads back as that number |
| Decimal.ItoaInjective | formats/json.go:324 | different numbers are written differently |
| Hateoas.BuildLink | formats/json.go:314-327 | a link keeps every original parameter except `page` and `links`, with its values in order, but only when it has values; it sets `page` to the target and `links` to `true` |
| Hateoas.BuildLinkTarget | formats/json.go:324 | a link's `page` parameter reads back as its target page |
| Hateoas.LinksShareParameters | formats/json.go:314-325 | links built from one query have the same parameters; they differ only in `page`, and equal exactly when the targets do |
| Hateoas.Targets | formats/json.go:329-348 | `self` targets the page and `first` page 1, always; `last` targets the page count iff it is positive; `prev` targets page-1 iff page > 1; `next` targets page+1 iff page < page count; no other names |
| Hateoas.GenerateLinks | formats/json.go:310-351 | the link names are those of `Targets`, each link built for its target page |
| Hateoas.LinkTargets | formats/json.go:329-348 | every link reads back as the page `Targets` names for it |
| Hateoas.LinksStayInRange | formats/json.go:329-348 | on a page within range every link points within 1..page count |
| Hateoas.EdgePages | formats/json.go:340-348 | page 1 has no `prev`; the last page has no `next`, and its `last` link is its `self` link |
| Paging.TotalPages | formats/json.go:106-109 | zero without rows; otherwise the page count `p` with `(p-1)*limit < totalRows <= p*limit` |
| Paging.TotalPagesLeast | formats/json.go:106-109 | the page count is the least count of `limit`-row pages that holds every row |
| Paging.TotalPagesBounded | formats/json.go:106-109 | the page count is non-negative and at most the row count |
| Paging.TotalPagesAsWrittenAgrees | formats/json.go:108 | while `totalRows + limit - 1` stays within int64, the expression as written computes the page count |
| Paging.TotalPagesOverflow | formats/json.go:108 | the expression as written wraps to a negative count: -2^62 instead of 2^62 for `totalRows` = 2^63-1 and `limit` = 2, and -1 instead of 1 for `totalRows` = 2 and `limit` = 2^63-1 |
| Paging.BuildResponse | formats/json.go:99-135 | pagination is present iff it was requested with a positive limit; links are present iff there is pagination and links are configured and enabled; the truncation notice is present iff pagination was not requested and the safety limit was reached with rows left over |
| Paging.PaginationExcludesTruncation | formats/json.go:105-135 | no response has both pagination and a truncation notice |
| Paging.TruncationMeansRowsHeldBack | formats/json.go:126 | a truncation notice means the safety limit was reached and more rows exist than were read |
| Paging.LimitMessageNamesLimit | formats/json.go:132 | the notice's number reads back as the safety limit |
| Paging.ResponseLinksInRange | formats/json.go:118-122 | on a page within range, every link of a configured response points within 1..page count |

## Notes on the code

- database/init.go:147-151 flushes the remaining text at end of input
  whatever mode the scan is in. So the text of an unterminated string is
  still emitted, from its opening quote: see
  `SplitLaws.UnterminatedStringKept`.
- `truncateStatement` fails, with an out-of-range slice, only when
  `maxLen < 3` and the display form does not fit. `Display.Truncate`
  requires exactly the negation of that.
- The character-level shape of the cut result
  (`Display.TruncateCharsCollapsed`) carries over to bytes for ASCII
  statements, through `Display.TruncateAscii`.

## Left out

- `loadInitFile`: reading the file, the context timeout, the zap log lines
  (including the 100-byte display form in the debug line) and `ExecContext`
  are not modelled. The database's answer to each statement is an input
  sequence of `RunInit`. The "failed to parse" error path is unreachable,
  because `ParseSql` never fails.
- `parseSQL`'s conversion of the input to runes, which replaces invalid
  UTF-8 with U+FFFD: the model's input is already a sequence of
  characters.
- `WriteJSON`, `WriteJSONCompact` and `WriteJSONWithMeta`: row scanning,
  value conversion, HTTP headers and JSON encoding. `BuildResponse` takes
  the number of rows read as a parameter and leaves out the `data` entry.
- `QueryStats.ElapsedSec`: floating point.
- `url.Values.Encode` and the `fmt.Sprintf("%s?%s")` URL assembly: a link
  is its base path and its parameter map, without percent-encoding.
- cmd/caddy/main.go: plugin registration only.
- Go's `int` width for `page`, `limit` and `totalPages`: unbounded here.
  `page + 1` is only formed when `page < totalPages`, so it cannot
  overflow. The one overflow that can happen is under Findings.
- The literal rows of the test tables in database/init_test.go are not
  proved one by one. Each kind of row is covered by a general lemma in the
  table above, cited at the rows it covers.
- SqlSplit.Step: its contract only bounds how many characters a step
  consumes. What the steps do is stated by the `SplitLaws` and
  `SplitGrammar` lemmas.

## Findings

| source | as written | input that shows it | evidently intended | confidence | as-written member | corrected member |
|---|---|---|---|---|---|---|
| formats/json.go:108 | `(totalRows + int64(limit) - 1) / int64(limit)` in wrapping int64 arithmetic | `totalRows` = 9223372036854775807, `limit` = 2 gives -4611686018427387904; `totalRows` = 2, `limit` = 9223372036854775807 gives -1 | the ceiling of `totalRows / limit`: 4611686018427387904 and 1 | medium: any `totalRows + limit - 1` above 2^63-1 wraps, so a huge `limit` with a few rows is enough; whether the HTTP handler caps `limit` is not part of this model; not executed | Paging.TotalPagesOverflow | Paging.TotalPages |
