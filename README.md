# hecto rows and documents in Dafny

A model of the text buffer of the hecto terminal editor. The model has
two parts: the `Row` (one line of text, with its cached grapheme count
and syntax tags) and the `Document` (the ordered rows of a file). The
row operations are modelled as the source writes them: the loops of
`insert`, `delete`, `split`, `render`, `find` and `highlight` are
`while`/`for` loops with invariants, and `Row` and `Document` are
classes whose methods update their fields. Each method is proved against
a specification function, and the lemmas state what those functions
promise.

Files:

- `text.dfy`. Module `Options` holds `Option`. Module `Text` holds text
  at cluster, character and UTF-8 byte granularity: concatenation of
  clusters, cluster offsets, `str::len` as `ByteLen`, and
  `str::find`/`str::rfind` as `IndexOf`/`LastIndexOf` with their
  leftmost and rightmost guarantees.
- `highlighting.dfy`. Module `Highlighting` holds the tag type, the
  number rule `Classify`, the walk of `highlight` as a function
  (`TagsFrom`/`Tags`), the walk as a method (`Walk`), and the lemmas
  about the tags.
- `row.dfy`. Module `Rows` holds the `Row` class. Around it are the
  rendering specification (`Pieces`, `Visible`) and the search
  specification: `Hit`, `Search` for what `find` reports, and
  `MatchesFrom` for what `highlight` collects.
- `documents.dfy`. Module `Documents` holds `Lines` (the semantics of
  `str::lines`), its lemmas, and the `Document` class.

Behaviour of the source that the model keeps as written:

- Columns are grapheme cluster indices. `find` searches the character
  text of the window of columns. It turns the occurrence back into a
  column by looking for a cluster that starts exactly there. An
  occurrence that starts inside a cluster yields no hit at all, even
  when a later occurrence would start on a boundary (`Rows.Search`).
- `highlight` collects match columns (cluster indices). Its tag walk,
  however, steps through characters and tests whether the character
  index is one of the match columns. The two agree only when the
  clusters before a match are single characters. The model states the
  walk over characters exactly as written (`Highlighting.TagRules`).
- `render` clamps `end` with the byte length of the text, not with the
  cluster count. `Rows.VisibleColumns` proves that this never hides a
  column, because a text has at least as many bytes as clusters.
- `insert`, `delete`, `append` and `split` never touch the tags. A row
  returned by `split` has no tags.
- `find` checks `at > len`, not `at >= len`. A forward search from
  `len` therefore searches an empty window and finds nothing.
- The walk of `highlight` updates its separator flag only for characters
  it classifies. A match run skips that update, so the first character
  after a run is classified with the flag of the last character before
  the run, or of the last one before a chain of adjacent runs
  (`Highlighting.SeparatorBefore`). Take a character right after a run
  that lies outside every run, so it is not the start of another match.
  With numbers on, a digit there is a number exactly when the last
  character before the run that lies outside every run is a separator,
  or when there is no such character (`Highlighting.NumberAfterRun`,
  with examples in `Highlighting.SeparatorSurvivesRuns`).
- `Document::open` splits with today's `str::lines`. A bare `\r` at the
  end of an unterminated last line is kept; only a `\r` right before a
  line feed is stripped. Older Rust toolchains also stripped that final
  `\r`, and the model does not follow them.

## Model

| member | source | states |
|---|---|---|
| Rows.Row.From | src/row.rs:14-22 | the row holds the text as given, no tags, and a cached length equal to the number of clusters of the text |
| Rows.Row.Len | src/row.rs:237-239 | the cached length is the number of clusters |
| Rows.Row.IsEmpty | src/row.rs:242-244 | true exactly when the length is 0, which is exactly when the text is empty |
| Rows.VisibleColumns | src/row.rs:27-38 | the columns render visits: `end` clamped to the byte length and `start` to that; since there are at least as many bytes as clusters, the visible columns are from `min(start, min(end, len))` up to `min(end, len)` |
| Rows.Row.Render | src/row.rs:26-64 | the output is the pieces of the visible columns from `min(start, min(end, len))` up to `min(end, len)`, in order, followed by one reset: each column gives a colour change when its tag (missing tags count as `None`) differs from the colour in effect (initially `None`), then its first character with a tab shown as a space |
| Rows.RenderedText | src/row.rs:40-58 | leaving out colour changes, rendering shows exactly the first character of each visible column's cluster, in order, tabs as spaces |
| Rows.NoColorWithoutTags | src/row.rs:41-51 | a row whose tags are all `None`, or that has none, renders without any colour change |
| Rows.NoResetInside | src/row.rs:61-63 | the reset occurs only as the final piece |
| Rows.Row.Insert | src/row.rs:66-85 | at or past the last column, `c` is pushed at the end; otherwise `c` becomes its own cluster right before column `at` and the other clusters keep their order; the length grows by exactly one; tags unchanged |
| Rows.InsertScan | src/row.rs:73-84 | the loop of insert builds the text of the clusters with `c` before cluster `at` and counts one more column than there were |
| Rows.Row.Delete | src/row.rs:87-102 | at or past the last column nothing changes; otherwise exactly cluster `at` is removed, the others keep their order and the length drops by one; tags unchanged |
| Rows.DeleteScan | src/row.rs:92-99 | the loop of delete builds the text of every cluster but cluster `at` and counts one column fewer |
| Rows.Row.Append | src/row.rs:104-107 | the text and clusters of the other row follow this row's and the lengths add up; tags unchanged |
| Rows.Row.Split | src/row.rs:109-132 | the first `min(at, len)` clusters stay, the rest move in order to a fresh row with `len - min(at, len)` columns and no tags; this row's tags unchanged |
| Rows.SplitScan | src/row.rs:110-123 | the loop of split: the text of the clusters before `min(at, len)`, the text of the rest, and the two counts |
| Rows.InsertThenDelete | src/row.rs:66-102 | inserting a character at any column up to the length and deleting at that column restores the text, clusters, length and tags |
| Rows.SplitThenAppend | src/row.rs:104-132 | splitting a row and appending the part split off restores its text, clusters, length and tags |
| Rows.Search | src/row.rs:135-171 | no hit for an empty query or for `at > len`; a forward hit lies in `[at, len)`, a backward hit below `at` |
| Rows.SearchReports | src/row.rs:135-171 | the search reports column `j` exactly when the first occurrence (forward) or the last occurrence (backward) of the query inside the window's text starts where cluster `j` starts, and reports nothing otherwise |
| Rows.Row.Find | src/row.rs:135-171 | find, with its window, its substring search and its loop over cluster offsets, returns exactly what the search specification reports |
| Rows.WindowSearch | src/row.rs:146-157 | searching the collected text of the window finds the leftmost (forward) or rightmost (backward) occurrence within the window of the row's text, and nothing when there is none |
| Rows.HitIsOccurrenceStart | src/row.rs:159-168 | given the extreme occurrence, a column is the hit exactly when it starts at that occurrence |
| Rows.LocateReports | src/row.rs:159-168 | scanning the columns of the window in order finds the hit when there is one and nothing otherwise |
| Rows.Row.CollectMatches | src/row.rs:181-191 | the search loop of highlight returns exactly the specified match columns |
| Rows.MatchesFromSearches | src/row.rs:181-191 | the collected columns are the successive forward hits: the first search starts at the start column, each later one at the previous match plus the word's cluster count, and the search after the last match finds nothing |
| Rows.MatchesFromSpaced | src/row.rs:181-191 | the collected columns lie in the row from the start column on, strictly increase and are at least a word's cluster count apart, so they never overlap |
| Rows.WordMatches | src/row.rs:181-191 | no matches without a word; the matches of a word are columns of the row, strictly increasing and a word apart |
| Rows.Row.Highlight | src/row.rs:173-234 | the new tags are those of the walk over the text's characters, with the word's match columns and the numbers option, exactly one tag per character; text, clusters and length unchanged |
| Rows.WordMatchesFit | src/row.rs:181-191 | every match column of the word plus the word's cluster count lies within the character text, since each occurrence lies in the text and starts at least as many characters in as its column |
| Rows.MatchesFit | src/row.rs:181-191 | every column the search loop collects plus the query's cluster count lies within the character text |
| Highlighting.TagsLength | src/row.rs:196-231 | when no match run reaches past the last character, the walk yields exactly one tag per character |
| Highlighting.Classify | src/row.rs:214-227 | a character outside a match is never a match; it is a number exactly when numbers are on and either it is an ASCII digit after a separator or after a number, or it is a dot after a number |
| Highlighting.Walk | src/row.rs:193-231 | the walk loop produces exactly the specified tag sequence |
| Highlighting.PushRun | src/row.rs:198-203 | at a match column, one match tag per cluster of the word is pushed and the index advances by the same count |
| Highlighting.TagRules | src/row.rs:193-231 | for any non-overlapping match columns there is a tag for every character (extra match tags follow only when a run reaches past the end); a tag is a match exactly inside the run of a match column the walk reaches; every other tag stands for a character and is the number rule applied to it, with the tag before it (`None` at the start) and the separator flag of the last character before it outside every match run (true when there is none), since a run skips the flag update; right after a run, a dot is never a number and a number is a digit |
| Highlighting.NumberAfterRun | src/row.rs:196-230 | for a character right after a match run that is itself outside every run, the tag is a number exactly when numbers are on, the character is an ASCII digit and the separator flag from before the run (that of the last character before the run outside every run, or true when there is none) is set |
| Highlighting.SeparatorSurvivesRuns | src/row.rs:196-230 | three concrete rows with numbers on: for `x1` with a run at 0 the digit is a number; for `ax1` with a run at 1 it is not; for `.xy1` with adjacent runs at 1 and 2 it is, by the flag of the dot |
| Highlighting.NumberRuleWithoutMatches | src/row.rs:207-229 | with no match columns, for any word length, there is exactly one tag per character, each being the number rule applied with the previous character's separator flag (true at the start) and the previous tag |
| Highlighting.NoNumbersWhenOff | src/row.rs:214-227 | with numbers off no tag is a number, whatever the word |
| Highlighting.PlainWithoutWordOrNumbers | src/row.rs:193-231 | with neither a word nor numbers there is exactly one `None` tag per character |
| Text.IndexOf | src/row.rs:153-154 | the leftmost occurrence of the query, and nothing when it does not occur |
| Text.LastIndexOf | src/row.rs:155-156 | the rightmost occurrence of the query, and nothing when it does not occur |
| Text.ByteLen | src/row.rs:27 | the UTF-8 length lies between the character count and four times it |
| Documents.Document.constructor | src/document.rs:5-8 | the default document has no rows |
| Documents.Document.Open | src/document.rs:14-23 | one fresh row per line of the contents, in order: row `i` is `Row::from` of line `i`, with no tags, and holds no line feed; the rows are distinct objects |
| Documents.LinesCount | src/document.rs:18-20 | the number of rows is the number of line feeds plus one for a last line without a terminator; a final terminator adds no empty row |
| Documents.LinesHaveNoNewline | src/document.rs:18-19 | no line holds a line feed |
| Documents.LinesOfJoined | src/document.rs:18-20 | lines joined with `\r\n`, or with `\n` when no line ends in a carriage return, split back into the same lines: the text of a line is never changed |
| Documents.TrailingTerminator | src/document.rs:18-20 | adding a final `\r\n` (or a `\n`, when the last line does not end in a carriage return) after an unterminated last line gives the same lines |
| Documents.Document.Row | src/document.rs:26-28 | the row at `index` is present exactly when `index` is below the row count, and then it is that row |
| Documents.Document.RowLen | src/document.rs:31-33 | the length of the row at `index`, and 0 for any index past the last row |
| Documents.Document.IsEmpty | src/document.rs:36-38 | true exactly when the row count is 0 |
| Documents.Document.Len | src/document.rs:41-43 | the number of rows |

## Left out

- src/editor.rs (terminal raw mode, key reading, screen drawing) is not part of this model: it is terminal I/O.
- Grapheme segmentation (Unicode annex 29) is an input, not a computation. `Row::from` takes the clusters of its text, `Document::open` takes a segmentation function, and `highlight` takes the word as its clusters.
- Rows.Row.Insert: the inserted character is modelled as a cluster of its own. A character that would join a neighbouring cluster (a combining mark, say) is not modelled: the source counts it as one more column, but its next re-segmentation of the string would merge it, while the model keeps it apart.
- Rows.Row: the row keeps its clusters in a field; the source re-segments its string with `graphemes(true)` on each operation. The two agree as long as edits do not merge clusters, which the Insert and Append lines here assume.
- Rows.Row.Append: the clusters of the two rows are assumed not to merge at the seam.
- Rows.Row.Find: to map the occurrence back to a column, the source re-segments the collected substring. The model uses the row's own clusters of the window, so a segmentation that differs inside the window is not modelled.
- Rows.Row.Find: byte offsets are modelled as character offsets. UTF-8 keeps the order of characters and their boundaries, so a search and a match of offsets give the same columns either way.
- Rows.Row.CollectMatches: the `checked_add` overflow break cannot happen, because integers are unbounded; `usize` width is not modelled.
- Rows.Row.Render: termion's colour escape strings are modelled as `Color(tag)` and `Reset` pieces; `to_color` and the colours themselves are not modelled.
- Rows.Row.Highlight: `HighlightingOptions` is modelled as its `numbers` flag; the highlighting module (the tag type's other variants and their colours) is not part of this model.
- `Row::as_bytes` and the derived `Row::default` are not modelled: one is a byte view for saving, the other is not used by the modelled code.
- Documents.Document.Open: reading the file and its I/O error are not modelled; the contents come in as a string.
