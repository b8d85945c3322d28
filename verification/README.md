# Blog front matter and post search, in Dafny

This project models the two pieces of pure logic inside a static blog's
browser scripts:

- **The front-matter reader** `parseFrontMatter` (js/post-loader.js). It
  removes one leading byte-order mark. It then recognises a header between
  `---` lines with the regular expression
  `/^---\r?\n([\s\S]*?)\r?\n---\r?\n([\s\S]*)$/`. Each header line is read
  as `key: value`. One pair of matching outer quotes is stripped from the
  value. For `tags`, a bracketed value goes to `JSON.parse`, with a
  comma-split fallback when that throws. The result is the metadata object
  and the remaining markdown.
- **The post search** (js/search.js). It covers three parts:
  - the filter of `performSearch`: a case-insensitive substring query AND an
    exact any-tag-selected test;
  - the toggle a tag button applies to the selected-tag set;
  - the sorted, repeat-free tag catalogue that `renderTags` lists.

Files:

- `text.dfy` (module `Text`): the `String.prototype` operations the scripts
  use. These are `trim`, `toLowerCase`, `indexOf`, `includes`, and `split`
  on one character.
- `front_matter.dfy` (module `FrontMatter`): the reader, the regular
  expression as a first-match search, and the per-line parse and the
  metadata object.
- `lex.dfy` (module `Lex`): the default string order of
  `Array.prototype.sort`, and insertion into a sorted, repeat-free sequence.
- `search.dfy` (module `Search`): the filter, the toggle and the catalogue.

How the models relate to their references:

- The regular expression is modelled operationally: `FindClosing` scans for
  the first closing delimiter. It is proved equal to the declarative
  reading, "the text is opening + header + closing + body, with the
  shortest header".
- The metadata object built by `forEach` is proved to meet `CollectSpec`:
  - a key is present iff a line carries it;
  - its value comes from the last such line.

  `CollectSpec` is shown to determine the object.
- The search loop is proved equal to a recursive filter. That filter is in
  turn proved to be the subsequence of the posts at the kept indices.

## Model

| member | source | states |
|---|---|---|
| FrontMatter.ParseFrontMatter | js/post-loader.js:16-67 | Never fails. If the mark-stripped text has no opening/header/closing/body decomposition, the result is empty metadata and that text. Otherwise the content is the body of a decomposition with the shortest possible header, and the metadata is collected from that header's lines. |
| FrontMatter.StripBom | js/post-loader.js:17-20 | A text starting with U+FEFF is that mark followed by the result; any other text is returned as it is. `NoBomUnchanged` and `SecondBomKept` show that only one mark goes. |
| FrontMatter.NoBomUnchanged | js/post-loader.js:17-20 | A leading U+FEFF is dropped before anything else: adding one to a text that does not start with it changes nothing. |
| FrontMatter.SecondBomKept | js/post-loader.js:17-28 | Only one mark is removed. A second mark stays in the content, and the text then yields no metadata. |
| FrontMatter.NewlineAt | js/post-loader.js:23 | `\r?\n` matches at i exactly when there is an LF there or a CRLF there. The matched text is then `\n` or `\r\n`. |
| FrontMatter.OpeningEnd | js/post-loader.js:23 | A found opening is a prefix that is exactly `---\n` or `---\r\n`. |
| FrontMatter.OpeningEndComplete | js/post-loader.js:23 | Every text starting with `---\n` or `---\r\n` has its opening found, with that length. |
| FrontMatter.ClosingAt | js/post-loader.js:23 | A closing found at p spans exactly one of the four forms `\r?\n---\r?\n`. |
| FrontMatter.ClosingAtComplete | js/post-loader.js:23 | Each of the four closing forms present at p is found at p, with its own length. |
| FrontMatter.FindClosing | js/post-loader.js:23 | The lazy `*?`: the reported closing is at the first position from the header start where one matches. None means no position matches. |
| FrontMatter.SplitBlock | js/post-loader.js:22-31 | The regex match: whatever it captures as header and body is an opening/header/closing/body decomposition of the text. `SplitBlockShortest` adds the converse and the shortest-header choice. |
| FrontMatter.SplitBlockShortest | js/post-loader.js:22-28 | The regex fails iff no opening/header/closing/body decomposition exists. When it matches, it captures a decomposition whose header is no longer than any other's. |
| FrontMatter.SplitBlockComplete | js/post-loader.js:22-26 | Every decomposition makes the regex match, with a header no longer than that decomposition's. |
| FrontMatter.NoClosingIsText | js/post-loader.js:26-28 | With no closing delimiter after the opening, the result is empty metadata and the whole text. |
| FrontMatter.EmptyHeaderIsText | js/post-loader.js:22-28 | `---\n---\n` yields no metadata and is returned as it is. The closing `---` needs a line break of its own before it. |
| FrontMatter.UnterminatedClosingIsText | js/post-loader.js:22-28 | For every header in which no line after the first starts with `---` and which does not end in CR, `---\n` + header + `\n---` with no line break after the final `---` closes nothing: no metadata, and the whole text is returned. |
| FrontMatter.RenderRoundTrip | js/post-loader.js:22-66 | A document written as `---\n` + h + `\n---\n` + body reads back as that body, unmodified, and the metadata of h's lines. This holds for any header with no `---` at a line start and no trailing CR. |
| FrontMatter.SplitRendered | js/post-loader.js:22-31 | For such a document, the regex captures exactly h and body. |
| FrontMatter.NoEarlyClosing | js/post-loader.js:23 | No closing delimiter starts inside such a header. |
| FrontMatter.FindClosingFirst | js/post-loader.js:23 | The scan reports a matching position when no earlier one from its start matches. |
| FrontMatter.SplitLines | js/post-loader.js:35 | `split(/\r?\n/)` gives one piece more than there are line feeds, and no piece contains a line feed. `SplitLinesSplitOn` fixes the pieces themselves. |
| FrontMatter.SplitLinesSplitOn | js/post-loader.js:35 | For every text, mixed line endings included, the pieces are those of the split on LF. Every piece but the last loses one trailing CR; the last is kept as it is. |
| FrontMatter.MixedLineEnds | js/post-loader.js:35 | A CRLF break and an LF break in the same header each cut one line: `a` CRLF `b` LF `c` gives `a`, `b`, `c`. |
| FrontMatter.SplitLinesJoinCrlf | js/post-loader.js:35 | Lines joined with CRLF split back into exactly those lines. |
| FrontMatter.SplitLinesJoinLf | js/post-loader.js:35 | Lines joined with LF split back into exactly those lines, when none but the last ends in CR. |
| FrontMatter.KeyOf | js/post-loader.js:37-39 | A line yields no key iff it has no colon or its first colon is its first character. |
| FrontMatter.ParseLine | js/post-loader.js:36-62 | A line yields an entry iff it yields a key, and the entry carries that key. |
| FrontMatter.ParseLineAtFirstColon | js/post-loader.js:37-40 | A line splits at its first colon. The key is the trimmed text before it. The value is the trimmed text after it, later colons included. |
| FrontMatter.TrimmedLine | js/post-loader.js:39-62 | `key: value` with trimmed key and value stores the value unquoted and interpreted for that key. |
| FrontMatter.PlainLineRoundTrip | js/post-loader.js:39-62 | A trimmed, unquoted value under a key other than `tags` is stored as written. |
| FrontMatter.QuotedLineRoundTrip | js/post-loader.js:43-48 | A value in matching quotes is stored without them, whatever it contains. |
| FrontMatter.StripQuotes | js/post-loader.js:43-48 | An unwrapped value is unchanged. A wrapped value of length at least 2 loses exactly one character at each end, both the same quote. A lone quote becomes empty. |
| FrontMatter.StripQuotesRoundTrip | js/post-loader.js:43-48 | Quoting a text with `"` or `'` and stripping gives the text back. |
| FrontMatter.StripTagQuotes | js/post-loader.js:58 | The text is the result with one quote in front exactly when the text starts with a quote, and one quote after exactly when what follows that quote is non-empty and ends with a quote. Nothing else is removed. |
| FrontMatter.StripTagQuotesEnds | js/post-loader.js:58 | A quote of either kind at each end is removed, whatever the inner text holds, quotes included. One quote at one end is removed when the inner text does not end in a quote on that side. A text without quote ends is unchanged. |
| FrontMatter.StripTagQuotesRuns | js/post-loader.js:58 | Repeated quotes lose only one per end: `a''` becomes `a'`, and `'''` becomes `'`. |
| FrontMatter.Interpret | js/post-loader.js:50-62 | A non-`tags` key, or an unbracketed value, stores the string. For bracketed `tags`, the result is the JSON array when `JSON.parse` succeeds and the comma-split fallback when it throws. |
| FrontMatter.FallbackTags | js/post-loader.js:55-58 | The fallback yields comma count + 1 tags. Tag i is piece i of the inner text split on commas, trimmed, then unquoted at the ends. |
| FrontMatter.FallbackTagsOfPieces | js/post-loader.js:55-58 | Pieces joined by commas inside brackets come back one tag per piece. |
| FrontMatter.FallbackTagsRoundTrip | js/post-loader.js:55-58 | A list written `[t1, "t2", t3]`, each tag bare or double-quoted, reads back as exactly those tags. The tags must have no commas and no space or quote at their ends. |
| FrontMatter.TagPieceRead | js/post-loader.js:58 | A rendered tag, with or without a leading blank, trims and unquotes back to the tag. |
| FrontMatter.RenderedTagTrimmed | js/post-loader.js:58 | A rendered tag has no comma, is already trimmed, and unquotes to the tag. |
| FrontMatter.TagsLineFallback | js/post-loader.js:50-59 | A `tags: [...]` line that `JSON.parse` rejects stores the comma-split fallback of the bracketed value. |
| FrontMatter.Assign | js/post-loader.js:62 | `metadata[key] = value` sets that key and leaves every other key as it was. Assigning to `__proto__` changes nothing. |
| FrontMatter.ParseLines | js/post-loader.js:35-36 | One parse result per line, in order. |
| FrontMatter.Collect | js/post-loader.js:36-64 | Builds the metadata object line by line. A key is present iff some line carries it (`__proto__` aside), and its value is the one the last such line gives. |
| FrontMatter.CollectStep | js/post-loader.js:36-64 | Assigning one more entry keeps the last-wins description true. |
| FrontMatter.LastWithExtend | js/post-loader.js:36-64 | An entry without the key keeps the earlier last carrier of that key. |
| FrontMatter.CollectSpecUnique | js/post-loader.js:36-64 | At most one metadata object meets the last-wins description, so the description fixes the result. |
| FrontMatter.LastWithUnique | js/post-loader.js:62 | Only one value can come from the last line carrying a key. |
| Text.Trim | js/post-loader.js:39-40 | `trim` keeps nothing or a text whose both ends are not spaces. It is empty iff the input is all spaces. |
| Text.TrimStart | js/post-loader.js:39-40 | What is dropped is all space, and what is kept does not start with a space. |
| Text.TrimEnd | js/post-loader.js:39-40 | What is dropped is all space, and what is kept does not end with a space. |
| Text.TrimStartSuffix | js/post-loader.js:39-40 | The left trim keeps a suffix of its input. |
| Text.TrimEndPrefix | js/post-loader.js:39-40 | The right trim keeps a prefix of its input. |
| Text.TrimPadded | js/post-loader.js:39-40 | Trimming recovers a text whose ends are not spaces from any all-space padding on either side. |
| Text.TrimAfterBlank | js/post-loader.js:40 | The blank after the colon does not reach a trimmed value. |
| Text.ToLower | js/search.js:35 | Lower-casing keeps the length and maps each character by the ASCII case map. |
| Text.ToLowerTrimCommute | js/search.js:35 | Lower-casing then trimming equals trimming then lower-casing. |
| Text.TrimStartLower | js/search.js:35 | The left trim commutes with lower-casing. |
| Text.TrimEndLower | js/search.js:35 | The right trim commutes with lower-casing. |
| Text.IndexOf | js/post-loader.js:37 | `indexOf` is -1 iff the character is absent. Otherwise it is a position of the character with no occurrence before it. |
| Text.Includes | js/search.js:41-44 | `includes` holds iff the needle occurs at some position of the haystack. |
| Text.SplitOn | js/post-loader.js:57 | `split(",")` gives separator count + 1 pieces, none containing the separator, which join back to the input. |
| Text.SplitJoin | js/post-loader.js:57 | Splitting undoes joining when no piece contains the separator. |
| Text.JoinBlankAfterFirst | js/post-loader.js:57 | A `", "`-joined list is the `","`-join of the items with a blank before each one but the first. |
| Text.JoinCommaSpace | js/post-loader.js:57 | A blank then a `", "`-join equals the `","`-join of the blank-prefixed items. |
| Lex.Less | js/search.js:108 | The default order of `sort()`: `a` sorts before `b` iff `a` is a proper prefix of `b`, or at the first position where they differ `a` has the smaller code unit. |
| Lex.LexBeforeCons | js/search.js:108 | A common first code unit does not change the order. |
| Lex.LessIrreflexive | js/search.js:108 | No string sorts before itself. |
| Lex.LessAsymmetric | js/search.js:108 | Two strings never sort before each other. |
| Lex.LessTransitive | js/search.js:108 | The sort order is transitive. |
| Lex.LessTotal | js/search.js:108 | Any two different strings are ordered one way or the other. |
| Lex.Insert | js/search.js:98 | Inserting into a sorted, repeat-free list keeps it sorted and repeat-free, and its elements become the old ones plus the new tag. |
| Lex.SortedUnique | js/search.js:107-108 | Two sorted, repeat-free lists with the same elements are equal: the sorted listing of a set is unique. |
| Lex.FirstIsLeast | js/search.js:107-108 | Nothing sorting before the head of a sorted list is in it. |
| Lex.TailExcludesHead | js/search.js:107-108 | The tail of a sorted, repeat-free list holds exactly the other elements. |
| Search.NormalizeQuery | js/search.js:35 | The query has no space at either end, is no longer than the typed text, and lower-casing leaves it as it is. `BlankQuery` and `QueryIgnoresCase` characterise it further. |
| Search.MatchesQuery | js/search.js:39-44 | A post matches iff the query is empty, or it occurs at some position of the lower-cased title, excerpt, description or one of the lower-cased tags. |
| Search.MatchesTags | js/search.js:47-49 | A post matches iff no tag is selected, or some selected tag is among its tags. |
| Search.Keep | js/search.js:51 | A post is kept iff it passes both the query test and the tag test. With an empty query only the tag test decides, and with no selected tag only the query test decides. |
| Search.Filter | js/search.js:37-52 | The filter keeps only matching posts that occur in the input, and never yields more posts than it was given. |
| Search.FilterCounts | js/search.js:37-52 | Each matching post occurs in the result as often as in the input. A non-matching post does not occur at all. |
| Search.PerformSearch | js/search.js:34-55 | The loop over the posts returns the filter of the posts under the lower-cased, trimmed query. |
| Search.FilterAppend | js/search.js:37-52 | Filtering distributes over concatenation, so order is kept. |
| Search.FilterIdempotent | js/search.js:37-52 | Re-filtering a result with the same query and tags returns it unchanged. |
| Search.FilterKeepsAll | js/search.js:37-52 | When every post matches, the result is the input. |
| Search.BlankSearchShowsAll | js/search.js:35-52 | A blank query with no tag selected returns every post, in order. |
| Search.BlankQuery | js/search.js:35-40 | The normalised query is empty, so that `!query` holds, iff the typed text is all spaces. |
| Search.SingleTagSelects | js/search.js:47-51 | With no query and one selected tag, a post is kept iff that tag is among its tags. |
| Search.QueryIgnoresCase | js/search.js:35 | Typing in another case gives the same query, and the query is the lower-cased trimmed text. |
| Search.KeptIndices | js/search.js:37-52 | Ascending positions, within range, containing exactly the positions of the matching posts. |
| Search.At | js/search.js:37-52 | Picking posts by index gives one post per index, in index order. |
| Search.FilterAtKeptIndices | js/search.js:37-52 | The filter of a suffix is the posts at the suffix's matching positions. |
| Search.FilterIsSubsequence | js/search.js:37-52 | The filter is exactly the subsequence of the posts at the matching positions. |
| Search.ToggleTag | js/search.js:125-131 | A click puts the tag in the selection iff it was not there, and leaves every other tag as it was. |
| Search.ToggleTwice | js/search.js:125-131 | Two clicks on the same tag restore the selection. |
| Search.ToggleCommutes | js/search.js:125-131 | Clicks on two tags give the same selection in either order. |
| Search.TagCatalogue | js/search.js:96-108 | The catalogue is sorted ascending without repeats and holds exactly the tags of all posts. |
| Search.AllTagsStep | js/search.js:96-99 | Going through one more post adds exactly that post's tags. |
| Search.CatalogueUnique | js/search.js:107-108 | Only one list meets the catalogue's contract. |

## Left out

- Page rendering, `escapeHtml`, `innerHTML` templating and event wiring in
  js/search.js are not part of this model. Each is DOM work.
- `debounce` (js/search.js:21-31) is not part of this model: it is a timer.
- `Search.ToggleTag` takes the tag string directly. In the page the tag is
  read back from the button's `data-tag="…"` attribute, written with
  `escapeHtml`. That function escapes `&`, `<` and `>` but not `"`, so a tag
  containing `"` is cut short in the attribute: `a"b` is written
  `data-tag="a"b"`, which the HTML parser reads as `a`. A click on its
  button then selects the tag's text before its first `"`. That string may
  or may not be another post's tag; if it is, that post is shown.
- The rest of js/post-loader.js is not part of this model: fetching posts,
  marked.js, Prism, Giscus, and the header rendering. It is I/O or
  third-party code.
- js/app.js and js/theme.js are not part of this model. They are network,
  storage and DOM code.
- `JSON.parse` is an oracle parameter (`JsonArrayParser`). It returns the
  array's elements or None where it would throw. JSON syntax is not
  modelled, so `JsonList` values carry whatever the oracle returns.
- `Text.ToLower`: maps only `A`-`Z`. JavaScript's full Unicode case mapping
  is not modelled, so outside ASCII letters the model differs from
  `toLowerCase` in both directions. A title "Éclair" and the query "é"
  match in JavaScript but not in the model. A title "ΑΣ" and the query "Σ"
  do not match in JavaScript, where the title becomes "ας" with a final
  sigma and the query "σ", but do match in the model.
- Text is assumed to lie in the Basic Multilingual Plane. There one `char`
  is one UTF-16 code unit, so JavaScript's lengths, indices and sort order
  carry over. Characters outside it (surrogate pairs) are not modelled.
- `Text.IsSpace` fixes the set `trim` removes as the WhiteSpace and
  LineTerminator code points of ECMAScript. It does not follow future
  Unicode changes to the space-separator category.
- `Search.Post`: every field is a string and `tags` is a list of strings.
  The filter never reads `file`, `date` or `category`. A post whose
  `title`, `excerpt`, `description` or `tags` is missing or of another type
  can make the search throw, but only when the query test or the tag test
  reads that field. With an empty query, `!query` stops the query test
  before any field is read. The model does not cover such posts. Loading
  the post list is not part of this model.
- An empty header is not recognised: `---\n---\n` alone is not a header,
  because the closing `---` needs a line break of its own before it
  (`FrontMatter.EmptyHeaderIsText`). A later `\n---\n` still closes a
  header whose first line is `---`, as `FrontMatter.RenderRoundTrip`
  allows such a header.
- `FrontMatter.RenderRoundTrip`: proved under a sufficient condition.
  - The condition: no header line after the first starts with `---`, and
    the header does not end in CR.
  - Some other headers also read back unchanged. An example is a line
    `---x`, which does not close the header.
