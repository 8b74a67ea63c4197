# Lyric pipeline of the anisong lyrics viewer

The viewer (src/main.ts) shows song lyrics in several languages side by
side. A lyric file is plain text. Each line is either:

- a tag line such as `[ja]こんにちは` or `[ romaji ] Konnichiwa`;
- a continuation line that extends the text of the last tag;
- a blank line that ends a block.

`parseTaggedLyrics` turns the file into rows. A row maps a tag (`ja`,
`romaji`, `zh`, `zh-jp` or the catch-all `all`) to its text.
`renderLyrics` then shows, for each row:

- the trimmed texts of the languages that are selected and that have text
  somewhere in the song, in the fixed order ja, romaji, zh, zh-jp;
- when a row has none of them, its `all` text as a fallback.

The page keeps three pieces of state:

- the current song;
- the set of selected languages;
- a cache of parsed songs.

The language toggles and `selectSong` change that state.

The model has six modules:

- `Text`: the ECMAScript string operations the parser relies on. These are
  `trim`, `trimEnd`, the white space of `\s`, ASCII `toLowerCase`, the two
  `replace` calls (byte-order mark, CR LF and CR) and `split("\n")`. It
  also defines `Join`, which the source does not call: the lemmas use it to
  state the split round trip and the line-end results. White space is the
  exact ECMAScript WhiteSpace and LineTerminator set.
- `Tags`: the language keys, the display order `LANGS`, and `mapTag` as a
  cascade of comparisons (`Resolve`). It is proved equal to a lookup in the
  alias table `ALIASES`.
- `Parser`: the parse as a specification and as the program's loop.
  - The specification is one `Step` per line and a fold `RunFrom`, with
    `Parse` built on them.
  - The loop is the method `ParseTaggedLyrics`, which updates `rows`, `row`
    and `last`. It is proved equal to `Parse`.
  - The properties of the parse follow, proved on the specification.
- `Selector`: the display logic of `renderLyrics` and the availability test
  of `updateToggleAvailability`.
  - `Select` is a function from rows and a selection to "no content" or
    display lines.
  - `RenderLyrics` and `RenderRow` are the loops of the program, proved
    equal to it.
- `Session`: the page state as a class `LyricsSession` with the toggle
  handler and `selectSong`. The fetched text is a parameter.
- `Example`: a file of two blocks followed through the parser and the
  selector under two selections.

Parsing is a function of the text, so parsing the same text twice gives the
same rows by construction.

An existing entry that is empty is falsy in `row[key] ? … : …`, so new
content replaces it instead of being joined to it with a newline
(src/main.ts:136, 139). The model does the same (`Parser.Appended`,
`Parser.AccumulatedSnoc`).

The number of rows is at most the number of blank lines plus one
(`Parser.ParseRowCount`). Every blank line counts, including consecutive
ones.

## Model

| member | source | states |
|---|---|---|
| Text.TrimEnd | src/main.ts:123 | `trimEnd` keeps a prefix. Everything it drops is white space, and the result is empty or ends in a non-white character. |
| Text.Trim | src/main.ts:104 | `trim` gives a shorter text. It is empty exactly when the input is all white space, and otherwise starts and ends with a non-white character. |
| Text.TrimStart | src/main.ts:104 | `trimStart` keeps a suffix. Everything it drops is white space, and the result is empty or starts with a non-white character. |
| Text.LowerAscii | src/main.ts:104 | Lower-casing keeps the length and maps every character through ASCII lower-casing. |
| Text.StripBom | src/main.ts:96 | Exactly one leading U+FEFF is removed, and a text without one is unchanged. |
| Text.ToLF | src/main.ts:96 | After normalisation no CR is left, the text does not grow, and a text without CR is unchanged. What each line end becomes is stated by `ToLFJoinSeps`. |
| Text.ToLFJoinSeps | src/main.ts:96 | Each line end, whether LF, CR LF or CR, becomes exactly one LF, even when the styles are mixed within a text. The lines are free of CR and LF. A lone CR followed by an empty line is never followed by an LF end, because the source would read that pair as one CR LF. |
| Text.Split | src/main.ts:97 | `split("\n")` gives at least one piece. No piece contains LF, and joining the pieces with LF gives the text back. |
| Text.SplitJoin | src/main.ts:97 | Splitting LF-free lines joined with LF gives the lines back (the round trip the other way). |
| Text.ToLFJoin | src/main.ts:96 | Lines joined with CR LF, CR or LF all normalise to the LF-joined text. |
| Text.ToLFIdempotent | src/main.ts:96 | Normalising line ends twice is the same as once. |
| Text.StripBomToLF | src/main.ts:96 | Removing the byte-order mark and normalising line ends commute. |
| Text.TrimEndAllWhite | src/main.ts:123-124 | A right-trimmed line is all white space exactly when the raw line is. |
| Text.TrimPadded | src/main.ts:104 | White space around a text does not change its `trim`. |
| Text.TrimLower | src/main.ts:104 | `trim` and ASCII lower-casing commute. |
| Tags.Rank | src/main.ts:5-10 | Every key has a position in LANGS, and LANGS holds that key at that position. |
| Tags.MapTag | src/main.ts:103-112 | `mapTag`: the label is trimmed, lower-cased and resolved. It has no contract of its own; `MapTagAliases`, `MapTagCanonical`, `MapTagPadded` and `MapTagCaseInsensitive` state what it returns. |
| Tags.Resolve | src/main.ts:105-111 | The cascade of comparisons on the normalised label. It has no contract of its own; `ResolveAliases` proves it is the lookup in `ALIASES`. |
| Tags.ResolveAliases | src/main.ts:105-111 | The cascade of comparisons in `mapTag` is a lookup in the alias table: an alias gives its tag and any other text gives none. |
| Tags.MapTagAliases | src/main.ts:103-112 | `mapTag` trims and lower-cases the label, then resolves exactly the listed aliases and nothing else. |
| Tags.MapTagCanonical | src/main.ts:103-112 | Every canonical tag name resolves to itself. |
| Tags.MapTagPadded | src/main.ts:104 | White space around a label does not change the tag it resolves to. |
| Tags.MapTagCaseInsensitive | src/main.ts:104 | Labels equal up to ASCII case resolve to the same tag. |
| Tags.UpperCaseAlias | src/main.ts:104-105 | `JP` and `ja` both resolve to the ja tag. |
| Parser.Classify | src/main.ts:124-128 | Sorts a right-trimmed line into blank, tag line with its two groups, or continuation. It has no contract of its own; `ClassifyBlank`, `ClassifySound` and `ClassifyTagMatch` tie it to the blank test and to the regular expression. |
| Parser.Flush | src/main.ts:114-120 | `pushRowIfAny`. It has no contract of its own; `StepBlank` and `FlushRowsNonEmpty` state its effect. |
| Parser.Appended | src/main.ts:136-139 | The update `row[key] ? row[key] + "\n" + x : x`. It has no contract of its own; `AppendedAccumulated` and `AccumulatedSnoc` state it as accumulation in source order. |
| Parser.Step | src/main.ts:122-140 | One iteration of the loop over the lines. It has no contract of its own; `StepBlank`, `StepKnownTag`, `StepUnknownTag`, `StepContinuation` and `StepRows` state each case. |
| Parser.Lines | src/main.ts:96-97 | The lines of a text after the byte-order mark and line-end normalisation. It has no contract of its own; `ParseJoinedLines`, `ParseIgnoresBom`, `ParseLineEndStyles` and `ParseMixedLineEnds` state its effect on the parse. |
| Parser.ParseLines | src/main.ts:99-144 | The rows of a sequence of lines, with the final flush. It has no contract of its own; the `RunFrom` lemmas state its properties. |
| Parser.Parse | src/main.ts:95-145 | The parse of a text as a specification. It has no contract of its own; `ParseTaggedLyrics` is proved equal to it, and `ParseRowsNonEmpty`, `ParseRowCount`, `UnknownTagBlockIgnored` and `BlankLineEndsBlock` state its properties. |
| Parser.FindFrom | src/main.ts:128 | Gives the first `]` at or after a position, or the end of the line when there is none (the `[^\]]+` group). |
| Parser.SkipWhite | src/main.ts:128 | Gives the first non-white position at or after a position (where the greedy `\s*` stops). |
| Parser.ClassifyBlank | src/main.ts:124 | A right-trimmed line is blank exactly when it is all white space. |
| Parser.ClassifySound | src/main.ts:128 | A line classified as a tag line matches `^\[([^\]]+)\]\s*(.*)$` with the reported name and content. |
| Parser.ClassifyTagMatch | src/main.ts:128 | A non-blank line that matches the pattern is classified as a tag line with exactly those two groups (the converse). |
| Parser.StepBlank | src/main.ts:124-126 | A blank line runs `pushRowIfAny`: the row is kept when it has a key, the row is emptied, and `last` is reset. |
| Parser.StepKnownTag | src/main.ts:129-137 | A tag line with a known tag appends its content to the tag's entry and makes the tag `last`. |
| Parser.StepUnknownTag | src/main.ts:130-133 | A tag line with an unknown tag only resets `last`. |
| Parser.StepContinuation | src/main.ts:138-140 | A continuation line appends its right-trimmed text to the entry of `last`, or does nothing when `last` is unset. |
| Parser.ParseTaggedLyrics | src/main.ts:95-145 | The loop over the lines, with its mutable `rows`, `row` and `last`, returns exactly `Parse(text)`. |
| Parser.StepRows | src/main.ts:114-120 | Only a blank line can complete a row, and every other line leaves the list of rows unchanged. |
| Parser.RunFromRowsNonEmpty | src/main.ts:115-117 | Rows are completed only when they hold a key, so no row in the list is empty. |
| Parser.ParseRowsNonEmpty | src/main.ts:114-118 | Every row of a parsed text has at least one key. |
| Parser.RunFromRowCount | src/main.ts:122-126 | The pass adds at most one row per blank line. |
| Parser.ParseRowCount | src/main.ts:122-142 | A text gives at most one row more than it has blank lines (the final flush). |
| Parser.ParseIgnoresLineEnds | src/main.ts:96 | Normalising line ends beforehand does not change the rows. |
| Parser.ParseLineEndStyles | src/main.ts:96-97 | The same lines parse to the same rows whether they end in CR LF, CR or LF. |
| Parser.ParseMixedLineEnds | src/main.ts:96-97 | Lines whose line ends mix LF, CR LF and CR parse to the same rows as the same lines joined with LF. |
| Parser.ParseJoinedLines | src/main.ts:96-97 | A text of LF-joined lines is parsed line by line, as long as the first line does not start with a byte-order mark. |
| Parser.ParseIgnoresBom | src/main.ts:96 | One leading byte-order mark does not change the rows. |
| Parser.OrphanLinesDropped | src/main.ts:138 | While `last` is unset, continuation lines change nothing. |
| Parser.UnknownTagBlockIgnored | src/main.ts:130-133 | An unknown tag line and the continuation lines after it can be removed without changing the rows: their content appears nowhere. |
| Parser.BlankLineEndsBlock | src/main.ts:119-126 | After a blank line, continuation lines up to the next tag line contribute nothing. |
| Parser.AccumulatedSnoc | src/main.ts:136 | Adding a piece to an accumulated entry joins it with LF, or replaces the entry when it is empty. |
| Parser.AppendedAccumulated | src/main.ts:136 | The update `row[key] ? row[key] + "\n" + x : x` is the accumulation of the existing entry and the new piece. |
| Parser.ContinuationAccumulates | src/main.ts:139 | A continuation line adds its right-trimmed text as one more piece of the entry of `last`. |
| Parser.ContinuationsAccumulate | src/main.ts:138-140 | Continuation lines after a tag add their right-trimmed texts, in order, to that tag's entry. |
| Parser.TagBlockAccumulates | src/main.ts:135-139 | A tag line followed by continuation lines sets the tag's entry to the earlier entry, the content and the continuation texts, in source order. The tag becomes `last`, and the list of rows is unchanged. |
| Parser.CanonicalTagLine | src/main.ts:128-137 | A line `[name]text`, with a canonical name and a text without white space at its ends, adds that text to the tag's entry and makes the tag `last`. An absent or empty entry is replaced; any other entry becomes the old text, LF, then the new text. |
| Parser.TagLinesFill | src/main.ts:128-137 | Starting from an empty row, a block of such lines with different tags fills the row with exactly those entries. |
| Selector.Available | src/main.ts:185 | The `rows.some` availability test. It has no contract of its own; `AvailableIff` and `WhitespaceOnlyUnavailable` state it. |
| Selector.ActiveKeys | src/main.ts:200-204 | `activeKeys`. It has no contract of its own; `ActiveKeysSpec` and `ActiveAllAvailable` state it. |
| Selector.RowCells | src/main.ts:220-226 | The language cells of one row. It has no contract of its own; `RowCellsSound`, `RowCellsComplete`, `RowCellsOrdered` and `RowCellsEmpty` state it. |
| Selector.RowLine | src/main.ts:215-235 | The display line of one row, with the `all` fallback. It has no contract of its own; `RowLineSpec` states it, and `RenderRow` is proved equal to it. |
| Selector.Select | src/main.ts:206-246 | The lyrics area for a song and a selection. It has no contract of its own; `SelectNoContent`, `SelectLines`, `EmptySelectionNoContent` and `UnavailableSelectionNoContent` state it, and `RenderLyrics` is proved equal to it. |
| Selector.AvailableIff | src/main.ts:185 | A language is available exactly when some row has text for it that is non-empty after trimming. |
| Selector.Availability | src/main.ts:184-187 | Every toggle is enabled exactly when its language is available, whatever the selection. |
| Selector.WhitespaceOnlyUnavailable | src/main.ts:185 | A language whose entries are all white space is not available. |
| Selector.ActiveAmong | src/main.ts:200-204 | The filtered keys are those of the list that are selected and available. A list in display order gives a result in display order. |
| Selector.ActiveKeysSpec | src/main.ts:200-204 | The active keys are exactly the selected, available languages, in LANGS order. |
| Selector.ActiveAllAvailable | src/main.ts:200-204 | When every selected language is available, the active keys are the selection in LANGS order. |
| Selector.RowCellsSound | src/main.ts:220-226 | Every language cell belongs to an active key with non-blank text in the row and holds that text trimmed. |
| Selector.RowCellsComplete | src/main.ts:220-226 | Every active key with non-blank text in the row gets its cell. |
| Selector.RowCellsOrdered | src/main.ts:220-226 | Cells follow the order of the keys. |
| Selector.RowCellsEmpty | src/main.ts:220-229 | A row has no language cell exactly when no active key has non-blank text in it. |
| Selector.RowLineSpec | src/main.ts:215-235 | A row's line lists its language cells in display order, and every eligible key is present. The `all` cell appears exactly when the row has no language cell, non-blank `all` text and a non-empty selection, and it is then the only cell. |
| Selector.NonEmpty | src/main.ts:237 | Filtering keeps exactly the non-empty lines. |
| Selector.Emitted | src/main.ts:237 | There are no more emitted lines than rows, and none is empty. |
| Selector.EmittedAppend | src/main.ts:215-238 | Rows contribute their lines in row order. |
| Selector.EmittedIff | src/main.ts:237 | The emitted lines are exactly the non-empty lines of the rows. |
| Selector.EmittedEmpty | src/main.ts:237-243 | Nothing is emitted exactly when every row's line is empty. |
| Selector.SelectNoContent | src/main.ts:206-246 | "No content" is shown exactly when no selected language is available, or when every row's line is empty. |
| Selector.EmptySelectionNoContent | src/main.ts:206-211 | With nothing selected nothing is shown, even for rows with `all` text. |
| Selector.UnavailableSelectionNoContent | src/main.ts:206-211 | When no selected language has text in the song, the `all` fallback is never reached and "no content" is shown. |
| Selector.FallbackSelectionTestRedundant | src/main.ts:231 | Wherever the fallback test runs, some language is selected, so `selectedLangs.size > 0` always holds there. |
| Selector.SelectLines | src/main.ts:215-237 | Every displayed line comes from one row, is non-empty and is in display order. Its language cells are for selected, available languages, and an `all` cell stands alone. |
| Selector.RenderLyrics | src/main.ts:193-247 | The loop over the rows, with its fragment of lines, returns exactly `Select(rows, selected)`. |
| Selector.RenderRow | src/main.ts:216-235 | The loop over the active keys, with its counter, builds exactly the row's line, and the counter is the number of its cells. |
| Session.LyricsSession.constructor | src/main.ts:17-19 | At start-up no song is current, ja, romaji and zh are selected, and the cache is empty. |
| Session.LyricsSession.Shown | src/main.ts:193-195 | The lyrics area is drawn exactly when a non-empty song id is current. |
| Session.LyricsSession.Toggle | src/main.ts:66-69 | A checked box adds its key and an unchecked one removes it. Nothing else changes, and the lyrics are redrawn for the new selection. |
| Session.LyricsSession.CacheLyrics | src/main.ts:166-173 | The song's rows are the parse of the fetched text, and every cached row stays non-empty. |
| Session.LyricsSession.SelectSong | src/main.ts:148-178 | Selecting the current song does nothing. Otherwise the song becomes current and is parsed and cached only when not cached already (a failed fetch counts as ""), then toggles and lyrics are redrawn. |
| Session.LyricsSession.Redraw | src/main.ts:175-177 | For a non-empty id, the toggles show availability and the lyrics area shows the selection. |
| Example.ParseExample | src/main.ts:95-145 | A ja/romaji/zh block, a blank line and a ja/all block parse into exactly two rows with those entries. |
| Example.SelectExampleJaZh | src/main.ts:193-247 | With {ja, zh} selected, the first row shows its ja and zh texts in that order and the second only its ja text. |
| Example.SelectExampleRomaji | src/main.ts:229-235 | With {romaji} selected, the first row shows its romaji text and the second falls back to its `all` text. |

## Left out

- DOM construction, styling and the loading and empty placeholders (src/main.ts:16-74, 250-264). "No content" is a value of `Selector.Display`, and the toggles' enabled state is a map in `Session.Screen`.
- `fetchText` and the `await` in `selectSong`: the fetched text is a parameter of `SelectSong`.
- Session.LyricsSession.SelectSong: the method runs as one atomic step, so no handler runs while a fetch is pending. The program sets `currentSongId` (src/main.ts:150) before it awaits the fetch (src/main.ts:170). A checkbox change during that wait, including during the start-up fetch (src/main.ts:84-85), runs `renderLyrics`. There `lyricsCache.get(currentSongId)!` (src/main.ts:195) is undefined, and `rows.some` (src/main.ts:203) throws once any language is selected. When an older fetch completes after a newer song was selected and that song is not cached yet, `updateToggleAvailability` throws the same way (src/main.ts:183-185). The program thus reads a missing cache entry and crashes in these interleavings. The model's invariant `Valid` (the current song is cached) holds only because of the atomic step.
- Hash navigation (`getSongFromHash`, the `hashchange` listener, setting `location.hash`), the song list buttons and the title. These depend on browser APIs.
- src/songs.ts is a static catalog. Only its `LangKey` type is used, as `Tags.LangKey`.
- Text.LowerAscii: `toLowerCase` is modelled on ASCII letters only. Non-ASCII characters never lower-case into an alias, apart from KELVIN SIGN to `k` and U+0130 to `i` plus a combining mark, and no alias contains `k` or that pair. So `mapTag` gives the same tags.
- Text.IsWhite: the Zs (space separator) characters are fixed to the current Unicode list.
- Strings are sequences of characters, not of UTF-16 code units. No surrogate pairs are involved, because every character the program tests for is in the Basic Multilingual Plane.
- Parser.Classify and Selector.HasText: `line.trim() === ""` and `trim().length > 0` are tested as "all white space" and "not all white space". By the contract of `Text.Trim` these are the same tests.
- Selector.ActiveKeys: the chain of `map` and `filter` calls is a recursive function over LANGS, not a loop.
- Example.ParseExample, Example.SelectExampleJaZh, Example.SelectExampleRomaji: the worked example is stated for any texts without line breaks and without white space at their ends. It does not fix particular Japanese or Chinese strings.
- Session.LyricsSession.Valid: the class invariant records that every cached row is non-empty. That each cached entry is the parse of its fetched text is stated in the ensures of `CacheLyrics` and `SelectSong`.
