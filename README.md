# Single-page build and search core, modelled in Dafny

This project models the core of a static learning-module site.

The build script (`build/build.js`) does the following:
- It lists the stylesheet, script and day-content directories.
- It puts the files in a two-phase order: first the files the configuration lists, in list order, then the rest sorted by path. Day files are ordered by their number instead.
- It reads each file through a process-wide cache.
- It concatenates the blocks with their separators.
- It puts a strict-mode directive in front of the script, and in a development build a header comment naming the sources between the two.
- It minifies the stylesheet and the script with chains of regular-expression passes.
- It injects the three blocks into the page template with `String.prototype.replace`.
- It warns about placeholders left unreplaced.
- It formats the output size.

The page's search box (`src/scripts/search.js`) does the following:
- It scores each indexed element against the query.
- It escapes the query for a word-boundary regular expression.
- It keeps every matching entry whose section is new. Once 50 sections have been seen, it drops later entries of sections already seen; the number of sections is not capped.
- It sorts the kept entries by score and then by day, and keeps at most 30.
- It keeps the result list and a cyclic cursor in module-level state.

## Modules

| file | module | what it holds |
|---|---|---|
| `jstext.dfy` | `JsText` | The JavaScript string primitives: the `\s` class and `trim`, `\w`, `includes`/`indexOf`, ASCII `toLowerCase`, `join`, and decimal rendering and parsing. |
| `sorting.dfy` | `Sorting`, `StringOrder` | `Array.prototype.sort` as a stable insertion sort over a "less or equal" relation, and the default string order. |
| `filecache.dfy` | `FileCache` | The disk as a value, `path.join`/`basename`, and the `fileCache` Map as the class `Cache`. |
| `assets.dfy` | `Assets` | `getFiles`, the two-phase order, `concatenateFiles` and `getDayContent`. |
| `minify.dfy` | `Minify` | Every regular-expression pass of `minifyCSS` and `minifyJS`, as a left-to-right scan, and laws about each pass. |
| `minify_examples.dfy` | `MinifyExamples` | Whole-minifier results for families of inputs: a one-declaration rule, a doubled semicolon, and a keyword statement. |
| `wrap.dfy` | `Wrap` | `wrapInIIFE`. |
| `inject.dfy` | `Inject` | Placeholder injection with string-pattern `replace` and the leftover check. |
| `format_bytes.dfy` | `FormatBytes` | `formatBytes`. |
| `search.dfy` | `Search` | `escapeRegex`, `calculateRelevance`, `performSearch`, and the state behind `handleSearch` and `navigateToNextResult`. |

## Behaviour worth knowing

These hold of the code as written, and the model follows it.

- **CSS minification is not idempotent.**
  - The `;}` pass runs before the `;+` pass, so `a{b:c;;}` becomes `a{b:c;}`, and only a second run gives `a{b:c}`.
  - `MinifyExamples.CssSecondRunDiffers` proves this for a whole family of inputs.
- **The JS minifier does not respect string literals.**
  - The comment at build/build.js:200 says strings are preserved.
  - The line-comment pass ignores quotes, so a `//` inside a string literal cuts the line (`Minify.LineCommentPassCutsStringLiteral`).
- **Injection is not literal.**
  - The code passes each block as a replacement string, whose `$` patterns are expanded. See Findings.
- **The order lists differ from the tests.**
  - The configuration's order lists (build/build.js:38-39) have no `prism.css` and no `prism-core.js`, which the test file expects.
  - The model uses the lists in the code.
- **`readFile(p, false)` still stores what it reads.**
  - It does not consult the cache but does repopulate it. `FileCache.Cache.ReadFile` states this.

## Model

| member | source | states |
|---|---|---|
| FileCache.Cache.constructor | build/build.js:66 | The cache starts empty. |
| FileCache.Cache.Clear | build/build.js:354 | Clearing leaves the cache empty. |
| FileCache.Cache.ReadFile | build/build.js:68-83 | A hit is looked for only when `useCache` is set; it returns the stored text and leaves the cache as it was. Otherwise a readable file's text is returned and stored, even with `useCache` false. An unreadable file yields nothing and leaves the cache unchanged. With `useCache` set, the result and the new cache agree with `Lookup`/`AfterRead`. |
| FileCache.Lookup | build/build.js:68-83 | `readFile` yields nothing exactly when the path is neither cached nor readable. |
| FileCache.AfterRead | build/build.js:69-77 | A read adds the path to the cache only when the disk has it, and never changes an existing entry. |
| FileCache.LookupAfterReads | build/build.js:68-83 | Any sequence of cached reads leaves what a later read of any path yields unchanged. |
| FileCache.Basename | build/build.js:136 | The base name has no separator, ends the path, and is either the whole path or preceded by a separator. |
| FileCache.BasenameOfJoin | build/build.js:93 | The base name of a joined path is the entry name it was joined from. |
| Assets.GetFiles | build/build.js:85-98 | A missing or unlistable directory gives no files. Otherwise the result is exactly the matching entry names joined with the directory. |
| Assets.GetFilesSplit | build/build.js:85-98 | `getFiles` keeps the listing order: a listing split in two gives the matches of the first part, then those of the second. |
| Assets.MatchingPaths | build/build.js:91-93 | The filter-and-map keeps exactly the matching names, joined with the directory, and never more than were listed. |
| Assets.MatchingPathsAppend | build/build.js:91-93 | The filter-and-map distributes over concatenation, and one name gives its joined path exactly when it matches, so the matches keep their listing order. |
| Assets.Dedup | build/build.js:112 | `new Set(files)` has no duplicates and the same members as the list. |
| Assets.Remove | build/build.js:120 | `set.delete(x)` removes exactly `x` and keeps the set free of duplicates. |
| Assets.Walk | build/build.js:116-122 | The loop over the order list takes exactly the available files some entry names, and leaves exactly the others. Both parts are free of duplicates. |
| Assets.FirstMentionIsFirst | build/build.js:116-118 | The first mention of a path is the least index of an order entry naming it. |
| Assets.WalkFollowsOrderList | build/build.js:116-122 | The files taken by the loop appear in the order of their first mention in the order list. |
| Assets.OrderFiles | build/build.js:112-129 | The loop and the sort of the remaining files compute `OrderedFiles`. |
| Assets.OrderedFiles | build/build.js:112-129 | The two-phase order holds exactly the files it was given; `ConcatenationOrder` gives the order itself. |
| Assets.ConcatenationOrder | build/build.js:112-129 | Every matching file appears exactly once. The listed files come first, in order-list sequence; the rest follow in strictly ascending path order. |
| Assets.OrderedFilesPermute | build/build.js:112-129 | The ordered files are the matching files, each once. |
| Assets.OrderedFilesListedFirst | build/build.js:116-129 | The first `ListedCount` files are the listed ones, in order-list sequence, and none after them is listed. |
| Assets.OrderedFilesUnlistedAscending | build/build.js:125 | The files after the listed ones are strictly ascending in the default string order. |
| Assets.SortedRest | build/build.js:125 | Sorting the remaining files keeps them free of duplicates and the same files, in strictly ascending order. |
| Assets.MissingDirectoryGivesNothing | build/build.js:87-90 | A missing directory gives no blocks at all. |
| Assets.Readable | build/build.js:133-138 | The paths kept are exactly those whose read succeeds, and never more than were given. |
| Assets.ReadableAppend | build/build.js:133-138 | The readable paths of a split list are those of the first part, then those of the second, so the kept paths keep their order. |
| Assets.ReadableOne | build/build.js:134-135 | One path is kept exactly when its read succeeds. |
| Assets.Blocks | build/build.js:133-138 | There is one block per readable path, in order: the separator applied to its base name and its text. |
| Assets.ReadBlocks | build/build.js:132-138 | The read loop yields `Blocks` of the ordered files over the cache as it was, and leaves the cache as those reads leave it. |
| Assets.ConcatenateFiles | build/build.js:111-141 | The content is the blocks of the readable files, in the two-phase order, joined with a blank line. The count is the number of blocks. The cache is updated by those reads. |
| Assets.DigitPrefix | build/build.js:148 | The leading digit run is a prefix made of digits, followed by a non-digit or the end. |
| Assets.FirstDigitRun | build/build.js:148 | The first digit run (`match(/\d+/)`) consists of digits, and it is empty exactly when the name has no digit. |
| Assets.FirstDigitRunBetween | build/build.js:148 | After characters that are not digits, a nonempty digit run ended by a non-digit is the first digit run. |
| Assets.DayNameDigits | build/build.js:144-148 | In a name matching `/^day\d+\.html$/`, the first digit run is the digits between `day` and `.html`, and the sort key is their value. |
| Assets.DayName | build/build.js:144 | The file name of day `n` matches the day-file pattern and has no separator. |
| Assets.DayKey | build/build.js:148 | A name without a digit has day number 0, as `parseInt('0', 10)`. |
| Assets.DayLe | build/build.js:147-150 | One file sorts before or with another exactly when the comparator `getNum(a) - getNum(b)` is not positive. |
| Assets.DayLeIsTotalPreorder | build/build.js:147-150 | The numeric comparator is total and transitive. |
| Assets.DayOrderIsNumeric | build/build.js:147-150 | Day `m` sorts before or with day `n` exactly when `m <= n`, whatever the number of digits. |
| Assets.DayKeyOfDayName | build/build.js:148 | `getNum` of the file name of day `n` is `n`. |
| Assets.NineBeforeTen | build/build.js:147-150 | Day 9 sorts before day 10 numerically, although the default string order puts `day10.html` first. |
| Assets.DayFiles | build/build.js:144-150 | The files read are a permutation of the day-pattern files of the directory. |
| Assets.DayBlock | build/build.js:156-157 | A day block names the day's digits and ends with the file's text. |
| Assets.DayContentOrder | build/build.js:143-150 | Only day-pattern files are taken, and all of them. They are in nondecreasing day number, and files with the same day number keep their listing order. |
| Assets.GetDayContent | build/build.js:143-162 | The content is the day blocks (`<!-- Day n -->` and the text) of the readable day files, in day order, joined with a blank line. The count is the number of blocks. |
| Sorting.Insert | build/build.js:125 | Insertion adds exactly one element: the length grows by one and the multiset gains `x`. |
| Sorting.SortBy | build/build.js:125 | The sort is a permutation of its input. |
| Sorting.InsertSorted | build/build.js:125 | Inserting into a sorted sequence keeps it sorted. |
| Sorting.SortBySorted | build/build.js:125 | The sort's result is in `le` order for a total preorder. |
| Sorting.InsertStable | build/build.js:125 | Insertion keeps the order of the elements equivalent to any `x`, with the new one placed among them as the sort requires. |
| Sorting.SortByStable | src/scripts/search.js:152-155 | Stability: elements the comparator cannot tell apart keep their relative order. |
| StringOrder.StrLeTotal | build/build.js:125 | Any two strings are comparable in the default order. |
| StringOrder.StrLeTransitive | build/build.js:125 | The default order is transitive. |
| StringOrder.StrLeAntisymmetric | build/build.js:125 | Strings that are each before-or-equal the other are equal. |
| StringOrder.StrLeCommonPrefix | build/build.js:125 | A common prefix does not change the order of two strings. |
| StringOrder.StrLeIsTotalPreorder | build/build.js:125 | The default order is a total preorder, so the sort of the remaining files is well defined. |
| JsText.TrimStart | build/build.js:185 | The start trim removes only a white-space prefix and leaves no white space in front. |
| JsText.TrimEnd | build/build.js:185 | The end trim removes only a white-space suffix and leaves no white space at the end. |
| JsText.Trim | build/build.js:185 | `trim` gives a middle slice with white space on both sides cut off, and nothing but white space outside it. |
| JsText.TrimEmptyIff | build/build.js:218 | A string trims to empty exactly when it is all white space. |
| JsText.TrimKeepsNoDoubleSpace | build/build.js:185 | Trimming introduces no double white space. |
| JsText.TrimAfterSpace | build/build.js:207 | White space in front of a trimmed text is all `trim` removes. |
| JsText.IndexOf | build/build.js:299 | `indexOf` finds an occurrence exactly when `includes` holds, and it is the first one. |
| JsText.IndexOfFrom | build/build.js:299 | The search from a position returns the first occurrence at or after it. |
| JsText.ToLower | src/scripts/search.js:129 | Lower-casing keeps the length and maps each character. |
| JsText.JoinWithSplit | build/build.js:140 | Joining two nonempty lists is joining each and putting one separator between them. |
| JsText.JoinWithLength | build/build.js:140 | The joined text is as long as the parts together plus one separator for each pair of neighbours. |
| JsText.JoinWithContains | build/build.js:223 | Every part occurs in the joined text. |
| JsText.NatToString | build/build.js:338 | The decimal rendering is nonempty, all digits, and has no leading zero. |
| JsText.DigitsValueOfNatToString | build/build.js:148 | Parsing the decimal rendering gives the number back. |
| JsText.IntToStringReadsBack | src/scripts/search.js:137 | `String(n)` reads back as `n`: all digits for a natural, a minus sign before the digits of the magnitude for a negative number. |
| Minify.StripBlockComments | build/build.js:174 | The comment pass never lengthens the text. |
| Minify.BlockCommentRemoved | build/build.js:174 | A closed comment not starting with `!` is removed with its delimiters. |
| Minify.BangCommentKept | build/build.js:174 | A `/*! ... */` comment is kept as written, provided no `/*` occurs in its body, the body does not end with `/`, and what follows the comment does not start with `*`. Without these the pass can cut it, as in `/*! a /*b */`. |
| Minify.StripCopies | build/build.js:174 | Text where no comment opens is copied. |
| Minify.NoSlashNoBlockComment | build/build.js:174 | Text without `/` is not changed by the comment pass. |
| Minify.CollapseSpace | build/build.js:176 | The white-space pass leaves no two adjacent white-space characters. It empties nothing but the empty text and keeps leading white space and the first character. |
| Minify.CollapseKeepsVisible | build/build.js:176 | The white-space pass changes white space only: every other character comes through in order. |
| Minify.CollapseCopies | build/build.js:176 | Text without white space is copied. |
| Minify.CollapseRun | build/build.js:176 | A white-space run becomes one space. |
| Minify.Tighten | build/build.js:178 | The punctuation pass never lengthens the text, never empties it, and keeps "no double white space". |
| Minify.TightenAtPunct | build/build.js:178 | The white space on both sides of a stylesheet or script punctuation character is dropped. |
| Minify.TightenAroundPunct | build/build.js:203 | Every white-space run around a punctuation character is dropped. |
| Minify.TightenCopies | build/build.js:178 | Text with neither white space nor punctuation is copied. |
| Minify.TightenSpaceKept | build/build.js:178 | A single space before a plain character is kept. |
| Minify.TightenNoSpace | build/build.js:178 | Text without white space is not changed by the punctuation pass. |
| Minify.DropSemicolonBeforeBrace | build/build.js:180 | The `;}` pass never lengthens the text and keeps "no double white space". |
| Minify.SemicolonBeforeBraceDropped | build/build.js:180 | Every `;}` becomes `}`. |
| Minify.DropCopies | build/build.js:180 | Text without `;` is copied. |
| Minify.ZeroUnits | build/build.js:182 | The zero-unit pass never lengthens the text and keeps its first character. |
| Minify.ZeroUnitDropped | build/build.js:182 | A `0px`, `0em`, `0rem` or `0%` after `:` or white space keeps the lead character and the digit and loses the unit. The replacement `$10` is group 1 followed by `0`. |
| Minify.NoZeroUnchanged | build/build.js:182 | Text without `0` is not changed by the zero-unit pass. |
| Minify.CollapseSemicolons | build/build.js:184 | After the `;+` pass no two semicolons are adjacent; the first character is kept. |
| Minify.SemicolonsCopy | build/build.js:184 | Text without `;` is copied. |
| Minify.SingleSemicolon | build/build.js:184 | A single `;` stays. |
| Minify.MinifyCss | build/build.js:168-189 | Without the minify flag the text is returned unchanged. With it the result is trimmed, has no double white space and is no longer than the input. Empty input stays empty. |
| Minify.LineEnd | build/build.js:197 | `.*$` with the `m` flag stops at the first line terminator. |
| Minify.StripLineComments | build/build.js:197 | The line-comment pass never lengthens the text. |
| Minify.LineCommentRemoved | build/build.js:197 | `//` not followed by `*` or `/` is removed up to the line terminator, which is kept. |
| Minify.UrlKept | build/build.js:197 | `//` right after `:` is not a comment, so `https://...` survives. |
| Minify.LineCommentsCopy | build/build.js:197 | Text without `/` or `:` is copied. |
| Minify.NoSlashNoLineComment | build/build.js:197 | Text without `/` is not changed by the line-comment pass. |
| Minify.LineCommentPassCutsStringLiteral | build/build.js:197 | A `//` inside a string literal cuts the rest of the line, as in `"Don't break this! // not a comment"`. |
| Minify.SpaceKeywords | build/build.js:205 | The keyword pass only adds characters: the result is never shorter. |
| Minify.FirstKeyword | build/build.js:205 | The alternative found is a keyword standing at the front with a word boundary after it. When none is found, no keyword stands there. |
| Minify.KeywordsAreWords | build/build.js:205 | Every alternative of the keyword pattern is made of word characters and is at least two long. |
| Minify.WordAtUnique | build/build.js:205 | Two words at the same place, each with a boundary after it, are the same word. |
| Minify.KeywordSpaced | build/build.js:205 | A whole-word keyword is set off by one space on each side. |
| Minify.WordCharsCopied | build/build.js:205 | A keyword inside a longer identifier is not touched. |
| Minify.NonWordCopied | build/build.js:205 | A non-word character starts no keyword and is copied. |
| Minify.IdentifierUntouched | build/build.js:205 | An identifier that is not a keyword, `newValue` included, passes unchanged. |
| Minify.MinifyJs | build/build.js:191-211 | Without the minify flag the text is returned unchanged. With it the result is trimmed and has no double white space. Empty input stays empty. |
| MinifyExamples.OneDeclarationRule | build/build.js:172-185 | `sel { prop: val; }` becomes `sel{prop:val}`: every space and the last semicolon go. |
| MinifyExamples.ClassColorRed | tests/build.test.js:99-103 | `.class { color: red; }` becomes `.class{color:red}`. |
| MinifyExamples.DoubledSemicolonLeftBehind | build/build.js:180-184 | `u;;}` becomes `u;}`: the `;}` pass runs before the `;+` pass. |
| MinifyExamples.SingleSemicolonDropped | build/build.js:180 | `u;}` becomes `u}`. |
| MinifyExamples.CssSecondRunDiffers | build/build.js:172-185 | A second run on `u;;}` removes another semicolon, so the CSS minifier is not idempotent. |
| MinifyExamples.KeywordStatementKept | build/build.js:195-207 | A keyword followed by a space and an identifier statement comes out as it went in: the keyword pass doubles the space and the second white-space pass joins it again. |
| MinifyExamples.StatementKeywordSpaced | build/build.js:205 | The keyword pass sets the keyword off with a space on each side, doubling the one after it. |
| MinifyExamples.StatementCollapseAgain | build/build.js:206 | The second white-space pass turns the doubled space back into one. |
| MinifyExamples.ReturnTrue | tests/build.test.js:217-221 | `return true;` comes out of the script minifier unchanged, space included. |
| Wrap.WrapInIife | build/build.js:217-230 | Blank scripts give the empty string. Otherwise the result starts with the strict-mode directive and ends with the scripts unchanged; a minified build has nothing in between. |
| Wrap.ScriptsFollowHeader | build/build.js:220-229 | A development build is the directive, then the header, then the scripts. |
| Wrap.Header | build/build.js:220-226 | The header opens and closes the comment around the source list and the build time. |
| Wrap.HeaderNamesSources | build/build.js:220-226 | The header names every source file and the build time. |
| Inject.Expand | build/build.js:292-295 | A replacement without `$` is inserted as it is. |
| Inject.ReplaceFirst | build/build.js:292-295 | A pattern that does not occur leaves the page unchanged. |
| Inject.ReplaceWithoutDollar | build/build.js:292-295 | A block without `$` lands in place of the first occurrence, between the text before it and the text after it. |
| Inject.Inject | build/build.js:292-295 | A page holding none of the three placeholders comes back unchanged. |
| Inject.InjectWithoutDollar | build/build.js:292-295 | When no block contains `$`, the three replacements equal literal insertion. |
| Inject.DollarAmpersandRestores | build/build.js:295 | A block `$&` expands to the placeholder itself, so the placeholder comes back and the block is lost. |
| Inject.DollarAmpersandRestoresPlaceholder | build/build.js:295 | The same holds for the content placeholder of the page. |
| Inject.ReplaceFirstLiteral | build/build.js:292-295 | Literal insertion leaves a page without the pattern unchanged. Otherwise the text lands exactly where the first occurrence was, the page before it and after the occurrence survives unchanged, and the length changes by the difference of the two. |
| Inject.DollarAmpersandLiteral | tests/build.test.js:404-411 | Inserted literally, a block `$&` lands as written. |
| Inject.Warnings | build/build.js:298-302 | There is at most one warning per placeholder entry. |
| Inject.WarningsExactly | build/build.js:298-302 | An entry is warned about exactly when its placeholder is still in the page. |
| Inject.CheckPlaceholders | build/build.js:298-302 | The loop yields the warnings in entry order, at most three, one for each placeholder still present and none for the others. |
| FormatBytes.FormatBytes | build/build.js:337-341 | The unit is `B` below 1024, `KB` below 1024 * 1024, and `MB` from there on, each exactly in its range. |
| FormatBytes.BytesReadBack | build/build.js:338 | Below 1024 the count is written in full and reads back as itself. |
| FormatBytes.KibRounding | build/build.js:339 | The tenths are the quotient rounded half up, between 10 and 10240 in the `KB` range. |
| FormatBytes.MibRounding | build/build.js:340 | The hundredths are the quotient rounded half up, at least 100 in the `MB` range. |
| FormatBytes.OneDecimalReadsBack | build/build.js:339 | `toFixed(1)` puts the point before the last digit and, without the point, reads back as the number of tenths. |
| FormatBytes.TwoDecimalsReadBack | build/build.js:340 | `toFixed(2)` puts the point before the last two digits and, without the point, reads back as the number of hundredths. |
| FormatBytes.FiveHundredBytes | tests/build.test.js:597-599 | 500 bytes is `500 B`. |
| FormatBytes.OneKilobyte | tests/build.test.js:601-604 | 1024 bytes is `1.0 KB`. |
| FormatBytes.OneMegabyte | tests/build.test.js:606-609 | 1024 * 1024 bytes is `1.00 MB`. |
| FormatBytes.TwoAndAHalfMegabytes | tests/build.test.js:606-609 | 2.5 * 1024 * 1024 bytes is `2.50 MB`. |
| FormatBytes.LastKilobyte | build/build.js:339 | One byte short of a mebibyte is `1024.0 KB`: the unit is chosen before the rounding. |
| Search.EscapeRegex | src/scripts/search.js:366-368 | Escaping adds one backslash per special character. |
| Search.UnescapeEscape | src/scripts/search.js:366-368 | The escaped query reads back as the query in a regular expression. |
| Search.EscapeAppend | src/scripts/search.js:366-368 | Escaping works character by character. |
| Search.EscapePlain | src/scripts/search.js:366-368 | A query without special characters is unchanged. |
| Search.HeadingBonus | src/scripts/search.js:179-181 | At most one heading bonus applies, and 30 exactly for `h2`. |
| Search.Relevance | src/scripts/search.js:167-195 | The score lies in 0..225. An exact case-insensitive match scores at least 150, and no score reaches 150 unless the query starts the text. |
| Search.CalculateRelevance | src/scripts/search.js:167-195 | The accumulated score is the sum of the bonuses and lies in 0..225. |
| Search.Collect | src/scripts/search.js:133-149 | The `forEach` keeps at most one hit per entry and sees no more sections than it keeps hits. |
| Search.MatchKeysMeaning | src/scripts/search.js:133-137 | A key is a match key exactly when some matching entry has it. |
| Search.CollectSound | src/scripts/search.js:133-149 | Every kept hit is a matching entry of the index carrying its own relevance score. |
| Search.CollectKeys | src/scripts/search.js:137-147 | The keys seen are exactly those of the matching entries, and each has a kept hit. |
| Search.KeepKeys | src/scripts/search.js:137-147 | One turn of the loop adds the entry's key to the keys seen exactly when the entry matches, and keeps the kept hits' keys equal to the keys seen. |
| Search.AllKeptBelowFifty | src/scripts/search.js:140 | While fewer than 50 distinct sections match, every match is kept. |
| Search.HitLe | src/scripts/search.js:152-155 | One hit sorts before or with another exactly when the comparator (score difference, then day difference) is not positive. |
| Search.HitLeIsTotalPreorder | src/scripts/search.js:152-155 | The result comparator is total and transitive. |
| Search.SearchResults | src/scripts/search.js:157 | At most 30 results are returned. |
| Search.SearchResultsBest | src/scripts/search.js:151-157 | The results are the best 30 kept hits: as many as were kept, up to 30, all drawn from the kept hits, and every kept hit left out sorts after every result. |
| Search.SearchResultsSound | src/scripts/search.js:128-158 | Every result is an index entry whose lower-cased text contains the lower-cased query, with its relevance score. |
| Search.SearchResultsOrdered | src/scripts/search.js:152-155 | Results run by score, highest first, and by day number between equal scores. |
| Search.EveryMatchFound | src/scripts/search.js:128-158 | With fewer than 50 matching sections and at most 30 matches, the results are exactly the matches. |
| Search.JsRem | src/scripts/search.js:263 | JavaScript's `%`: the remainder takes the sign of the dividend, is smaller than the divisor in size, and differs from the dividend by a multiple of the divisor. |
| Search.NextIndex | src/scripts/search.js:260-265 | Without results the cursor stays. From the unset cursor or a valid one it moves to the next result, or wraps from the last to 0. |
| Search.AdvanceCycles | src/scripts/search.js:260-265 | From the unset cursor or a valid one, `k` steps move the cursor `k` places round the list. After `n` steps it is back where it was. |
| Search.SearchState.constructor | src/scripts/search.js:7-9 | The state starts with no results and the cursor unset. |
| Search.SearchState.PerformSearch | src/scripts/search.js:128-158 | The loop, the sort and the cap compute `SearchResults` of the index. |
| Search.SearchState.HandleSearch | src/scripts/search.js:92-121 | The old results and cursor are cleared. A trimmed query shorter than two characters leaves no results; a longer one stores the search results for it. |
| Search.SearchState.NavigateToNextResult | src/scripts/search.js:260-265 | Without results nothing changes. Otherwise the cursor moves one place round the list, from unset to 0, and stays on a result. |

## Left out

- File-system I/O, existence checks, `readdirSync` and `readFileSync` are a `Disk` value: each directory's listing and each file's text. A read error is a path missing from the map.
- `build()` itself is left out as a sequence of effects: template validation, `process.exit`, `ensureDir`, writing the output, the timer and the reports. The pure steps it calls are modelled, and `Inject.Inject` is its injection chain.
- Logging (`log.*`), watch mode and its debounce timer, and the command-line flags are left out. The minify flag is a parameter.
- The reduction percentages in the verbose log are left out because they are floating point.
- Wrap.WrapInIife: the clock is a parameter (`timestamp`), and the source-file list is passed as given. The `config.jsOrder.slice(0, stats.js)` that `build()` passes is not computed.
- Sorting.SortBy: `Array.prototype.sort` sorts in place; it is modelled as a function returning a new sequence, so aliasing of the sorted array is not captured.
- JsText.ToLower: only the ASCII letters are lower-cased. Every other character, including non-ASCII letters, is left as it is.
- Characters are Unicode scalar values, while JavaScript strings are UTF-16 code units. Lengths, such as the `text.length < 100` bonus, differ for characters outside the Basic Multilingual Plane.
- StringOrder.StrLe and with it Assets.OrderedFiles: the default sort order is modelled on scalar values, not UTF-16 code units. The two agree except that a character above U+FFFF sorts after one in U+E000–U+FFFF here, but before it in JavaScript, whose surrogate code units lie below U+E000.
- Assets.DayKey: `parseInt` is modelled on unbounded naturals; a day number above 2^53 loses precision in the source's doubles, which is not modelled.
- The separators and order lists that `build()` passes to `concatenateFiles` (build/build.js:38-39, 263, 274) are parameters of `Assets.ConcatenateFiles`.
- FormatBytes.FormatBytes: the quotient and `toFixed` rounding are exact only below 2^53 bytes; above that the double arithmetic of the source is not modelled.
- Search.SearchState.NavigateToNextResult: `navigateToResult`, the scrolling and the highlighting, is not modelled; only the cursor is.
- The search index is a sequence of entries given to the state object; `buildSearchIndex`, which reads the page, is not part of this model.
- `displaySearchResults`, `clearHighlights` and the clear button of `handleSearch` are DOM effects and are left out.
- The other scripts of the page (`main.js`, `navigation.js`, `progress.js`, `quiz.js`, `code-blocks.js`) are not part of this model.
- Minify.MinifyCss: idempotence is not claimed, because the code does not have it (see `MinifyExamples.CssSecondRunDiffers`).
- Minify.MinifyJs: keeping string literals intact is not claimed, because the code does not do it (see `Minify.LineCommentPassCutsStringLiteral`).

## Findings

| source | as written | input that shows it | evidently intended | confidence | as-written member | corrected member |
|---|---|---|---|---|---|---|
| build/build.js:292-295 | Each block is passed to `replace` as a replacement string, so `$&`, `$$`, `` $` `` and `$'` in a stylesheet, script or day file are expanded. | The content block `$&` in a page that is just the content placeholder comes back as the placeholder itself. | Literal insertion, as with a function replacer (the test file at tests/build.test.js:404-411 says build.js uses one). | not executed | Inject.DollarAmpersandRestores | Inject.ReplaceFirstLiteral |
