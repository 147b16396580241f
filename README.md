# SimpleSort list sorter, modelled in Dafny

This project models the `{{#simplesort:}}` parser function of the MediaWiki
SimpleSort extension: `SimpleSortHooks::renderSort` and its helper
`stringToArray` in `src/SimpleSortHooks.php`. One call is one pipeline:

1. **Argument dispatch.** With options and a list, the first argument after the
   parser holds the options, the second the list and the third (keyed mode) the
   second list. With a single argument it is the list and every setting keeps
   its default. With none the input is empty.
2. **Option parsing** (`SortOptions`). `insep="…"` is matched and every copy
   of the matched text is removed, then `outsep="…"` the same way on what is
   left (defaulting to the input separator). The rest is trimmed, split on
   whitespace into at most six pieces and read by a loop that overwrites the
   flag variables. A piece that is neither empty nor one of `desc`, `alpha`,
   `num`, `case`, `keyed`, `stoponblank` ends the call with an error naming it.
3. **Tokenising** (`Tokenizer`). With an empty separator all whitespace is
   deleted and the text falls apart into characters. Otherwise the text is
   split at each leftmost occurrence of the literal separator, together with
   the whitespace run on either side of it. The separator reaches `preg_split`
   through `preg_quote($sep)`, which does not escape the pattern's `/`
   delimiter, so a separator holding `/` gives a pattern that does not
   compile (`Pattern`).
4. **Truncation.** With `stoponblank` the primary list is cut before its first
   empty entry.
5. **Sort and join** (`Ordering`, `SimpleSort`). The list is sorted under the
   comparison the flags select, reversed for `desc`. In keyed mode the sorted
   order of the primary list's positions picks entries of the second list.
   The result is joined with the output separator.

Modules: `Wrappers` (Option, Result), `Text` (whitespace classes, literal
search, `trim`, whitespace removal, the plain and case-folded string orders,
`implode`), `Pattern` (`preg_quote` and how PCRE reads quoted text back, the split
pattern and PHP's check of its delimiters), `Tokenizer`, `SortOptions`, `Ordering` (total preorders, the
insertion sort of positions, reversal) and `SimpleSort` (`renderSort`).

The sort works on positions. `SortPositions` sorts an array that starts as
`0, 1, …, n - 1`, in place, by the keys those positions hold; ties keep their
input order. Unkeyed output visits the primary list in that order; keyed output
visits the second list in that order. `Render` promises only that the order is
*a* sorted permutation of the positions. PHP does not guarantee stable sorting
before version 8, so no particular tie order is claimed.

Natural order (`strnatcmp`, `strnatcasecmp`) and numeric order are parameters
(`Collations`) assumed to be total preorders. `SORT_STRING` is concrete: it is
lexicographic order on characters, and with the case flag it is that order on
ASCII-lower-cased strings.

Behaviour of the code that its doc comment (src/SimpleSortHooks.php:21-41)
does not spell out:
- The doc comment says whitespace on either side of the input separator is
  discarded. The code removes only the whitespace next to an occurrence of the
  separator, so the first token keeps its leading whitespace and the last
  keeps its trailing whitespace. `Tokenizer.SplitTokensClean` states which
  ends are clean.
- Descending order uses `rsort`/`arsort`, and PHP's sorts are not stable
  before version 8. The model sorts under the reversed comparison, and
  `Render` claims only that the order is sorted and a permutation.
- In keyed mode the code reads the second list at every position of the
  first, whether or not it exists. The model returns `MissingSecondList` or
  `SecondListTooShort` instead.
- An input separator holding `/` makes `preg_split` return false, and sorting
  false is a `TypeError` in PHP 8. The model returns `InvalidSeparator`; see
  "Findings".

## Model

| member | source | states |
|---|---|---|
| SortOptions.MatchQuoted | src/SimpleSortHooks.php:73-75 | `preg_match('/insep="([^"]*)"/')`: a match is the key, a quote-free value and a closing quote, found at an occurrence of the key; there is no match exactly when no occurrence of the key is followed by a quote |
| SortOptions.RemoveFrom | src/SimpleSortHooks.php:77 | `str_replace` of the matched text is never longer than its input |
| SortOptions.RemoveFromGaps | src/SimpleSortHooks.php:77 | `str_replace(pat, "")` cuts the input into gaps: the input is the gaps joined by `pat`, the result is the gaps joined by nothing, each removed copy is the first occurrence after the gap before it, and the last gap holds no occurrence |
| SortOptions.RemoveFromLength | src/SimpleSortHooks.php:77 | the result is shorter than the input by the pattern length once per occurrence removed |
| SortOptions.CutSetting | src/SimpleSortHooks.php:73-87 | one quoted setting: without a match the value is the default and the options are unchanged; with one the value is the captured text and the options become the gaps between the removed copies of the whole match joined together, shorter by the match length once per copy |
| SortOptions.ExtractSeparators | src/SimpleSortHooks.php:55-87 | without an `insep="…"` match the input separator is ","; with one it is the captured value; `outsep="…"` is looked for after `insep` is cut out, and without a match the output separator equals the input separator, even when that is empty |
| SortOptions.SplitSpaces | src/SimpleSortHooks.php:91 | `preg_split` on whitespace runs with limit 6 gives between one and six pieces |
| SortOptions.SplitSpacesWords | src/SimpleSortHooks.php:91 | for text that neither starts nor ends with whitespace and has no more words than the limit, the pieces are exactly its words (one empty piece for empty text) |
| SortOptions.Pieces | src/SimpleSortHooks.php:91 | the trimmed options split on whitespace runs into between one and six pieces; `PiecesAreWords` makes them the words when at most six and no form feed sits at an end |
| SortOptions.Classify | src/SimpleSortHooks.php:94-111 | a piece is ignored exactly when it is empty and unknown exactly when it is neither empty nor one of the six keywords; a piece holding whitespace is always unknown |
| SortOptions.ApplyWord | src/SimpleSortHooks.php:95-111 | one piece is rejected exactly when it is bad, and the error is that piece; `ApplyWordSettings` gives its effect on every setting |
| SortOptions.ApplyWords | src/SimpleSortHooks.php:94-112 | reading the pieces left to right fails only with a bad piece of the list as its error; `ApplyWordsError` makes it the first bad piece |
| SortOptions.Parse | src/SimpleSortHooks.php:67-112 | the option string is rejected exactly when one of its pieces is neither empty nor a keyword, and accepted options carry the extracted separators; a rejected string's error is its first such piece |
| SortOptions.ParseReadsWords | src/SimpleSortHooks.php:89-112 | when the trimmed options hold at most six words, reading the pieces is reading the whitespace-separated words left to right |
| SortOptions.ParseOptions | src/SimpleSortHooks.php:67-112 | the flag-setting loop over the option pieces returns exactly what the left-to-right reducer `Parse` gives: the first bad piece as an error, or the settings |
| SortOptions.ApplyWordsError | src/SimpleSortHooks.php:94-111 | the option list is rejected if and only if some piece is neither empty nor a keyword; the error carries the first such piece; empty pieces are ignored |
| SortOptions.ApplyWordsSettings | src/SimpleSortHooks.php:94-108 | on success, `desc`, `case`, `keyed` and `stoponblank` each switch their setting on exactly when present; whichever of `alpha`/`num` comes last decides the mode; neither leaves the mode alone; the separators are untouched |
| SortOptions.ApplyWordSettings | src/SimpleSortHooks.php:95-108 | the effect of one keyword: `case` changes only case sensitivity, `alpha`/`num` change only the mode, and so on |
| SortOptions.ParseSettings | src/SimpleSortHooks.php:45-61 | an accepted option string gives ascending order unless `desc`, case-insensitive unless `case`, natural order when neither `alpha` nor `num` occurs, and the extracted separators |
| SortOptions.ManyWordsBadPiece | src/SimpleSortHooks.php:89-91 | with more than six whitespace-separated words the sixth piece holds whitespace and is therefore bad |
| SortOptions.TooManyWordsRejected | src/SimpleSortHooks.php:109-110 | an options string with more than six words (after the separators are cut out) is always rejected |
| Text.RemoveSpaces | src/SimpleSortHooks.php:177 | `preg_replace('/[\s]+/', '', …)` leaves no whitespace and is no longer than its input |
| Text.RemoveSpacesChar | src/SimpleSortHooks.php:177 | on one character, whitespace removal deletes a whitespace character and keeps any other; with RemoveSpacesAppend this fixes the result character by character |
| Text.RemoveSpacesAppend | src/SimpleSortHooks.php:177 | whitespace removal distributes over concatenation, so the other characters keep their order |
| Text.RemoveSpacesNoSpace | src/SimpleSortHooks.php:177 | text without whitespace is unchanged by whitespace removal |
| Text.Trim | src/SimpleSortHooks.php:91 | `trim` returns an infix of its input whose dropped ends are all trimmable characters and which neither starts nor ends with one |
| Text.Join | src/SimpleSortHooks.php:160 | `implode` of no tokens is empty and of one token is that token |
| Text.JoinLength | src/SimpleSortHooks.php:160 | `implode` is as long as the tokens plus one separator between each neighbouring pair |
| Text.LexLe | src/SimpleSortHooks.php:121-122 | the `SORT_STRING` order puts every string at or after each of its prefixes |
| Text.FoldLe | src/SimpleSortHooks.php:121-122 | with `SORT_FLAG_CASE`, a string whose lower-cased form is a prefix of another's sorts at or before it |
| Text.LexLeTotal | src/SimpleSortHooks.php:121 | the `SORT_STRING` order compares every pair of strings |
| Text.LexLeTransitive | src/SimpleSortHooks.php:121 | the `SORT_STRING` order is transitive |
| Text.LexLeAntisymmetric | src/SimpleSortHooks.php:121 | without the case flag, `SORT_STRING` ties only equal strings |
| Text.FoldLeIgnoresCase | src/SimpleSortHooks.php:121-122 | with the case flag, strings that differ only in ASCII case tie |
| Pattern.UndelimitedPatternFails | src/SimpleSortHooks.php:179 | as written, a separator holding `/` gives a pattern whose first bare `/` closes it early, with the `[` of the trailing `[\s]*` after it, so the pattern does not compile |
| Pattern.DelimitedPatternCompiles | src/SimpleSortHooks.php:179 | with `preg_quote($sep, "/")` every separator gives a pattern that compiles, closed by its last character |
| Pattern.QuoteWithoutSlash | src/SimpleSortHooks.php:179 | for a separator without `/`, quoting with or without naming the delimiter gives the same text |
| Pattern.SplitPatternCompiles | src/SimpleSortHooks.php:179 | the pattern as written compiles exactly when the separator holds no `/` |
| Pattern.QuoteChar | src/SimpleSortHooks.php:179 | `preg_quote` of one character: `QuoteCharReadsBack` states that PCRE reads it back as that character, whatever follows |
| Pattern.QuoteCharReadsBack | src/SimpleSortHooks.php:179 | a quoted character followed by any text is read back as the character followed by that text's reading |
| Pattern.Quote | src/SimpleSortHooks.php:179 | `preg_quote` of the separator, character by character: `QuoteReadsBack` states that PCRE reads the result as the separator itself |
| Pattern.QuoteReadsBack | src/SimpleSortHooks.php:179 | the quoted separator is read back by PCRE as exactly the separator, with or without the delimiter argument |
| Pattern.SplitPattern | src/SimpleSortHooks.php:179 | the pattern `/[\s]*…[\s]*/`: `SplitPatternReadsBack` states it is delimited by `/` at both ends and that the text between its whitespace runs reads as the separator |
| Pattern.SplitPatternReadsBack | src/SimpleSortHooks.php:179 | the pattern opens and closes with `/`, and the text between its two whitespace runs is read as exactly the separator |
| Tokenizer.StringToArray | src/SimpleSortHooks.php:175-182 | the split fails (`preg_split` returns false) exactly when the separator holds `/`; otherwise it gives at least one token |
| Tokenizer.SplitFrom | src/SimpleSortHooks.php:179 | `preg_split` on the separator with its surrounding whitespace gives at least one token |
| Tokenizer.Characters | src/SimpleSortHooks.php:177 | `str_split` gives one single-character token per character (one empty token for empty text), and the tokens glue back to the text |
| Tokenizer.SplitFromCuts | src/SimpleSortHooks.php:179 | the input is the tokens with, between neighbours, a cut made of a whitespace run, the separator and a whitespace run; each cut's separator is the first occurrence after the token before it, and the last token holds none |
| Tokenizer.EmptySeparatorSplitsCharacters | src/SimpleSortHooks.php:176-177 | with an empty separator the tokens glue back to the input without whitespace, and each token is one non-whitespace character |
| Tokenizer.SplitTokensClean | src/SimpleSortHooks.php:179 | no token holds the separator, and no token has whitespace on a side where a separator was cut out |
| Tokenizer.SplitCount | src/SimpleSortHooks.php:179 | for a separator that does not start with whitespace, the token count is the number of non-overlapping separator occurrences plus one (empty tokens kept) |
| Tokenizer.SplitJoin | src/SimpleSortHooks.php:175-182 | for a separator without whitespace and tokens without whitespace at their ends or a separator occurrence inside, splitting the join gives the tokens back |
| Ordering.SortPositions | src/SimpleSortHooks.php:139-157 | the sort visits every position once, in non-decreasing key order, ties in input order |
| Ordering.Insert | src/SimpleSortHooks.php:139-157 | one insertion step: the array stays a permutation of the positions, its first `i + 1` entries are a rearrangement of the old ones and are ordered, and the entries after them are unchanged |
| Ordering.Sink | src/SimpleSortHooks.php:139-157 | the entry at `i` moves left past exactly the entries that do not come before it, stopping after one that does |
| Ordering.MovedPositions | src/SimpleSortHooks.php:139-157 | moving one entry left leaves the entries after it in place and rearranges the ones before |
| Ordering.MovedOrdered | src/SimpleSortHooks.php:139-157 | moving an entry to where `Sink` stops extends an ordered prefix by one |
| Ordering.StableOrderUnique | src/SimpleSortHooks.php:139-143 | two stable orders of the same keys are equal, so a stable sort fixes the output |
| Ordering.ReversedSortedOrder | src/SimpleSortHooks.php:152-157 | an ascending order of the positions read backwards is sorted for the reversed comparison, as `rsort` needs |
| SimpleSort.Collation | src/SimpleSortHooks.php:121-122 | the comparison the flags select: natural order unless `alpha` or `num`, caseless unless `case`, reversed for `desc`; `CollationIsTotalPreorder`, `DescendingIsFlip` and `NumericIgnoresCase` state its properties |
| SimpleSort.DescendingIsFlip | src/SimpleSortHooks.php:139-143 | with `desc` the comparison is `Flip` of the ascending one the other flags select |
| SimpleSort.NumericIgnoresCase | src/SimpleSortHooks.php:121-122 | in numeric order the case flag selects the same comparison whether given or not |
| SimpleSort.CollationIsTotalPreorder | src/SimpleSortHooks.php:121-122 | each comparison the flags can select, ascending or descending, is a total preorder |
| SimpleSort.CutAtBlank | src/SimpleSortHooks.php:126-134 | the truncated list is a prefix of the list with no blank entry, and it stops only at a blank entry: the longest blank-free prefix |
| SimpleSort.CutAtFirstBlank | src/SimpleSortHooks.php:127-133 | the truncated list is everything before the first blank entry, and the whole list when there is none |
| SimpleSort.PrimaryList | src/SimpleSortHooks.php:124-134 | the list to sort is a prefix of the split input: all of it without `stoponblank`, and with it the entries before the first blank one |
| SimpleSort.OptionsOf | src/SimpleSortHooks.php:63-112 | the options are read from the first argument only when at least two arguments follow the parser, else the defaults hold; `Render` returns their error first |
| SimpleSort.InputOf | src/SimpleSortHooks.php:113-116 | the list is the second argument when options are given, the only argument otherwise, and "" without arguments; `Render` gives "" for an empty list |
| SimpleSort.StopOnBlank | src/SimpleSortHooks.php:126-134 | the `stoponblank` loop returns the list cut before its first blank entry |
| SimpleSort.Gathered | src/SimpleSortHooks.php:145-148 | entry `j` of the gathered list is the value at the `j`-th position of the order |
| SimpleSort.Reorder | src/SimpleSortHooks.php:145-150 | the `foreach` that fills `$olist` gathers the values in the sorted order of positions |
| SimpleSort.Render | src/SimpleSortHooks.php:44-167 | an unknown option is returned as an error before anything else; empty or absent input gives ""; an input separator holding `/` gives `InvalidSeparator`; unkeyed output is the primary list in a sorted order of its positions, joined with the output separator; keyed output is the second list at those positions, or an error when it is missing or shorter |
| SimpleSort.SortedOrderSorts | src/SimpleSortHooks.php:152-157 | unkeyed output is sorted under the selected comparison and is a permutation of the (truncated) token list |
| SimpleSort.DescendingReversesAscending | src/SimpleSortHooks.php:139-143 | reading an ascending order backwards gives a valid descending order whose output is the ascending output reversed |
| SimpleSort.KeyedPairing | src/SimpleSortHooks.php:136-150 | keyed output has the truncated primary list's length; its entry `j` is the second-list entry at the original position of the primary entry sorted into place `j`; with a long enough second list it is a permutation of that list's first entries |

## Left out

- Parser registration (`onParserFirstCallInit`), the `noparse` wrapper of the returned array and the `wfMessage` lookup: framework plumbing. The error is returned as `UnknownOption(token)`.
- `SimpleSort.php` (the deprecated entry point) and `SimpleSort.hooks.php` (an older copy of the same class without `keyed` and `stoponblank`) are not part of this model.
- Natural order (`strnatcmp`/`strnatcasecmp`) and `SORT_NUMERIC` (coercion of numeric strings to floating point) are not defined. They are parameters assumed to be total preorders.
- PCRE `\s` is the ASCII set {space, tab, LF, VT, FF, CR}; Unicode and locale whitespace is not modelled.
- `str_split` is modelled per character, not per byte, so multibyte text is not split into bytes.
- Tokenizer.Characters: `str_split("")` is taken as `[""]`, as in PHP before 8.2; PHP 8.2 returns `[]`. Unkeyed output is "" either way. In keyed mode with an empty input separator and a primary list of only whitespace (options `keyed insep=""`, list "  ", second list "xy"), the model keys on `[""]` and outputs "x", where PHP 8.2 outputs "".
- SortOptions.ParseReadsWords: stated only when the trimmed options neither start nor end with a form feed, the one `\s` character `trim` keeps; there it would add an empty piece.
- Pattern: the pattern check covers the delimiters and the modifiers after them; the rest of PCRE compilation is not modelled, since a quoted separator between `[\s]*` runs is otherwise well formed.
- Pattern.Unquote reads back only the escapes `preg_quote` writes (a backslash before a character, and `\000`); the rest of PCRE's escape syntax is not modelled.
- Tokenizer.SplitCount: stated only for separators that do not start with whitespace. For a separator that does, the regex's leading whitespace run can overlap the separator itself, and that corner of greedy matching is not modelled.
- Tokenizer.SplitJoin: stated only for separators without whitespace and for tokens in which the separator does not start early (for example "a" before the separator "aa").
- Keyed mode with a missing or short second list: PHP reads undefined indices as null. The model returns `MissingSecondList` or `SecondListTooShort` instead.
- SimpleSort.StopOnBlank: works on a sequence value and returns the cut list; the in-place `array_splice` on the PHP array is not modelled.
- SimpleSort.Render: claims a sorted permutation, not PHP's particular tie order, because PHP's sort is not stable before version 8 (the model's own sort is stable, as PHP 8's is). The unkeyed `sort`/`rsort` of the strings is modelled as sorting positions in place on an array and then gathering the strings; the strings themselves are not moved in place.

## Findings

| source | as written | input that shows it | evidently intended | confidence | as-written member | corrected member |
|---|---|---|---|---|---|---|
| src/SimpleSortHooks.php:179 | `preg_quote($sep)` leaves the pattern delimiter `/` unescaped | options `insep="/"` with list `a/b`: the pattern is `/[\s]*/[\s]*/`, which closes after the first `[\s]*`, so `[` is read as an unknown modifier and `preg_split` returns false | `preg_quote($sep, "/")`, after which every separator splits | not executed | Pattern.UndelimitedPatternFails | Pattern.DelimitedPatternCompiles |
