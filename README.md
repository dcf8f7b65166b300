# table-scraper-demo in Dafny

A model of the data handling in the election-results page table-scraper-demo. The page fetches pages of result rows from the North Carolina State Board of Elections, turns them into typed rows, offers two drop-downs (candidate names and race names), and narrows the rows with a Search button. The model covers:

- `util.dfy`, module `Util`: the three string utilities of `src/util.ts`.
  - `titlecase` splits on every single whitespace character, capitalises each token and joins the tokens with single spaces. As in the code, an empty token becomes the text `undefined`.
  - `numberWithCommas` applies the thousands-separator regular expression. The model follows the regular expression's own definition position by position, over the text of an integer.
  - `deleteWithinParens` removes every `(`…`)` span together with the runs of spaces on both sides of it, scanning from the left as a global regular-expression replacement does.
- `app.dfy`, module `App`: the row processing of `src/App.tsx`.
  - `parseData` maps raw rows to typed rows.
  - The candidate and race option lists de-duplicate names in first-seen order.
  - The component state is the class `App.Page`. Its `Search` method reassigns a local sequence through the two conditional filters of the click handler. It is proved equal to the specification function `SearchResult`.
- `js.dfy`, module `Js`: the JavaScript built-ins these rely on.
  - `\s` whitespace, `trim`, `includes` and `replaceAll` with a literal pattern.
  - `toLowerCase` and `toUpperCase`, restricted to ASCII letters.
  - `Number.prototype.toString` for integers.
  - `parseInt` without a radix: it skips leading whitespace, accepts a sign and a `0x` prefix, and reads the longest digit run. NaN is `None`.
- `seqs.dfy`, module `Seqs`: subsequences, `Array.prototype.filter`, and `Array.from(new Set(xs))`.

`deleteWithinParens` also removes the spaces after the `)`, as the regular expression at src/util.ts:16 does. So `"Judge (Seat 5) District Court"` becomes `"JudgeDistrict Court"`.

## Model

| member | source | states |
|---|---|---|
| Js.Lower | src/App.tsx:160-167 | definition: each ASCII capital replaced by its small letter, all else kept; characterised by `Js.CaseMapping` and `Js.LowerSlice` |
| Js.IsWhiteSpace | src/util.ts:3 | definition of the `\s` class, also the set `trim` removes: the ECMAScript WhiteSpace characters (tab, vertical tab, form feed, space, no-break space, the byte-order mark and every Unicode space separator) and the LineTerminator characters (line feed, carriage return, U+2028, U+2029); characterised through `Util.Split`, `Js.Trim` and `Util.TitlecaseSpaces` |
| Js.Trim | src/App.tsx:125 | the result is the input without its leading whitespace run and trailing whitespace; it neither starts nor ends with whitespace |
| Js.TrimEmpty | src/App.tsx:157 | a string trims to nothing exactly when every character is whitespace |
| Js.TrimIdempotent | src/App.tsx:161 | trimming twice equals trimming once |
| Js.CaseMapping | src/util.ts:6 | ASCII upper- and lower-casing are idempotent, absorb each other and preserve whitespace |
| Js.Includes | src/App.tsx:159-167 | definition: the pattern is a prefix of some suffix of the text; characterised by `Js.IncludesAt` and `Js.IncludesSlice` |
| Js.IncludesAt | src/App.tsx:159-161 | `includes` holds exactly when the pattern starts at some index |
| Js.IncludesSlice | src/App.tsx:159-161 | every contiguous slice of a string is found by `includes` |
| Js.LowerSlice | src/App.tsx:160-161 | lower-casing commutes with slicing |
| Js.ReplaceAll | src/App.tsx:123-124 | definition: occurrences of a literal pattern found from the left, without overlap, each replaced; characterised by `Js.ReplaceAllKeepsPrefix`, `Js.ReplaceAllAtPattern` and `Js.DeleteAllUnchanged` |
| Js.ReplaceAllKeepsPrefix | src/App.tsx:123-124 | a prefix that does not contain the first character of the pattern is copied unchanged, and the replacement goes on in the rest |
| Js.ReplaceAllAtPattern | src/App.tsx:123-124 | an occurrence of the pattern at the front is replaced, and the scan resumes right after it |
| Js.DeleteAllUnchanged | src/App.tsx:123-124 | deleting every occurrence of a pattern leaves the text unchanged iff the pattern does not occur, shortens it strictly otherwise, and never lengthens it |
| Js.IntToString | src/util.ts:12 | definition of `x.toString()` for an integer: a `-` for a negative number, then the decimal digits of the magnitude; characterised by `Js.NatToString`, `Js.ValueOfNatToString` and `Js.ParseIntOfIntToString` |
| Js.NatToString | src/util.ts:12 | the decimal text of a natural number is non-empty, all digits, and has no leading zero |
| Js.ValueOfNatToString | src/util.ts:12 | reading the decimal text back gives the number |
| Js.ParseInt | src/App.tsx:32-50 | definition of `parseInt` without a radix: leading whitespace skipped, an optional sign, an optional `0x`, then the longest digit run, NaN (`None`) when there is none; characterised by `Js.ParseIntOfIntToString`, `Js.ParseIntLeadingDigits` and `Js.ParseIntNoDigits` |
| Js.ParseIntOfIntToString | src/App.tsx:32 | `parseInt` of an integer's text gives that integer |
| Js.ParseIntLeadingDigits | src/App.tsx:32-50 | unless the text starts with `0x` or `0X`, `parseInt` reads the leading run of decimal digits and ignores what follows a non-digit |
| Js.ParseIntNoDigits | src/App.tsx:32-50 | text that starts with no whitespace, sign or digit parses to NaN (`None`) |
| Seqs.Filter | src/App.tsx:158-168 | a filter keeps an order-preserving subsequence whose every element satisfies the predicate |
| Seqs.FilterMembership | src/App.tsx:158-168 | an element is kept iff it occurs in the input and satisfies the predicate |
| Seqs.FilterFilter | src/App.tsx:157-168 | two filters in a row equal one filter by the conjunction |
| Seqs.FilterKeepsAll | src/App.tsx:158-168 | filtering by a predicate every element meets changes nothing |
| Seqs.FilterIdempotent | src/App.tsx:158-168 | filtering twice by the same predicate equals filtering once |
| Seqs.FilterSame | src/App.tsx:158-168 | filters by predicates that agree on every element give the same result |
| Seqs.Distinct | src/App.tsx:119-128 | `Array.from(new Set(s))` has no duplicates and contains exactly the elements of `s`, listed in order of first occurrence |
| Util.Split | src/util.ts:3 | splitting yields at least one token and no token contains whitespace |
| Util.SplitCountsWhiteSpace | src/util.ts:3 | the number of tokens is the number of whitespace characters plus one |
| Util.Join | src/util.ts:8 | definition of `join(" ")`; characterised by `Util.SplitOfJoin`, `Util.JoinOfSplit`, `Util.JoinInjective` and `Util.JoinWhiteSpaceIsSpace` |
| Util.SplitOfJoin | src/util.ts:3-8 | splitting a space-join of a non-empty list of whitespace-free tokens gives the tokens back |
| Util.JoinOfSplit | src/util.ts:3-8 | joining the tokens of a string gives the string with every whitespace character replaced by a space |
| Util.JoinInjective | src/util.ts:8 | distinct non-empty lists of whitespace-free tokens join to distinct strings |
| Util.JoinWhiteSpaceIsSpace | src/util.ts:8 | the only whitespace in a join of whitespace-free tokens is the joining space, and the join's length is the tokens' total length plus the separators |
| Util.TitleToken | src/util.ts:5-6 | definition of the mapped token: `undefined` for an empty token, otherwise the first character upper-cased and the rest lower-cased; characterised by `Util.TitleTokenShape` |
| Util.TitleTokenShape | src/util.ts:5-6 | a titled token is never empty, is 9 characters (`undefined`) for an empty token and otherwise as long as the token, keeps whitespace-freedom, and a titled non-empty token is fixed by titling again |
| Util.TitleTokens | src/util.ts:4-7 | the `map` over the tokens: as many titled tokens as input tokens, the k-th being the title of the k-th token |
| Util.TitleTokensLength | src/util.ts:4-7 | the titled tokens' total length is the input tokens' total plus 9 per empty token |
| Util.TitleTokensFixed | src/util.ts:4-7 | titling non-empty tokens a second time changes nothing |
| Util.Titlecase | src/util.ts:1-9 | definition: split, title each token, join with spaces; characterised by `Util.TitlecaseTokens`, `Util.TitlecaseTokenwise`, `Util.TitlecaseSpaces`, `Util.TitlecaseLength` and `Util.TitlecaseIdempotent` |
| Util.TitlecaseTokens | src/util.ts:1-9 | the output splits into exactly the titled input tokens, one for one, and its only whitespace is the space |
| Util.TitlecaseTokenwise | src/util.ts:5-6 | token k of the output is `undefined` for an empty input token; otherwise it is the input token with its first character upper-cased and the rest lower-cased |
| Util.TitlecaseSpaces | src/util.ts:3-8 | the output has as many spaces as the input has whitespace characters |
| Util.TitlecaseLength | src/util.ts:1-9 | the output is as long as the input plus 9 per empty token, so the length is unchanged iff no token is empty |
| Util.TitlecaseIdempotent | src/util.ts:1-9 | titlecasing the output again changes nothing iff the input has no empty token |
| Util.TitlecaseStabilises | src/util.ts:1-9 | the second application is always a fixed point |
| Util.UndefinedRetitled | src/util.ts:6 | an `undefined` produced by an empty token is retitled to `Undefined` |
| Util.TitlecaseEmpty | src/util.ts:6 | the empty string becomes `undefined` |
| Util.TitlecaseDoubleSpace | src/util.ts:3-6 | `"a  b"` becomes `"A undefined B"` |
| Util.TitlecaseOfJoin | src/util.ts:1-9 | titlecasing a space-join of a non-empty list of whitespace-free tokens joins the titled tokens |
| Util.TitlecaseWord | src/util.ts:1-9 | a single whitespace-free word is titled as one token |
| Util.TitlecaseCons | src/util.ts:1-9 | a leading word and its following space are titled separately from the rest |
| Util.TitlecaseNewYork | src/util.ts:1-9 | `"new YORK county"` becomes `"New York County"` |
| Util.CommaAt | src/util.ts:12 | definition: the pattern `\B(?=(\d{3})+(?!\d))` matches at a position; characterised by `Util.GroupsAheadByRun` and `Util.CommaAtNumber` |
| Util.CommasFrom | src/util.ts:12 | definition of the global replacement from a position on: a comma before each matching position, every character copied; characterised by `Util.CommasOfNumberText` |
| Util.InsertCommas | src/util.ts:12 | definition of the replacement over a whole text; characterised through `Util.NumberWithCommasGrouped` |
| Util.NumberWithCommas | src/util.ts:11-13 | definition: the replacement applied to `x.toString()`; characterised by `Util.NumberWithCommasGrouped`, `Util.NumberWithCommasDigits`, `Util.NumberWithCommasCommaCount` and `Util.NumberWithCommasSmall` |
| Util.GroupsAheadByRun | src/util.ts:12 | the lookahead `(\d{3})+(?!\d)` holds at a position iff the digit run from there is a positive multiple of 3 long |
| Util.CommaAtNumber | src/util.ts:12 | inside the text of a number, the expression matches exactly at positions after the first digit that have a multiple of 3 digits to their right |
| Util.CommasOfNumberText | src/util.ts:12 | the left-to-right replacement over a number's digits equals the reference grouping `GroupDigits` |
| Util.NumberWithCommasGrouped | src/util.ts:11-13 | the output is the sign followed by the grouped decimal digits of the magnitude |
| Util.GroupDigits | src/util.ts:12 | independent reference layout: a first group of 1 to 3 digits, then comma-led groups of 3; characterised by `Util.GroupDigitsLayout` and `Util.GroupDigitsShape` |
| Util.GroupDigitsLayout | src/util.ts:12 | the first group has 1 to 3 digits, every later group exactly 3, and commas sit exactly between groups |
| Util.GroupDigitsShape | src/util.ts:12 | grouping inserts ⌊(digits−1)/3⌋ commas and deleting them gives the digits back |
| Util.NumberWithCommasSign | src/util.ts:11-13 | a negative number keeps its `-`, followed by a digit rather than a comma; a non-negative one starts with a digit |
| Util.NumberWithCommasDigits | src/util.ts:12 | deleting every comma from the output gives back `x.toString()` |
| Util.NumberWithCommasCommaCount | src/util.ts:12 | the output has ⌊(digits−1)/3⌋ commas |
| Util.NumberWithCommasSmall | src/util.ts:11-13 | the output equals `x.toString()` iff −1000 < x < 1000 |
| Util.NumberWithCommasFortyTwo | src/util.ts:11-13 | 42 gives `"42"` |
| Util.NumberWithCommasMillions | src/util.ts:11-13 | 1234567 gives `"1,234,567"` |
| Util.NumberWithCommasNegative | src/util.ts:11-13 | −1234 gives `"-1,234"` |
| Util.DeleteWithinParens | src/util.ts:15-17 | definition of the global replacement by the empty string, scanning from the left; characterised by `Util.DeleteWithinParensUnchanged`, `Util.DeleteLeavesNoClosedParen`, `Util.DeleteWithinParensIdempotent`, `Util.DeleteWithinParensSubsequence` and `Util.DeleteFirstSpan` |
| Util.ParenSpanAt | src/util.ts:16 | a match starting at the front of the text has positive length within the text |
| Util.DeleteWithinParensSubsequence | src/util.ts:16 | the output is the input with some characters deleted |
| Util.SpanMeansClosedParen | src/util.ts:16 | a match needs a `(` followed somewhere later by a `)` |
| Util.OpenAtStartSpans | src/util.ts:16 | a `(` followed later by a `)` always starts a match |
| Util.NoClosedParenUnchanged | src/util.ts:16 | text in which no `(` is followed by a `)` is returned unchanged, so an unmatched `(` is kept |
| Util.ClosedParenShrinks | src/util.ts:16 | text with a `(` followed later by a `)` gets strictly shorter |
| Util.DeleteWithinParensUnchanged | src/util.ts:15-17 | the output equals the input iff no `(` of the input is followed by a `)` |
| Util.DeleteLeavesNoClosedParen | src/util.ts:16 | in the output no `(` is followed anywhere later by a `)` |
| Util.DeleteWithinParensIdempotent | src/util.ts:15-17 | applying the function twice equals applying it once |
| Util.KeepPrefix | src/util.ts:16 | a prefix with no `(` that does not end in a space is kept in front of the processed rest |
| Util.SpanAtStart | src/util.ts:16 | spaces, `(`, text without `)`, `)` and spaces at the front are dropped as one match |
| Util.DeleteFirstSpan | src/util.ts:16 | the first parenthesised span and the space runs on both sides of it are removed, and the rest is processed on |
| Util.NoOpenParen | src/util.ts:16 | text without `(` is returned unchanged |
| Util.DeleteWithinParensJudge | src/util.ts:16 | `"Judge (Seat 5) District Court"` becomes `"JudgeDistrict Court"` |
| Util.DeleteWithinParensNoNesting | src/util.ts:16 | a match ends at the first `)`: `"a (b (c) d)"` becomes `"ad)"` |
| App.RaceName | src/App.tsx:33 | definition: the contest name titled, then its parenthesised notes deleted; characterised by `App.ParsedRowFields` and `App.SampleRaceName` |
| App.ParseRow | src/App.tsx:31-51 | definition of the mapped row: `parseInt` of every numeric field, the race name for `cnm`, text fields copied; characterised by `App.ParsedRowFields` and `App.ParseSampleRow` |
| App.ParseData | src/App.tsx:30-52 | one typed row per raw row, in the same order, each the parsed form of its raw row |
| App.ParsedRowFields | src/App.tsx:30-52 | `bnm`, `dtx`, `pty`, `col`, `ogl` and the text of `pct` are copied; the race name is the titled contest name with characters deleted, and no `(` in it is followed by a `)` |
| App.ParseDataConcat | src/App.tsx:95-99 | parsing the concatenated pages equals concatenating the parsed pages |
| App.SampleRaceTitlecase | src/App.tsx:195 | the sample contest name titles to `"City Of Durham Mayor (vote For 1)"` |
| App.SampleRaceName | src/App.tsx:195 | the sample contest name becomes the race `"City Of Durham Mayor"`, with a capital "Of" |
| App.SampleCounts | src/App.tsx:202 | `parseInt` of `"19290"` is 19290 and of `"0"` is 0 |
| App.SampleRow | src/App.tsx:192-214 | definition: the sample raw row, field by field; characterised by `App.ParseSampleRow` |
| App.ParseSampleRow | src/App.tsx:192-214 | the sample row parses to race `"City Of Durham Mayor"`, candidate `"Anjanee Bell"`, 19290 votes and contest id 0 |
| App.Blank | src/App.tsx:157-163 | definition: a query is null or trims to the empty string, so its filter is skipped; used by `App.SearchMembership` and `App.SearchBlankQueries` |
| App.Matches | src/App.tsx:158-167 | definition: the lower-cased field includes the lower-cased trimmed query; characterised by `App.MatchesOwnText` |
| App.Keep | src/App.tsx:157-167 | definition: each query is blank or matches its field (`bnm` for the candidate, `cnm` for the race); characterised by `App.SearchMembership` |
| App.SearchResult | src/App.tsx:155-169 | the search result is an order-preserving subsequence of the loaded rows, each of which passes both queries |
| App.SearchMembership | src/App.tsx:157-168 | a row is kept iff it is loaded and, for each query, the query is blank or the lower-cased field contains the lower-cased trimmed query |
| App.SearchBlankQueries | src/App.tsx:155-169 | with both queries null or whitespace-only, the result is all loaded rows |
| App.SearchIdempotent | src/App.tsx:157-168 | searching the result again with the same queries changes nothing |
| App.MatchesOwnText | src/App.tsx:159-167 | a field is matched by any query that trims to the field's own trimmed text |
| App.CleanName | src/App.tsx:122-125 | a cleaned candidate name is no longer than the raw name and neither starts nor ends with whitespace; the removal of the markers is stated by `App.CleanNameWriteIn` and `App.CleanNameMiscellaneous` |
| App.CleanNameWriteIn | src/App.tsx:122-125 | a name with no `(`, followed by `(Write-In)`, cleans to the trimmed name |
| App.CleanNameMiscellaneous | src/App.tsx:122-125 | a name with no `(`, followed by `(Miscellaneous)`, cleans to the trimmed name |
| App.CleanNameUnmarked | src/App.tsx:122-125 | a name without the `(Miscellaneous)` and `(Write-In)` markers is only trimmed |
| App.CandidateNames | src/App.tsx:121-126 | one name per row, in row order, the i-th being the cleaned candidate name of row i |
| App.RaceNames | src/App.tsx:141 | one name per row, in row order, the i-th being the race name of row i |
| App.CandidateOptions | src/App.tsx:116-128 | empty while loading; otherwise no duplicates, in first-seen order, every row's cleaned name present and every option some row's cleaned name |
| App.RaceOptions | src/App.tsx:138-141 | empty while loading; otherwise the distinct race names, in first-seen order, each row's present and each option some row's |
| App.RaceOptionSelectsRows | src/App.tsx:137-169 | a row's race is among the options, and searching for it finds the row whenever the candidate query is blank or matches the row's candidate |
| App.RaceOptionNonEmpty | src/App.tsx:137-169 | when no candidate query is set, every race option selects at least one row |
| App.CandidateOptionSelectsRows | src/App.tsx:115-169 | the cleaned name of a candidate whose name carries no marker is among the options, and searching for it finds that candidate's row whenever the race query is blank or matches the row's race |
| App.Page.constructor | src/App.tsx:82-104 | the page starts loading, with no queries and no results |
| App.Page.DataLoaded | src/App.tsx:98-100 | once the rows arrive, the state holds their parsed form |
| App.Page.SetCandidateSearch | src/App.tsx:115 | the candidate drop-down sets the candidate query |
| App.Page.SetElectionSearch | src/App.tsx:137 | the race drop-down sets the race query |
| App.Page.Search | src/App.tsx:151-169 | while loading the results are untouched; otherwise the two conditional filters leave exactly `SearchResult` of the loaded rows and queries |

## Left out

- The fetch loop `recurse` and the `useEffect` that starts it (src/App.tsx:84-100) are network I/O. `App.Page.DataLoaded` takes the concatenated rows as a parameter, and `App.ParseDataConcat` relates parsing to the page concatenation.
- `parseFloat` of `pct` (src/App.tsx:41) and the percentage display are floating point. `pct` keeps its text.
- Rendering is presentation and is not modelled: `ElectionTable` (src/App.tsx:54-79), src/ElectionTable.tsx with its party relabelling, the loaders, and the router files under src/routes.
- `toLocaleUpperCase` and `toLocaleLowerCase` are locale- and Unicode-dependent. Case mapping is modelled for ASCII letters only, and a string is a sequence of characters rather than UTF-16 code units.
- `numberWithCommas` is modelled over integers only. Fractions, exponent notation for magnitudes of 10^21 and above, NaN and Infinity are number formatting, not modelled.
- `Js.ParseInt`: integers are unbounded and `"-0"` gives 0. JavaScript loses precision above 2^53 and yields −0.
- Raw rows always carry all 19 keys. A missing key is `undefined` in JavaScript, and `titlecase` would throw on it.
- `setResults`, `setIsLoading` and the drop-down setters take effect at once. React's asynchronous state updates, `preventDefault` and `stopPropagation` are not modelled.
- `isLoading` is never set to `false` in the code, so `App.LoadState` has only the loading and loaded states.
- src/App.tsx has no step that rewrites race labels or groups rows by race.
- App.CleanName: its own contract gives only the length bound and the trimmed edges. Marker removal is proved for one trailing marker after a name without `(` (`App.CleanNameWriteIn`, `App.CleanNameMiscellaneous`), not for markers anywhere in the name.
- App.CandidateOptionSelectsRows: stated only for candidate names without the `(Miscellaneous)` and `(Write-In)` markers. Once a marker is removed from the middle of a name, the cleaned option need not occur as a substring of the raw name.
