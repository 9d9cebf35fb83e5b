# strmangle in Dafny

A model of the identifier case-conversion engine of sqlboiler's `strmangle`
package, and of the small SQL-text and slice helpers next to it, with proofs.

- `TitleCase` turns a snake-case name into a Go TitleCase name. A two-cursor
  scan cuts the name into maximal `_`-free words. A word is uppercased
  throughout when its letters before the first digit are one of
  `guid`/`id`/`uid`/`uuid`, or when it has no vowel (`a e i o u y`).
  Otherwise only its first byte is uppercased. Results are memoised.
- `CamelCase` drops the leading `_` run, keeps the first word, and applies
  TitleCase to what follows the `_` that ends it.
- `TitleCaseIdentifier` applies TitleCase to each `.`-separated fragment.
- `Placeholders`, `WhereClause` and `SetParamNames` write numbered `$n`
  parameter text. `IdentQuote` and `IdentQuoteSlice` quote dotted identifiers.
- `StringMap`, `PrefixStringSlice`, `JoinSlices`, `StringSliceMatch` and
  `ContainsAny` are element-wise maps and searches over string slices.

Layout:

- `text.dfy` (module `Text`): byte-string vocabulary.
  - the `strings` functions used: `IndexByte`, `Split`, `Join`;
  - ASCII case, counting, and decimal notation for `%d`.
- `casing.dfy` (module `Casing`): the conversions as pure definitions.
  - `TitleCaseOf` renders the words of a name;
  - `CamelCaseOf` and `TitleCaseIdentifierOf`;
  - lemmas about all three.
- `strmangle.dfy` (module `Strmangle`): the loops of the source, proved against those definitions.
  - the title-case cache is the class `TitleCaser`, holding a `map` field;
  - its invariant `Valid()` says every cached value is the conversion of its key.
- `sql.dfy` (module `Sql`): the placeholder, WHERE/SET and identifier-quoting builders.
  - each is a loop over a buffer, proved against a function giving the whole output;
  - a Go `panic` becomes an `Err` carrying the panic's text.
- `slices.dfy` (module `Slices`): the slice helpers, as element-wise maps into fresh arrays and nested searches.
- `casing_samples.dfy` and `sql_samples.dfy`: worked examples, proved from the definitions.
  - Four come from the package's doc comments: `CasingSamples.ColumnNameId` (strmangle/strmangle.go:164),
    `CasingSamples.CamelCaseSampleShape` (strmangle/strmangle.go:250), `SqlSamples.PlaceholdersSampleGrouped`
    (strmangle/strmangle.go:370) and `SqlSamples.WhereClauseSample` (strmangle/strmangle.go:418).
  - The others are chosen to exercise edge cases and each branch of the code.

Go strings are sequences of bytes. Here they are `seq<char>` with one `char` per byte, and every
transformation involved is ASCII. Points of the code worth knowing:

- The code counts `y` as a vowel (strmangle/strmangle.go:205), so `xyz` renders as `Xyz`
  (`CasingSamples.RenderedXyz`).
- Placeholders and WhereClause refuse only a start of exactly 0 (strmangle/strmangle.go:376, 420);
  a negative start is accepted.
- The WHERE doc comment writes its example without quotes (strmangle/strmangle.go:418).
  - The code quotes every column (strmangle/strmangle.go:428).
  - The proved sample has the quotes.

## Model

| member | source | states |
|---|---|---|
| Text.ToLowerAscii | strmangle/strmangle.go:38 | `strings.ToLower` on ASCII: A-Z become a-z, every other byte kept, length kept |
| Text.IndexByte | strmangle/strmangle.go:290 | -1 exactly when the byte does not occur; otherwise an index holding the byte with no earlier occurrence |
| Text.Find | strmangle/strmangle.go:269-275 | the scan for the first `_`: no earlier `c`, and `c` at the result unless it is the length |
| Text.FindUnique | strmangle/strmangle.go:269-275 | any index with that characterisation is the one Find returns |
| Text.StripLeadingAt | strmangle/strmangle.go:255-267 | when the leading run of `c` ends at `i`, stripping leaves exactly `s[i..]` |
| Text.ToUpperFacts | strmangle/strmangle.go:217-220 | subtracting 32 maps a-z onto A-Z and changes no other byte |
| Text.Split | strmangle/strmangle.go:49 | `strings.Split` on one byte: the text before the first separator, then the split of the rest; never empty |
| Text.SplitParts | strmangle/strmangle.go:49 | no part of a split holds the separator |
| Text.SplitCount | strmangle/strmangle.go:49 | a string with n separators splits into n + 1 parts, empty ones included |
| Text.JoinSplit | strmangle/strmangle.go:49 | joining the parts of a split with the separator gives the string back |
| Text.SplitJoin | strmangle/strmangle.go:49 | splitting a join of separator-free parts gives the parts back |
| Text.SplitAround | strmangle/strmangle.go:49 | a separator in the middle splits a string into the parts on either side |
| Text.FieldEndIndexByte | strmangle/strmangle.go:316-321 | IndexByte on the suffix after `lastDot`, shifted by `lastDot`, or the length, is where the fragment ends |
| Text.SplitFromSuffix | strmangle/strmangle.go:300-322 | the fragments the dot cursors visit are `strings.Split` of the text |
| Text.IntToDecimal | strmangle/strmangle.go:391 | `%d`: the decimal digits of the value, after a `-` exactly when it is negative |
| Text.IntToDecimalChars | strmangle/strmangle.go:391 | `%d` writes digits only, after a `-` for a negative value |
| Text.DecimalRoundTrip | strmangle/strmangle.go:391 | reading back the digits written for n gives n |
| Casing.FirstDigitFacts | strmangle/strmangle.go:203-210 | `numStart` is a digit's index with no digit before it, or the word length |
| Casing.FirstDigitUnique | strmangle/strmangle.go:203-210 | any index with that characterisation is `numStart` |
| Casing.RenderedWord | strmangle/strmangle.go:199-230 | a word is uppercased throughout when its letters before the first digit are a listed acronym or it has no vowel; otherwise only its first byte |
| Casing.RenderedWordBytes | strmangle/strmangle.go:212-230 | same length; on the acronym path every byte, on the normal path only the first, goes through the a-z uppercase step |
| Casing.RenderedWordNoLower | strmangle/strmangle.go:214-230 | a word with no lowercase letter is written unchanged on either path |
| Casing.RenderedWordKeeps | strmangle/strmangle.go:214-230 | a non-letter byte is in the rendered word exactly when it is in the word |
| Casing.Words | strmangle/strmangle.go:183-197 | the words are non-empty and hold no `_` |
| Casing.WordsFromSplit | strmangle/strmangle.go:183-197 | the words are the non-empty pieces of a split on `_`, in order |
| Casing.WordsCoverName | strmangle/strmangle.go:183-197 | read together, the words hold every non-`_` byte of the name, in order |
| Casing.WordsOfJoin | strmangle/strmangle.go:183-197 | joining non-empty `_`-free words with `_` and rescanning gives the words back |
| Casing.WordsAround | strmangle/strmangle.go:183-197 | the words on either side of a `_` are the words of the whole |
| Casing.TitleCaseOf | strmangle/strmangle.go:177-234 | TitleCase: every maximal `_`-free word rendered, the renderings concatenated |
| Casing.TitleCaseLength | strmangle/strmangle.go:177-234 | the output has one byte per non-`_` byte of the input |
| Casing.TitleCaseOfSeparators | strmangle/strmangle.go:183-190 | an empty or all-`_` name renders as the empty string |
| Casing.TitleCaseNoLower | strmangle/strmangle.go:214-229 | a name with no `_` and no lowercase letter is returned unchanged |
| Casing.TitleCaseKeeps | strmangle/strmangle.go:214-229 | a byte that is neither a letter nor `_` occurs in the output exactly when it occurs in the input |
| Casing.TitleCaseStripped | strmangle/strmangle.go:186-190 | leading underscores do not change the result |
| Casing.TitleCaseSkip | strmangle/strmangle.go:187-190 | a leading `_` contributes nothing |
| Casing.TitleCaseFirstWord | strmangle/strmangle.go:199-233 | a name starting with a word renders as that word rendered, then the rest |
| Casing.TitleCaseAround | strmangle/strmangle.go:183-234 | TitleCase distributes over a `_`: each side on its own, the `_` dropped |
| Casing.TitleCaseOfWord | strmangle/strmangle.go:199-230 | a single word renders through the word renderer alone |
| Casing.TitleCaseFromSuffix | strmangle/strmangle.go:183-234 | the word-by-word scan from any index renders exactly the suffix from there |
| Casing.TitleCaseFromStart | strmangle/strmangle.go:183-234 | the word-by-word scan from 0 is TitleCase |
| Casing.ScanFromWords | strmangle/strmangle.go:183-197 | from any reachable cursor state the byte scan renders what the word scan renders |
| Casing.ScanFromStart | strmangle/strmangle.go:181-234 | the byte scan from cursors 0, 0 is TitleCase |
| Casing.CamelCaseOf | strmangle/strmangle.go:251-285 | CamelCase: leading `_` dropped; the first word kept verbatim, TitleCase applied after the `_` that ends it |
| Casing.CamelCaseOfSeparators | strmangle/strmangle.go:263-267 | an empty or all-`_` name gives the empty string |
| Casing.CamelCaseSingleWord | strmangle/strmangle.go:277-278 | with no `_` after the leading ones, the stripped name is returned verbatim |
| Casing.CamelCaseRest | strmangle/strmangle.go:279-282 | otherwise the first word verbatim, then TitleCase of the rest from its `_` |
| Casing.FirstWordOfStripped | strmangle/strmangle.go:269-282 | the first word of the stripped name is non-empty; CamelCase keeps it and TitleCase renders it |
| Casing.CamelCaseVersusTitleCase | strmangle/strmangle.go:251-285 | CamelCase and TitleCase agree after the first word, which only TitleCase renders |
| Casing.TitleCaseIdentifierOf | strmangle/strmangle.go:289-326 | every `.`-separated fragment converted by TitleCase, joined again with `.` |
| Casing.TitleCaseEachParts | strmangle/strmangle.go:302-304 | each fragment is converted in place |
| Casing.TitleCaseIdentifierParts | strmangle/strmangle.go:289-326 | splitting the result on `.` gives the converted fragments: the component count, empty ones included, is kept |
| Casing.TitleCaseIdentifierNoDot | strmangle/strmangle.go:290-293 | a name without `.` is converted by TitleCase alone |
| Casing.TitleCaseIdentifierOfJoin | strmangle/strmangle.go:289-326 | dot-free parts joined with `.` convert to their conversions joined with `.` |
| Strmangle.RenderWord | strmangle/strmangle.go:199-230 | the vowel and first-digit loop and the two write paths compute the word renderer |
| Strmangle.ScanTitleCase | strmangle/strmangle.go:177-236 | the two-cursor loop computes TitleCase of the name |
| Strmangle.TitleCaser.constructor | strmangle/strmangle.go:156-159 | the cache starts empty, which keeps the invariant |
| Strmangle.TitleCaser.TitleCase | strmangle/strmangle.go:168-245 | result is TitleCase of the name; a hit returns the stored value and leaves the cache as it was; afterwards the name maps to the result and no other entry changes; every cached value stays the conversion of its key |
| Strmangle.TitleCaser.CamelCase | strmangle/strmangle.go:251-285 | result is CamelCase of the name; the cache gains the entry for the text after the first `_`, or nothing when there is no `_` |
| Strmangle.TitleCaser.TitleCaseIdentifier | strmangle/strmangle.go:289-326 | result is the fragments converted and joined with `.`; the cache gains exactly the fragments of `Split(id, '.')` as keys, each mapped to its conversion |
| Strmangle.TitleCaser.TitleCaseFragments | strmangle/strmangle.go:295-322 | the `lastDot`/`nextDot` loop writes every fragment converted, with `.` between; the cache gains exactly the fragments visited as keys |
| Strmangle.TitleCaser.AppendFragment | strmangle/strmangle.go:302-310 | one fragment is converted, appended after a `.` unless first, and cached: the keys are those before plus this fragment |
| Strmangle.JoinTitledSnoc | strmangle/strmangle.go:306-309 | one more converted fragment adds a `.` (unless first) and the conversion |
| Strmangle.NextDot | strmangle/strmangle.go:316-321 | the next `.` after `lastDot`, or the length, ends the next fragment |
| Strmangle.FragmentDone | strmangle/strmangle.go:302-321 | one fragment moves from the fields still to visit to those done |
| Sql.PlaceholdersOf | strmangle/strmangle.go:372-398 | the panic when start or group is 0; otherwise the numbered placeholders, parenthesised in groups when group > 1 |
| Sql.Placeholders | strmangle/strmangle.go:372-398 | an error exactly when start or group is 0; otherwise the placeholders in order, `),(` where a group opens, parenthesised when group > 1 |
| Sql.IsMultipleMod | strmangle/strmangle.go:385 | the group-boundary test agrees with `i % group == 0` |
| Sql.DecimalPlain | strmangle/strmangle.go:391 | a number written by `%d` holds no `$`, `(` or `,` |
| Sql.PlaceholderCount | strmangle/strmangle.go:384-391 | a placeholder holds its separator's bytes and exactly one `$` |
| Sql.SepCount | strmangle/strmangle.go:384-390 | a separator holds no `$`, and a `(` exactly where a group opens |
| Sql.PlaceholderDollars | strmangle/strmangle.go:383-392 | exactly one `$` per placeholder emitted |
| Sql.PlaceholderOpens | strmangle/strmangle.go:383-390 | one `(` inside the list per group boundary crossed |
| Sql.BoundariesDiv | strmangle/strmangle.go:385 | with groups, the boundaries before placeholder n number (n - 1) / group |
| Sql.PlaceholderGroups | strmangle/strmangle.go:380-395 | with groups: starts with `(`, ends with `)`, holds ceil(count / group) groups (one empty pair for count <= 0) and count `$` |
| Sql.PlaceholdersFlat | strmangle/strmangle.go:383-392 | without groups: `$start` ... `$(start+count-1)` joined by commas |
| Sql.FlatList | strmangle/strmangle.go:383-392 | without groups every placeholder after the first follows a comma |
| Sql.ParamsAt | strmangle/strmangle.go:427-428 | column i is assigned placeholder number start + i |
| Sql.ParamsSnoc | strmangle/strmangle.go:427-431 | one more column appends one more assignment, nothing else changes |
| Sql.JoinParams | strmangle/strmangle.go:427-432 | the loop writes each assignment, with the separator between adjacent ones |
| Sql.JoinParamsStep | strmangle/strmangle.go:427-432 | column i adds its assignment after the separator unless it is the first |
| Sql.WhereClause | strmangle/strmangle.go:419-435 | an error exactly when start is 0; otherwise the assignments from `$start` joined by ` AND ` |
| Sql.SetParamNames | strmangle/strmangle.go:403-415 | the assignments from `$1` joined by `, ` |
| Sql.ParamDollar | strmangle/strmangle.go:428 | an assignment holds one `$` when its column holds none |
| Sql.CountJoinOnce | strmangle/strmangle.go:427-432 | joined with a `$`-free separator, one `$` per part |
| Sql.WhereClauseDollars | strmangle/strmangle.go:419-435 | with `$`-free columns the clause holds exactly one placeholder per column |
| Sql.WhereClauseSnoc | strmangle/strmangle.go:427-432 | another column appends ` AND ` and its assignment |
| Sql.IdentQuote | strmangle/strmangle.go:37-66 | `null` in any ASCII case and anything the pattern rejects come back unchanged; otherwise every `.` fragment is quoted unless already quoted at an end or `*` |
| Sql.QuoteFragment | strmangle/strmangle.go:55-62 | a fragment already quoted at either end, or `*`, is kept; any other is wrapped in double quotes |
| Sql.IdentQuoteOf | strmangle/strmangle.go:37-66 | `null` in any ASCII case or a pattern-rejected identifier is kept; otherwise each `.` fragment quoted, rejoined with `.` |
| Sql.QuoteStep | strmangle/strmangle.go:49-63 | fragment i adds its quoted form after a `.` unless it is the first |
| Sql.QuoteFragmentIdempotent | strmangle/strmangle.go:54-62 | quoting a fragment twice is quoting it once |
| Sql.QuoteFragmentFacts | strmangle/strmangle.go:54-62 | a quoted fragment is marked at one end or is `*`; quoting adds no `.` |
| Sql.QuoteEachAt | strmangle/strmangle.go:49-63 | each fragment is quoted in place |
| Sql.QuoteEachIdempotent | strmangle/strmangle.go:49-63 | quoting every fragment twice is quoting once |
| Sql.IdentQuoteParts | strmangle/strmangle.go:49-63 | when quoting applies, splitting the result on `.` gives the quoted fragments |
| Sql.QuotedNotNull | strmangle/strmangle.go:38-40 | a quoted result never lowers to `null` |
| Sql.LowerKeeps | strmangle/strmangle.go:38 | lowering keeps every byte that is not a letter |
| Sql.IdentQuoteIdempotent | strmangle/strmangle.go:37-66 | quoting an identifier again changes nothing, whatever the pattern accepts |
| Sql.IdentQuoteSlice | strmangle/strmangle.go:69-80 | each identifier quoted, in order; an empty slice is returned as it is |
| Sql.IdentQuoteAllIdempotent | strmangle/strmangle.go:69-80 | quoting a slice twice is quoting it once |
| Slices.StringMap | strmangle/strmangle.go:348-356 | the modifier applied to each string, in order |
| Slices.MapStringsAppend | strmangle/strmangle.go:348-356 | mapping distributes over concatenation |
| Slices.MapStringsCompose | strmangle/strmangle.go:348-356 | two maps in a row are one map by the composition |
| Slices.PrefixStringSlice | strmangle/strmangle.go:359-367 | each string with the prefix in front, in order |
| Slices.PrefixedStrip | strmangle/strmangle.go:359-367 | cutting the prefix off again gives back each original string |
| Slices.JoinSlices | strmangle/strmangle.go:438-452 | an error exactly when the lengths differ; otherwise `a[i] + sep + b[i]` for each i |
| Slices.JoinSlicesUnzip | strmangle/strmangle.go:446-449 | each joined element cuts back into `a[i]`, the separator and `b[i]` |
| Slices.StringSliceMatch | strmangle/strmangle.go:457-476 | true exactly when the lengths agree and every element of `a` occurs in `b` |
| Slices.StringSliceMatchIgnoresDuplicates | strmangle/strmangle.go:454-476 | `["x", "x"]` matches `["x", "y"]` although their elements differ |
| Slices.StringSliceMatchMultiset | strmangle/strmangle.go:454-456 | true exactly when both hold the same elements, each as often, in any order |
| Slices.MissingCopy | strmangle/strmangle.go:462-472 | an element of `a` with no copy left in `b` shows the multisets differ |
| Slices.MultisetMatchImpliesMembers | strmangle/strmangle.go:457-476 | equal multisets imply the membership test the code performs |
| Slices.ContainsAny | strmangle/strmangle.go:480-490 | true exactly when some element of `a` is one of `finds` |
| Slices.SharesSymmetric | strmangle/strmangle.go:478-490 | the test does not depend on which slice is searched |
| CasingSamples.RenderedPlainWord | strmangle/strmangle.go:223-229 | a digit-free, unlisted word with a vowel only has its first byte capitalised |
| CasingSamples.RenderedListedWord | strmangle/strmangle.go:212-222 | a word whose letters before its first digit are listed is uppercased throughout |
| CasingSamples.RenderedVowelFreeWord | strmangle/strmangle.go:214-222 | a word without a vowel is uppercased throughout |
| CasingSamples.RenderedPlainSamples | strmangle/strmangle.go:223-229 | `column`, `name`, `xyz` render as `Column`, `Name`, `Xyz` |
| CasingSamples.RenderedXyz | strmangle/strmangle.go:205 | `xyz` counts `y` as a vowel and renders as `Xyz` |
| CasingSamples.RenderedAcronymSamples | strmangle/strmangle.go:212-222 | `id`, `uuid`, `id12`, `xml` render as `ID`, `UUID`, `ID12`, `XML` |
| CasingSamples.TitleCaseTwoWords | strmangle/strmangle.go:183-234 | two words around a `_` render as the two rendered words |
| CasingSamples.TitleCaseThreeWords | strmangle/strmangle.go:183-234 | likewise for three words |
| CasingSamples.TitleCaseSampleShape | strmangle/strmangle.go:161-164 | names shaped like `column_name_id` become `ColumnNameID` |
| CasingSamples.ColumnNameId | strmangle/strmangle.go:161-164 | `column_name_id` becomes `ColumnNameID` |
| CasingSamples.TitleCaseSampleWords | strmangle/strmangle.go:212-230 | single-word names render as their word: `xyz` to `Xyz`, `xml` to `XML` |
| CasingSamples.CamelCaseThreeWords | strmangle/strmangle.go:279-282 | CamelCase of three words keeps the first and renders the others |
| CasingSamples.CamelCaseSampleShape | strmangle/strmangle.go:247-250 | names shaped like `var_name_id` become `varNameID` |
| CasingSamples.CamelCaseSamples | strmangle/strmangle.go:263-278 | `___` gives the empty string; `noUnderscore` comes back unchanged |
| CasingSamples.TitleCaseOfLetter | strmangle/strmangle.go:223-229 | a one-letter name renders as that letter uppercased |
| CasingSamples.TitleCaseIdentifierThreeParts | strmangle/strmangle.go:289-326 | three dot-free parts convert part by part |
| CasingSamples.TitleCaseIdentifierSample | strmangle/strmangle.go:287-289 | `a.b.c` becomes `A.B.C` |
| SqlSamples.PlaceholdersSampleFlat | strmangle/strmangle.go:383-392 | 3 placeholders from 2, ungrouped: `$2,$3,$4` |
| SqlSamples.PlaceholdersSampleGrouped | strmangle/strmangle.go:369-371 | 6 placeholders from 1 in groups of 3: `($1,$2,$3),($4,$5,$6)` |
| SqlSamples.WhereClauseSample | strmangle/strmangle.go:417-418 | columns `colthing`, `colstuff` from 2: `"colthing"=$2 AND "colstuff"=$3` |
| SqlSamples.RefusedArguments | strmangle/strmangle.go:376-378 | a start or group of 0 is refused with the panic text; so is a WHERE start of 0 |
| SqlSamples.IdentQuoteSampleDotted | strmangle/strmangle.go:49-63 | `a.b` becomes `"a"."b"` |
| SqlSamples.IdentQuoteSampleStar | strmangle/strmangle.go:54 | `t.*` becomes `"t".*` |
| SqlSamples.IdentQuoteSampleKept | strmangle/strmangle.go:38-44 | `NuLL` and a rejected identifier come back unchanged |
| SqlSamples.IdentQuoteSampleName | strmangle/strmangle.go:37-63 | `name.id`, whose first part begins like `null`, becomes `"name"."id"` |
| SqlSamples.IdentQuoteTwo | strmangle/strmangle.go:49-63 | two dot-free components are each quoted on their own |

## Left out

- The `sync.RWMutex` around the cache (strmangle/strmangle.go:157, 170-172, 240-242): the model is single-threaded and the cache is a plain `map` field.
- The buffer pool.
  - `GetBuffer`/`PutBuffer` (buf.go is not part of this model): each buffer is a fresh local string.
  - TitleCaseIdentifier returns its buffer to the pool before reading it (strmangle/strmangle.go:324-325). That only matters when another goroutine reuses the buffer, so it is not modelled.
- The debug `fmt.Println` in TitleCaseIdentifier (strmangle/strmangle.go:301): output only, no effect on the result.
- `Identifier` (strmangle/strmangle.go:85-106): it sizes its output with floating-point `math.Log`/`math.Pow`.
- `Plural` and `Singular`: they call the inflection rule set, which is not part of this model.
- `MakeStringMap`: it iterates a Go map, so its output order is unspecified.
- The identifier pattern `smartQuoteRgx` (strmangle/strmangle.go:17): regular-expression matching is a library call. IdentQuote takes the match as a parameter `smartQuote: string -> bool`, so every property about it holds for any pattern.
- `strings.ToLower` is modelled on ASCII letters only; non-ASCII case mappings are not.
- `fmt.Sprintf("%d")` is the decimal rendering `IntToDecimal`. No other verbs are modelled.
- Sql.Placeholders: does not model Go's 64-bit wrap-around of `start + i`, because integers here are unbounded.
- Sql.WhereClause: does not model Go's 64-bit wrap-around of `start + i`, for the same reason.
- Slices.JoinSlices: returns an empty sequence where Go returns a nil slice for empty input, because sequences have no nil.

## Findings

| source | as written | input that shows it | evidently intended | confidence | as-written member | corrected member |
|---|---|---|---|---|---|---|
| strmangle/strmangle.go:454-476 | StringSliceMatch checks equal lengths and that each element of `a` occurs somewhere in `b` | `a = ["x", "x"]`, `b = ["x", "y"]` gives true | the doc comment says both slices hold the same elements in any order, which is multiset equality | not executed | Slices.StringSliceMatchIgnoresDuplicates | Slices.StringSliceMatchMultiset |
