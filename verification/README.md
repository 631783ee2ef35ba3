# Inflector string transforms in Dafny

This project models the core of `Neunerlei\Inflection\Inflector`
(`Classes/Inflector.php`). That core is a class of static, deterministic
string transforms. The project covers each of them:

- **Tokenizer (`toArray`).** The dumb split cuts before every ASCII capital and
  at runs of `-`, `_`, `.` or white space. It then drops empty pieces and
  lower-cases the rest. Intelligent splitting adds two passes first:
  - Pass 1 lower-cases isolated all-capital runs.
  - Pass 2 scans left to right with a byte offset. It puts a space before
    every capital run and pushes the last letter of a run that does not end
    the string into the next word.
- **Case composers.**
  - `toSpacedUpper`/`toHuman` join the tokens with spaces, each with ucfirst.
  - `toCamelCase` runs the ucfirst tokens together.
  - `toCamelBack` applies lcfirst to the camel case.
  - `toDashed`, `toUnderscore` and `toDatabase` join the tokens with `-` or `_`.
- **`toSlug`.** It makes these passes in order:
  1. It applies the `TRANSLITERATIONS` table, one `preg_replace` per entry.
  2. It blanks every character that is neither white space nor a letter or
     digit.
  3. It collapses runs of white space into `-` and trims dashes at both ends.
  4. It applies ASCII-only `strtolower`.
- **`toFile`.** It tests the extension reported by `pathinfo` against the
  `FILE_EXTENSIONS` list. The test fails for an empty extension and for `"0"`;
  otherwise it is a case-insensitive substring test. An accepted extension is
  re-attached as written, and the stem is trimmed. With `expectPath`, the
  directory part passes through unslugged, with `\` normalised to `/`.
- **`toComparable`.**
  1. It takes the words of `toFile`'s result through dumb `toArray`.
  2. It tallies them with `array_count_values`.
  3. It can append each count (`array_walk`) or keep only the keys
     (`array_keys`).
  4. It sorts in place and joins with spaces.
- **`toUuid`.** It cuts the md5 digest of the comparable form into groups of
  8-4-4-4-12.
- **Accessor helpers.** `toGetter`, `toSetter` and `toProperty`, with the
  option check of `applyToGetterSetterPropOptions` and the accessor-word
  sanitiser `sanitizeGetterAndSetterPrefix`.

The modules follow the structure of the program:

| module | file | models |
|---|---|---|
| `Chars` | `chars.dfy` | character classes, PHP's ASCII case functions, `implode`, `trim` |
| `Tokenizer` | `tokenizer.dfy` | `toArray`, both intelligent passes; pass 2 as the offset-counting scan |
| `Composer` | `composer.dfy` | the case composers |
| `Transliteration` | `transliteration.dfy` | the `TRANSLITERATIONS` table and its ordered application |
| `Slug` | `slug.dfy` | `toSlug` |
| `Files` | `files.dfy` | `FILE_EXTENSIONS`, `pathinfo`, `basename`, `toFile` and its path handling |
| `Comparable` | `comparable.dfy` | `toComparable`: tally, rewrite, in-place sort, join |
| `Uuid` | `uuid.dfy` | `toUuid`, PHP `substr` |
| `Accessors` | `accessors.dfy` | `toGetter`, `toSetter`, `toProperty` and their two helpers |

Where the source changes state step by step, the model does too:

- pass 2's scan (`Tokenizer.ScanAcronyms`);
- `toFile`'s `explode`/`array_pop`/append/`implode` (`Files.SplitPath`,
  `Files.ToFileWith`);
- the tally loop (`Comparable.CountValues`);
- the in-place rewrite and sort on an `array` (`Comparable.SortedEntries`,
  `Comparable.SortInPlace`).

Each of these methods is proved equal to a specification function, and the
properties are proved about that function.

Some steps of the source are plain definitions with no row of their own in
the table below. Rows for the lemmas about them state what they do:

- `Files.Basename` (`basename`) and `Files.Explode` (`explode`): `Files.JoinExplode`, `Files.SplitPath`;
- `Tokenizer.FoldIsolatedRuns` (pass 1 of `toArray`): `Tokenizer.FoldLowersOnly`;
- `Tokenizer.SplitAcronyms` (pass 2 of `toArray`): `Tokenizer.ScanAcronyms`, `Tokenizer.SplitAcronymsAtRun`;
- `Slug.CollapseSpaces` (pass 2 of `toSlug`): `Slug.CollapseShape`, `Slug.CollapseCut`;
- `Transliteration.ApplyRules` (the ordered `preg_replace` calls): `Transliteration.ApplyRulesIsLookup`.

Notes on the model:

- **Pass 1 consumes the separator after a run.** The scan resumes after it,
  so the separator cannot open the next match. In `"FOO_BAR_BAZ"` only the
  outer runs are folded. Pass 2 then reads `BAR` as an acronym followed by a
  word, and intelligent splitting gives `foo, ba, r, baz`
  (`Tokenizer.ThreeRunsTokens`).
- **`toComparable` slugs through `toFile`**, not `toSlug`, as the code does.
- **With counts, two different words can produce the same entry.** For
  example, a word `a1` occurring once and a word `a` occurring eleven times
  both give `a11`. So the counted output is a sorted list with one entry per
  distinct word, but it is not always free of duplicates. Without counts it is
  free of duplicates.
- **`tar.gz` never matches as a whole.** `FILE_EXTENSIONS` lists it, but
  `pathinfo` only returns the text after the last dot (`gz`), so the whole
  entry can never be the candidate. `gz` itself is in the list anyway.
- **`Files.FileName` takes the extension list as a parameter.** `toFile`
  (`Files.ToFile`) uses `FILE_EXTENSIONS`. The lemmas hold for any list.
- **An options key counts whenever its value is not null.** For example,
  `['noSanitizing' => false]` switches sanitising off, because `isset` only
  tests for null.

## Model

| member | source | states |
|---|---|---|
| Chars.TrimLeft | Classes/Inflector.php:187 | trim's left half returns a suffix of its input; every character it removes is a trim character, and what is left does not start with one |
| Chars.TrimRight | Classes/Inflector.php:187 | trim's right half returns a prefix of its input; every character it removes is a trim character, and what is left does not end with one |
| Tokenizer.UpperRun | Classes/Inflector.php:236 | the `[A-Z]+` run at the start of a string: all capitals, and maximal |
| Tokenizer.SeparatorRun | Classes/Inflector.php:227 | the run of one separator class at the start of a string: same class throughout, and maximal |
| Tokenizer.SplitFromTokens | Classes/Inflector.php:271-274 | every piece of the dumb split is non-empty, with no separator and no capital |
| Tokenizer.SplitFromSpells | Classes/Inflector.php:271-274 | the pieces of the split spell the input's non-separator characters, lower-cased, in order |
| Tokenizer.SplitJoined | Classes/Inflector.php:346-349 | tokens joined by one separator character split back into the same tokens |
| Tokenizer.MatchAt | Classes/Inflector.php:235-236 | a match of pass 1's pattern: group 2 is non-empty and lies inside the string |
| Tokenizer.MatchAtMeaning | Classes/Inflector.php:235-236 | pass 1's pattern matches exactly when a separator run (or the start of the subject) opens a whole capital run that a separator run (or the end) closes; a reported match is such a run, and when none is reported there is none |
| Tokenizer.FoldLowersOnly | Classes/Inflector.php:235-239 | pass 1 keeps the length and only lower-cases characters in place |
| Tokenizer.ScanAcronyms | Classes/Inflector.php:247-268 | the offset-counting scan of pass 2 computes the run-by-run replacement |
| Tokenizer.RunEnd | Classes/Inflector.php:249 | the `[A-Z]+` alternative matches the whole capital run from the scan position: all capitals, and not followed by one |
| Tokenizer.ReplaceRun | Classes/Inflector.php:261-267 | the callback's result for a capital run starts with a space, holds no capital, spells the run lower-cased, is one or two characters longer than the run, and has a second space exactly before the last letter when the run is longer than one letter and does not end the subject |
| Tokenizer.SplitAcronymsAtRun | Classes/Inflector.php:255-267 | a maximal capital run is replaced as one piece; whether it ends the string decides the split-off letter |
| Tokenizer.SplitAcronymsKeepsLetters | Classes/Inflector.php:247-268 | pass 2 keeps the letters of its input and leaves no capital |
| Tokenizer.RunReplacementNoUpper | Classes/Inflector.php:262-267 | the replacement of a run holds no capital |
| Tokenizer.ToArray | Classes/Inflector.php:224-275 | in both modes, every token is non-empty with no separator and no capital, and the tokens spell the input without separators, lower-cased |
| Tokenizer.SplitFromCut | Classes/Inflector.php:227-228 | the split cuts in front of every separator and every capital: what precedes one is split on its own |
| Tokenizer.CutBeforeCapital | Classes/Inflector.php:228 | in dumb mode a capital starts a new token: toArray(x + [C] + y) is toArray(x) followed by toArray([C] + y) |
| Tokenizer.CutAtSeparator | Classes/Inflector.php:227-228 | in dumb mode a separator ends the token and is dropped: toArray(x + [sep] + y) is toArray(x) followed by toArray(y) |
| Tokenizer.CapitalThenWord | Classes/Inflector.php:228 | in dumb mode a capital followed by text without separators or capitals is one token, with the capital lower-cased |
| Tokenizer.CamelCaseSplits | Classes/Inflector.php:224-275 | "fooBar" in dumb mode gives the tokens foo and bar |
| Tokenizer.ModesAgreeWithoutCapitals | Classes/Inflector.php:232-268 | without capitals, intelligent splitting changes nothing |
| Tokenizer.FoldWordWithoutSeparators | Classes/Inflector.php:235-239 | on a word without separators, pass 1 lower-cases it exactly when it is all capitals |
| Tokenizer.FoldRestWithoutSeparators | Classes/Inflector.php:236 | away from the start of the subject, pass 1 leaves a string without separators unchanged, because a run needs a separator before it to match |
| Tokenizer.SplitAcronymsWithoutCapitals | Classes/Inflector.php:250-258 | pass 2 copies a string without capitals |
| Tokenizer.DumbSplitOfCapitals | Classes/Inflector.php:228 | the dumb split cuts an all-capitals word into single letters |
| Tokenizer.AllCapitalsWord | Classes/Inflector.php:224-275 | an all-capitals word like "FAQ" is one token in intelligent mode and one token per letter in dumb mode |
| Tokenizer.CapitalizedWordThenAcronym | Classes/Inflector.php:247-268 | "HelloWORLD" in intelligent mode: two tokens, because the acronym ends the string |
| Tokenizer.CapitalizedWordThenAcronymDumb | Classes/Inflector.php:228 | "HelloWORLD" in dumb mode: the word, then one token per letter of the acronym |
| Tokenizer.AcronymBeforeWord | Classes/Inflector.php:259-262 | a run straight into a lower-case word, as in "FAQand", gives its last letter to the word |
| Tokenizer.FoldThreeRuns | Classes/Inflector.php:235-239 | of three acronyms joined by single separators, pass 1 folds only the outer two |
| Tokenizer.ThreeRunsTokens | Classes/Inflector.php:232-274 | "FOO_BAR_BAZ" in intelligent mode splits off the last letter of the middle acronym |
| Composer.ToSpacedUpper | Classes/Inflector.php:287-290 | it is the tokens joined by single spaces with ucfirst applied to the first character and to every character after a space; lower-cased it is the tokens joined by spaces, and dumb mode splits it back into the tokens |
| Composer.ToHuman | Classes/Inflector.php:301-304 | equals toSpacedUpper, so it is capitalised word by word and splits back into the tokens |
| Composer.ToCamelCase | Classes/Inflector.php:316-319 | it is ucfirst of the first token followed by ucfirst of each later token, with no separator; lower-cased it spells the input's kept letters; it splits back into the tokens when every later token starts with an ASCII lower-case letter |
| Composer.CamelSplitsBack | Classes/Inflector.php:316-319 | capitalised tokens run together split back into the tokens |
| Composer.ToCamelBack | Classes/Inflector.php:331-334 | ucfirst of it is toCamelCase; it is the first token followed by the capitalised rest; it keeps the letters and splits back |
| Composer.ToDashed | Classes/Inflector.php:346-349 | every separator in it is a single '-' between two non-separators, never at either end; no capital; both modes split it back into the same tokens |
| Composer.ToUnderscore | Classes/Inflector.php:361-364 | every separator in it is a single '_' between two non-separators, never at either end; no capital; both modes split it back into the same tokens |
| Composer.ToDatabase | Classes/Inflector.php:375-378 | equals toUnderscore, so it is single-underscore separated, has no capital and splits back into the tokens |
| Composer.DashedIdempotent | Classes/Inflector.php:346-364 | dashing or underscoring twice gives the same result as once |
| Transliteration.TableWellFormed | Classes/Inflector.php:35-94 | every source character is outside ASCII and every replacement is ASCII letters |
| Transliteration.ApplyRulesIsLookup | Classes/Inflector.php:163-169 | applying the entries one after the other is a single pass that replaces each character by its first entry's replacement |
| Transliteration.MapLookupLeavesNoSource | Classes/Inflector.php:35-94 | no character of the table survives the passes |
| Transliteration.MapLookupOfPlain | Classes/Inflector.php:35-94 | text without table characters passes through unchanged |
| Transliteration.Transliterate | Classes/Inflector.php:163-169 | the transliteration of toSlug leaves no table character and does not change plain text |
| Slug.SkipSpaces | Classes/Inflector.php:165 | returns a suffix of the input; everything it skips is white space, and what is left does not start with white space |
| Slug.TrimDashesLeft | Classes/Inflector.php:166 | the `^[\-]+` removal returns a suffix; everything it removes is a dash, and what is left does not start with one |
| Slug.TrimDashesRight | Classes/Inflector.php:166 | the `[\-]+$` removal returns a prefix; everything it removes is a dash, and what is left does not end with one |
| Slug.ToSlug | Classes/Inflector.php:161-170 | the result is a slug: letters and digits that are neither capitals nor table characters, single dashes, no dash at either end; without dashes it is the lower-cased letters and digits of the transliterated input |
| Slug.CollapseShape | Classes/Inflector.php:165 | collapsing white space leaves no two dashes in a row |
| Slug.LowerShape | Classes/Inflector.php:169 | lower-casing a collapsed, trimmed string made of dashes and plain characters gives a slug |
| Slug.DropDashesCollapse | Classes/Inflector.php:165 | collapsing white space only turns spaces into dashes |
| Slug.DropSpacesBlank | Classes/Inflector.php:164 | blanking keeps exactly the letters and digits |
| Slug.SlugIsFixpoint | Classes/Inflector.php:161-170 | a slug passes through toSlug unchanged |
| Slug.SlugIdempotent | Classes/Inflector.php:161-170 | toSlug(toSlug(x)) == toSlug(x) |
| Slug.SlugEmptyIff | Classes/Inflector.php:161-170 | toSlug gives "" exactly when the transliterated input holds no letter or digit |
| Slug.SlugOfWord | Classes/Inflector.php:161-170 | a string whose transliteration is letters and digits only slugs to that transliteration lower-cased |
| Slug.SlugAtEdge | Classes/Inflector.php:164-166 | a character that is neither a letter or digit nor a table character leaves no trace next to a side that slugs to nothing: toSlug(a + [c] + b) == toSlug(b) when toSlug(a) is "", and == toSlug(a) when toSlug(b) is "" (pass 3 trims the dash it would become) |
| Slug.SlugAtBreak | Classes/Inflector.php:164-166 | a character that is neither a letter or digit nor a table character, between two strings that each slug to something, becomes exactly one dash: toSlug(a + [c] + b) == toSlug(a) + "-" + toSlug(b) |
| Slug.CollapseCut | Classes/Inflector.php:165 | collapsing white space can be done piecewise at any cut that is not inside a run of white space |
| Slug.JoinAtSpace | Classes/Inflector.php:165-166 | collapsing and trimming put exactly one dash where a white-space character separates two words |
| Files.AfterLast | Classes/Inflector.php:184 | the text after the last occurrence of a character: a suffix without that character, preceded by it |
| Files.PathExtension | Classes/Inflector.php:184 | pathinfo's extension holds neither a dot nor a slash |
| Files.PathExtensionMeaning | Classes/Inflector.php:184 | the extension is "" when the basename has no dot, and otherwise the part of the basename after its last dot |
| Files.NormalizeSeparators | Classes/Inflector.php:195 | the normalised path has the same length and no backslash; each backslash becomes '/' and every other character stays |
| Files.PathPrefix | Classes/Inflector.php:196-203 | the directory part followed by the last component is the path, and it is empty or ends in '/' |
| Files.JoinExplode | Classes/Inflector.php:196-203 | implode('/', explode('/', s)) == s |
| Files.SplitPath | Classes/Inflector.php:195-204 | explode, array_pop, the appended empty part and implode give the directory part and the last component |
| Files.ToFileWith | Classes/Inflector.php:184-207 | the steps of toFile compute FileName for the given list of extensions |
| Files.ToFile | Classes/Inflector.php:181-208 | toFile with the FILE_EXTENSIONS list |
| Files.FileNameParts | Classes/Inflector.php:184-207 | the result is the directory part, a slug, and then either "." and the extension as written, when the extension is accepted, or nothing |
| Files.DirectoryPassesThrough | Classes/Inflector.php:192-204 | with expectPath, everything up to the last separator passes through, normalised; without it there is no directory part |
| Files.FileNameWithoutExtension | Classes/Inflector.php:184-192 | without an accepted extension and without path handling, toFile is toSlug |
| Files.ExtensionOfPlainName | Classes/Inflector.php:184 | a dot-free name with ".e" attached has extension e |
| Files.SluggedWithExtension | Classes/Inflector.php:184-190 | a slug with an accepted extension keeps the extension, and its trimmed stem is the slug |
| Files.StemOfPlainName | Classes/Inflector.php:184-190 | for a trimmed name without dots or slashes and an accepted extension, the stem is the name and the kept suffix is "." and the extension |
| Files.FileNameOfSlug | Classes/Inflector.php:181-208 | toFile without path handling returns a slug unchanged |
| Files.FileNameOfSluggedName | Classes/Inflector.php:181-208 | toFile without path handling returns a slug with an accepted extension unchanged |
| Files.FileNameIdempotent | Classes/Inflector.php:181-208 | toFile without path handling is idempotent |
| Comparable.Decimal | Classes/Inflector.php:462 | the decimal string of a count: non-empty, digits only, and a leading zero only for zero |
| Comparable.DecimalRoundTrip | Classes/Inflector.php:462 | reading the decimal string back gives the count |
| Comparable.LessOrEqualTotal | Classes/Inflector.php:468 | sort's string order is total |
| Comparable.LessOrEqualAntisymmetric | Classes/Inflector.php:468 | sort's string order is antisymmetric |
| Comparable.LessOrEqualTransitive | Classes/Inflector.php:468 | sort's string order is transitive |
| Comparable.SortedUnique | Classes/Inflector.php:468 | a list has only one sorted arrangement |
| Comparable.SortStrings | Classes/Inflector.php:468 | sort's result is sorted and a permutation of its input |
| Comparable.CountIsMultiplicity | Classes/Inflector.php:458 | the tally of a word is its multiplicity in the list |
| Comparable.DistinctWords | Classes/Inflector.php:458 | the tally's keys hold every word exactly once |
| Comparable.CountValues | Classes/Inflector.php:458 | array_count_values: the keys are the distinct words in order of first occurrence, and each count is the word's tally |
| Comparable.SortInPlace | Classes/Inflector.php:468 | sort() in place: the array ends up sorted and a permutation of what it held |
| Comparable.InsertLast | Classes/Inflector.php:468 | one insertion step of the in-place sort extends the sorted prefix by one, keeps the elements, and leaves the rest of the array untouched |
| Comparable.SwapKeepsOrder | Classes/Inflector.php:468 | one adjacent swap moves the single out-of-order pair one place down |
| Comparable.SortedEntries | Classes/Inflector.php:458-468 | the tally, rewritten by array_walk or array_keys and then sorted, is the sorted list of entries |
| Comparable.ToComparable | Classes/Inflector.php:456-471 | toComparable computes the sorted entries of toFile's words, joined by spaces |
| Comparable.EntryListPermutation | Classes/Inflector.php:458-466 | rearranging the words rearranges the entries |
| Comparable.ComparableIgnoresOrder | Classes/Inflector.php:456-471 | word lists that are rearrangements of each other give the same comparable string |
| Comparable.WordsListedOnce | Classes/Inflector.php:464-470 | without counts, the output lists every word once, in ascending order, and nothing else |
| Comparable.CountedEntries | Classes/Inflector.php:458-463 | with counts, there is one entry per distinct word: the word followed by its count |
| Comparable.WordsListedWithCounts | Classes/Inflector.php:458-470 | with counts, the output is sorted and holds one entry per distinct word, each word followed by its positive count, and nothing else |
| Uuid.Substr | Classes/Inflector.php:489-493 | PHP substr with a length: the slice when it fits, the rest when it runs past the end, "" when it starts past the end |
| Uuid.SubstrFrom | Classes/Inflector.php:493 | PHP substr without a length: the rest, or "" past the end |
| Uuid.GroupsCoverDigest | Classes/Inflector.php:489-493 | the five groups, read in order, are the whole digest |
| Uuid.FormatUuidRoundTrip | Classes/Inflector.php:489-493 | removing the four dashes gives back a digest that has none |
| Uuid.FormatUuidLayout | Classes/Inflector.php:489-493 | a 32-character digest gives 36 characters, with dashes at 8, 13, 18 and 23 and the digest's groups between them |
| Uuid.ToUuid | Classes/Inflector.php:485-494 | toUuid cuts the digest of the counted comparable form |
| Uuid.UuidIgnoresOrder | Classes/Inflector.php:485-494 | strings whose words are the same up to order get the same id, whatever the digest function |
| Accessors.OptionListEnabled | Classes/Inflector.php:504-515 | in the list form of the options, an option is on exactly when its name or its alias is listed |
| Accessors.NullKeyIsOff | Classes/Inflector.php:507 | a key whose value is null does not switch its option on |
| Accessors.DropAccessorWord | Classes/Inflector.php:527 | the string changes exactly when it starts with set, get, is or has followed by a character outside a-z, ö, ä, ü, ß; then exactly that word goes |
| Accessors.SanitizeAccessorPrefix | Classes/Inflector.php:525-528 | the trimmed string changes exactly when it starts with an accessor word that the next character does not continue; then the result is the trimmed string without that word |
| Accessors.NothingToDrop | Classes/Inflector.php:527 | a string that does not start with a-z, ö, ä, ü or ß has no accessor word to drop |
| Accessors.SanitizeIdempotent | Classes/Inflector.php:525-528 | sanitising twice changes nothing, when the first pass leaves no trim character at either end |
| Accessors.AccessorWordInsideWordKept | Classes/Inflector.php:527 | an accessor word running into a lower-case letter stays, as in "issetProperty" |
| Accessors.AccessorWordBeforeOtherDropped | Classes/Inflector.php:527 | an accessor word before any other character goes, as in "hasMyProperty" |
| Accessors.ApplyOptions | Classes/Inflector.php:504-515 | intelligent splitting is on exactly when its option is; the string is sanitised exactly when noSanitizing is off |
| Accessors.ToGetter | Classes/Inflector.php:396-402 | the prefix ("get" by default) followed by toCamelCase of the sanitised string, which spells its letters and splits back into its tokens |
| Accessors.ToSetter | Classes/Inflector.php:418-421 | "set" followed by toCamelCase of the sanitised string, which spells its letters and splits back into its tokens |
| Accessors.ToProperty | Classes/Inflector.php:436-439 | toCamelBack of the sanitised string: it spells its letters, starts with its first token, and splits back into its tokens |
| Accessors.AccessorWordMakesNoDifference | Classes/Inflector.php:396-439 | with sanitising on, "hasMyProperty" gives the same getter, setter and property as "MyProperty" |

## Left out

- Pluralisation is not part of this model: `toSingular`, `toPlural`, `setInflectorAdapter` and `getConcreteInflector`. These hold global mutable state and delegate to an adapter library. The adapter classes under `Classes/Adapter/` are not part of this model either.
- md5 is not modelled. `toUuid` takes the digest function as a parameter, and the layout is proved for any 32-character digest.
- Unicode character classes are approximations. `\s`/`\p{Zs}` under the `u` modifier is an exact list of white space. The letter and digit classes are exact up to U+00FF. Above U+00FF, every character counts as a letter or digit except white space, the combining marks U+0300–U+036F and the punctuation block U+2000–U+206F.
- Strings are sequences of code points. Invalid UTF-8 is not modelled; there `preg_replace` returns null, which PHP casts to "".
- Pass 2's offset counts bytes in PHP but characters here. The offset is only compared with the length to tell whether a run ends the string, and that answer is the same in both.
- `DIRECTORY_SEPARATOR` is fixed to `/`.
- Comparable.SortStrings: PHP's `sort()` compares numeric strings as numbers, and `array_count_values` turns digit-only words into integer keys. The model uses the plain string order of `strcmp` throughout.
- Accessors.OptionEnabled: option values are told apart only as null, a string, or anything else, which is all the strict `in_array` and `isset` checks look at.
- The concrete vectors of the test suite are not restated one by one. The lemmas above state the behaviour they check, for all inputs of the same shape. For `toSlug`, `Slug.SlugOfWord`, `Slug.SlugAtBreak` and `Slug.SlugAtEdge` together give the words, the dashes between them, and the dropping of punctuation and white space at either end.
- Files.FileNameIdempotent: idempotence is proved only without path handling. With `expectPath`, toFile is not idempotent: `"a.zip/!"` gives `"a.zip/"`, and that gives `"a.zip"`.
