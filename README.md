# Rule descriptions

A model of the description engine of `rule_descriptions`. The engine turns a CUNY transfer
rule into a one-line text such as

    ENGL 101 (=ENGL 101H) C [EC:--:--:001] => ENGL 101H (=ENGL 101) -- [--:--:--:000]

The left side lists the source courses and the right side the destination courses. Each
course phrase holds these parts, in order:

- the course's label;
- the labels of its sibling offerings (its aliases);
- the minimum letter grade (sources) or the message-only/blanket-credit flags (destinations);
- a compact requirement code `pways:CO:ME:nnn`.

The model covers:

- `min_grade`, `format_requirements`, `oxfordize` and `describe_rule` from
  `mk_descriptions.py`;
- the catalog cache `course_info` that `describe_rule` reads;
- the per-course requirements dict that `mk_requirement_dicts.py` derives from a course's
  designation, attributes and plans.

Modules (one file each):

- `Options`: the `Option` type.
- `Text`: the Python string operations the code relies on: `strip`, `split`, `join`,
  `startswith`, the substring `in` test, one-character `split(':', 1)` and the `:03`
  zero-padding. Each comes with its defining properties (split and join are inverse, and so on).
- `OrderedDicts`: Python's insertion-ordered `dict` as a sequence of pairs.
  - Assigning an existing key keeps its position and replaces its value.
  - A new key goes at the end.
  - `dict(pairs)` keeps the last value given for a key.
- `RequirementDicts`: the requirements derivation (pathway pattern, COPT test,
  Major Equivalency parsing).
- `CourseCatalog`: the cache as `map<CourseId, seq<(OfferNbr, Offering)>>`, the loop that
  fills it, and a fold that specifies it.
- `Descriptions`: grades, requirement codes, the Oxford join, and `describe_rule` as loops
  proved against the phrase functions.
- `WorkedExample`: one complete rule description computed end to end.

Where the code and the documented intent differ, the model follows the code:

- An unresolved source course shows its requirement code with doubled brackets,
  `[[--:--:--:---]]`. The code stores the brackets in the code and adds another pair.
- An unresolved destination course keeps the initial Python `False` values of its two flags,
  so its phrase reads `No course<aliases> FalseFalse []`, not `--`.
- The requirements dict always has the four keys `pways`, `copt`, `equiv` and `plans`. The
  module docstring of `mk_requirement_dicts.py` names a `core` key, which the code never writes.
- `describe_rule` returns the bare string `No Rule Information` for a missing row. Otherwise it
  returns a triple. This is modelled as the two constructors of `Description`.

## Model

| member | source | states |
|---|---|---|
| Descriptions.BisectRight | mk_descriptions.py:59 | `bisect` counts the leading breakpoints at most `x`; on a sorted list every later one is above `x` |
| Descriptions.BisectRightMonotone | mk_descriptions.py:59 | a larger value never has a smaller insertion point |
| Descriptions.BreakpointsSorted | mk_descriptions.py:57 | the breakpoint table is ascending |
| Descriptions.MinGrade | mk_descriptions.py:52-59 | the grade is always one of the 13 letters; it is `P` exactly below 0.7 and `A+` exactly from 4.3 up |
| Descriptions.MinGradeStep | mk_descriptions.py:57-59 | between neighbouring breakpoints the grade is the letter of the breakpoint at or below the GPA (a step function) |
| Descriptions.MinGradeMonotone | mk_descriptions.py:55-59 | a higher minimum GPA never gives a lower letter |
| Descriptions.MinGradeAtFirstBreakpoint | mk_descriptions.py:55-59 | exactly 0.7 gives `D-`, not `P` |
| Descriptions.MinGradeOfTwo | mk_descriptions.py:57-59 | 2.0 gives `C` |
| Descriptions.FormatRequirements | mk_descriptions.py:64-71 | the code is non-empty and ends in a digit |
| Descriptions.FormatRequirementsRoundTrip | mk_descriptions.py:64-71 | reading the code back on `:` yields the pathway or `--`, `CO` iff copt, `ME` iff equiv is non-empty, and the plan count; a null column reads as `--`,`--`,`--`,0 |
| Descriptions.NullCodeRoundTrip | mk_descriptions.py:66-67 | the sentinel `--:--:--:000` reads back as `--`, no copt, no equiv, zero plans |
| Descriptions.DictCodeRoundTrip | mk_descriptions.py:68-71 | the code of a dict reads back as its pathway or `--`, its copt flag, whether equiv is non-empty, and its plan count |
| Descriptions.ParseFields | mk_descriptions.py:68-71 | four `:`-free fields joined by `:`, with `CO`/`--`, `ME`/`--` and a count in `:03` form (three digits, or more without a leading zero), read back as exactly those fields |
| Descriptions.FormatRequirementsExact | mk_descriptions.py:64-71 | a code that reads back as the summary of a requirements value is exactly the code of that value: pathway or `--`, `CO`/`--`, `ME`/`--` and the count zero-padded to width three |
| Descriptions.FormatRequirementsCharacterised | mk_descriptions.py:64-71 | for a pathway without `:`, a code reads back as the value's summary if and only if it is the value's code |
| Descriptions.SplitFour | mk_descriptions.py:68-71 | four `:`-free fields joined by `:` split back into the same four fields |
| Descriptions.FormatRequirementsEmpty | mk_descriptions.py:66-67 | a null column and a dict with no pathway, no copt, no or empty equiv and no plans both give `--:--:--:000` |
| Descriptions.Oxfordize | mk_descriptions.py:76-87 | for one or more items the text starts with the first item and ends with the last |
| Descriptions.OxfordizeListing | mk_descriptions.py:76-87 | for one or more items the result lists every item in order; the gaps are `, `, except the last gap, which is ` and ` for two items and `, and ` for three or more |
| Descriptions.OxfordizeExamples | mk_descriptions.py:76-87 | zero items give the empty string, one gives the item, two `A and B`, three `A, B, and C` |
| Descriptions.OxfordizeOr | mk_descriptions.py:76-87 | four items with conjunction `or` give `A, B, C, or D` |
| Descriptions.Describe | mk_descriptions.py:145-229 | a missing row, and only a missing row, gives `No Rule Information`; otherwise the rule key and effective date are the row's and the text holds ` => ` |
| Descriptions.SourcePhrase | mk_descriptions.py:155-188 | defines one source course's phrase; its whole shape, aliases included, is stated by `SourcePhraseAliases` and `SourcePhraseUnresolved`, and `SourcePhraseResolved` and `SourcePhraseResolution` state its ends |
| Descriptions.DestinationPhrase | mk_descriptions.py:193-227 | defines one destination course's phrase; its whole shape, aliases included, is stated by `DestinationPhraseAliases` and `DestinationPhraseUnresolved`, and `DestinationPhraseResolved` and `DestinationPhraseResolution` state its ends |
| Descriptions.AliasSuffix | mk_descriptions.py:183-184 | the alias suffix is empty iff there are no aliases, and otherwise reads ` (=...)`; when no alias contains a comma, splitting the text between ` (=` and `)` on `,` gives back the aliases, so they are joined by a bare `,` with no space |
| Descriptions.DescribeSource | mk_descriptions.py:155-188 | the loop over a source course's cached offerings produces `SourcePhrase`: label, aliases, grade and code of the matching offering, or the `No course ... P [[--:--:--:---]]` placeholder |
| Descriptions.DescribeDestination | mk_descriptions.py:193-227 | the loop over a destination course's cached offerings produces `DestinationPhrase`: the `M`/`-` and `B`/`-` flags and the code on a match, `No course ... FalseFalse []` otherwise |
| Descriptions.DescribeRule | mk_descriptions.py:145-229 | a missing row gives `No Rule Information`; otherwise the rule key, effective date and the Oxford-joined source phrases, ` => `, the Oxford-joined destination phrases |
| Descriptions.PhraseListAt | mk_descriptions.py:151-227 | the phrase list built by appending one phrase per course has one entry per course, entry `i` being the phrase of course `i` |
| Descriptions.SourcePhrasesAt | mk_descriptions.py:151-188 | exactly one phrase per source course, phrase `i` describing course `i` |
| Descriptions.DestinationPhrasesAt | mk_descriptions.py:190-227 | exactly one phrase per destination course, phrase `i` describing course `i` |
| Descriptions.DescribeEmptyRule | mk_descriptions.py:229 | a rule without courses on either side is described by the bare ` => ` |
| Descriptions.Titles | mk_descriptions.py:164 | one label per cached offering |
| Descriptions.AliasTitles | mk_descriptions.py:164-173 | defines the alias list; `AliasCount`, `AliasTitlesMeaning` and `AliasTitlesUnmatched` state what it holds |
| Descriptions.AliasCount | mk_descriptions.py:164-173 | every offering but the matching one contributes one alias: all of them when the offer number is absent, one fewer when it is present once |
| Descriptions.AliasTitlesAppend | mk_descriptions.py:164-173 | alias collection distributes over concatenated offering lists |
| Descriptions.AliasTitlesUnmatched | mk_descriptions.py:172-173 | when the offer number is not cached, every offering's label is an alias, in cache order |
| Descriptions.AliasTitlesMeaning | mk_descriptions.py:164-173 | the aliases are the labels of all other offerings of the course, in cache order, before and after the matching one |
| Descriptions.AliasTitlesAround | mk_descriptions.py:164-173 | with unique offer numbers, the aliases are the labels before the matching offering followed by those after it |
| Descriptions.SourcePhraseUnresolved | mk_descriptions.py:163-188 | an unresolved source phrase is `No course`, then the alias suffix of every cached offering's label in cache order, then ` P [[--:--:--:---]]`, whatever the GPA |
| Descriptions.SourcePhraseAliases | mk_descriptions.py:163-188 | in a catalog with unique offer numbers, when cached offering `p` matches, the source phrase is its label, then the alias suffix of the labels before `p` followed by those after it, then a space, the grade of the GPA and the bracketed code |
| Descriptions.SourcePhraseResolved | mk_descriptions.py:164-188 | a resolved source phrase starts with the offering's label and ends with the grade of the GPA and the bracketed code; it never ends in `]]` |
| Descriptions.SourcePhraseResolution | mk_descriptions.py:175-188 | a source phrase ends in `]]` exactly when its offer number is not cached |
| Descriptions.DestinationPhraseUnresolved | mk_descriptions.py:202-227 | an unresolved destination phrase is `No course`, then the alias suffix of every cached offering's label in cache order, then ` FalseFalse []` |
| Descriptions.DestinationPhraseAliases | mk_descriptions.py:202-227 | in a catalog with unique offer numbers, when cached offering `p` matches, the destination phrase is its label, then the alias suffix of the labels before `p` followed by those after it, then a space, the `M`/`-` and `B`/`-` flags and the bracketed code |
| Descriptions.DestinationPhraseResolved | mk_descriptions.py:203-227 | a resolved destination phrase starts with the label and ends with the `M`/`-`, `B`/`-` flags and the bracketed code; it never ends in `[]` |
| Descriptions.DestinationPhraseResolution | mk_descriptions.py:215-227 | a destination phrase ends in `[]` exactly when its offer number is not cached |
| Descriptions.SourceUnresolvedIffNoRow | mk_descriptions.py:163-178 | with the cache built from the course rows, a source phrase is the placeholder exactly when no row had its course id and offer number |
| Descriptions.DestinationUnresolvedIffNoRow | mk_descriptions.py:202-218 | the same for destination phrases |
| Descriptions.ResolvedShape | mk_descriptions.py:185-188 | a phrase whose code ends in a digit starts with its label, ends with its field and code, and ends neither in `]]` nor `[]` |
| Descriptions.UnresolvedShape | mk_descriptions.py:177-178 | a placeholder phrase starts with `No course` and ends with its tail |
| CourseCatalog.Offerings | mk_descriptions.py:163 | an unknown course id has no offerings |
| CourseCatalog.AddRow | mk_descriptions.py:40 | adding a row adds its course id, makes its offer number map to the row's offering, leaves every other course unchanged and keeps offer numbers unique |
| CourseCatalog.CatalogOf | mk_descriptions.py:37-47 | the cache built from any rows has unique offer numbers per course |
| CourseCatalog.BuildCatalog | mk_descriptions.py:37-47 | the cache-filling loop yields the fold `CatalogOf` of the rows, and every course's offer numbers are unique |
| CourseCatalog.CatalogOfOfferings | mk_descriptions.py:37-47 | a course's cached offerings are the dict built from that course's rows alone, in row order |
| CourseCatalog.CatalogOfValid | mk_descriptions.py:37-47 | offer numbers are unique per course and appear in the order the rows first gave them |
| CourseCatalog.RowPairsGet | mk_descriptions.py:40 | among a course's row pairs, an offer number is found iff some row has it, and then the last such row wins |
| CourseCatalog.CatalogOfLookup | mk_descriptions.py:40-47 | looking up a course id and offer number finds the offering of the last row with both, and nothing when no row has them |
| RequirementDicts.Pathway | mk_requirement_dicts.py:58-62 | `pways` is set iff the designation has four characters, `R` or `F` first and `C`, `D` or `R` last (and no newline in the middle); it is then the two middle characters |
| RequirementDicts.CommonCoreOptionIff | mk_requirement_dicts.py:64 | `copt` holds iff the designation starts with `CO` or `COPT` occurs at some position of the attributes |
| RequirementDicts.CommonCoreOption | mk_requirement_dicts.py:64 | defines `copt`; `CommonCoreOptionIff` states it by positions |
| RequirementDicts.NonBlankParts | mk_requirement_dicts.py:68-69 | at most one kept part per input part, each non-empty and one of the stripped parts |
| RequirementDicts.NonBlankPartsKeeps | mk_requirement_dicts.py:68-69 | every part that is not all white space is kept, stripped |
| RequirementDicts.NonBlankPartsAt | mk_requirement_dicts.py:68-69 | the kept parts are in input order: a non-blank part `i` is kept at the position given by the number of parts kept before it |
| RequirementDicts.NonEmptyPrefix | mk_requirement_dicts.py:69 | filtering a prefix gives a prefix of the filtered list |
| RequirementDicts.KeyValues | mk_requirement_dicts.py:68 | a successful read gives one pair per part, each key without `:` and each part equal to key, `:`, value |
| RequirementDicts.AttributePairs | mk_requirement_dicts.py:67-69 | defines the key/value pairs of the attributes; `KeyValuesNoneIff` and `MajorEquivalentsNoneIff` state when it fails |
| RequirementDicts.AttributePairsMeaning | mk_requirement_dicts.py:67-69 | when the attributes read, every non-blank `;`-part of the string, stripped, is the pair at its position (the number of non-blank parts before it) written as key, `:`, value with a `:`-free key |
| RequirementDicts.KeyValuesAll | mk_requirement_dicts.py:67-69 | when the non-blank stripped parts read as pairs, every non-blank part `i`, stripped, is the pair at position `|NonBlankParts(parts[..i])|` written as key, `:`, value with a `:`-free key |
| RequirementDicts.AttributePairsFromParts | mk_requirement_dicts.py:67-69 | when the attributes read, every pair written as key, `:`, value is one of the string's stripped `;`-parts |
| RequirementDicts.MajorKeys | mk_requirement_dicts.py:70-71 | the selected keys are exactly the keys that start with `ME`; on unique keys they stay unique and keep the dict's order |
| RequirementDicts.MajorValues | mk_requirement_dicts.py:70-71 | one value per `ME` key |
| RequirementDicts.MajorEquivalents | mk_requirement_dicts.py:67-73 | defines `equiv`; `MajorEquivalentsNoneIff` and `MajorEquivalentsMeaning` state what it is |
| RequirementDicts.MajorEquivalentsScan | mk_requirement_dicts.py:67-73 | `equiv` is `None` iff the scan finds a malformed part |
| RequirementDicts.MkRequirements | mk_requirement_dicts.py:55-77 | the dict copies the plans unchanged and a pathway, when present, has two characters |
| RequirementDicts.MissingAttributes | mk_requirement_dicts.py:56-73 | a null attributes value behaves as `''`: `equiv` is the empty list and `copt` depends on the designation alone |
| RequirementDicts.KeyValuesNoneIff | mk_requirement_dicts.py:67-73 | reading the non-blank stripped parts as key/value pairs fails iff some part is malformed (not all whitespace, yet without `:`) |
| RequirementDicts.AnyMalformedIff | mk_requirement_dicts.py:68 | the scan from the end finds a malformed part iff some position holds one |
| RequirementDicts.MajorEquivalentsNoneIff | mk_requirement_dicts.py:67-73 | `equiv` is `None` iff some non-blank `;`-separated part of the attributes has no `:` |
| RequirementDicts.MajorValuesMeaning | mk_requirement_dicts.py:70-71 | on a dict with unique keys, the `ME` values are, position by position, the values of the `ME` keys in key order |
| RequirementDicts.MajorEquivalentsMeaning | mk_requirement_dicts.py:68-71 | `equiv` holds one name per distinct `ME` key, in first-appearance order, and each is the last value written for that key |
| OrderedDicts.Get | mk_descriptions.py:164-165 | a lookup misses exactly when the key is absent |
| OrderedDicts.GetAt | mk_descriptions.py:164-165 | in a dict with unique keys, looking up the key at position `p` gives the value at position `p` |
| OrderedDicts.Put | mk_descriptions.py:40 | after assignment the key maps to the new value |
| OrderedDicts.PutKeys | mk_descriptions.py:40 | assignment keeps the key order and appends a new key at the end |
| OrderedDicts.PutGet | mk_descriptions.py:40 | after assignment the key maps to the new value and every other key is unchanged |
| OrderedDicts.PutUnique | mk_descriptions.py:40 | assignment keeps keys unique |
| OrderedDicts.InOrderSnoc | mk_requirement_dicts.py:68 | appending an element keeps a subsequence's first-occurrence order, and a new element may be appended to both |
| OrderedDicts.Distinct | mk_requirement_dicts.py:68 | no duplicates, the same members, and each kept element's first occurrence comes after those of the elements kept before it |
| OrderedDicts.FromPairs | mk_requirement_dicts.py:68 | `dict(pairs)` has unique keys |
| OrderedDicts.FromPairsKeys | mk_requirement_dicts.py:68 | `dict(pairs)` has the distinct keys in first-appearance order |
| OrderedDicts.FromPairsGet | mk_requirement_dicts.py:68 | `dict(pairs)` maps each key to the last value given for it |
| Text.StripLeft | mk_requirement_dicts.py:68 | drops exactly the leading whitespace |
| Text.StripRight | mk_requirement_dicts.py:68 | drops exactly the trailing whitespace |
| Text.Strip | mk_requirement_dicts.py:68 | the result neither starts nor ends with whitespace |
| Text.StripEmptyIff | mk_requirement_dicts.py:68-69 | a part strips to nothing iff it is all whitespace |
| Text.StripKeeps | mk_requirement_dicts.py:68 | stripping keeps every non-whitespace character, such as `:` |
| Text.Contains | mk_requirement_dicts.py:64 | a pattern is only found in a string at least as long |
| Text.ContainsIff | mk_requirement_dicts.py:64 | the substring test holds iff the pattern occurs at some position |
| Text.IndexOf | mk_requirement_dicts.py:68 | the first position of a character |
| Text.Split | mk_requirement_dicts.py:68 | splitting gives at least one part and no part holds the separator |
| Text.Join | mk_descriptions.py:87 | defines `sep.join(parts)`; `JoinSplit` and `SplitJoin` state it is the inverse of `split` |
| Text.JoinSplit | mk_requirement_dicts.py:68 | joining the parts of a split with the separator restores the string |
| Text.SplitJoin | mk_descriptions.py:68-71 | splitting a join of separator-free parts restores the parts |
| Text.SplitFirst | mk_requirement_dicts.py:68 | `split(':', 1)` gives two parts iff there is a `:`, the first without `:` |
| Text.DecimalRoundTrip | mk_descriptions.py:71 | the decimal digits of a number read back as the number |
| Text.PadCount | mk_descriptions.py:71 | `:03` gives digits only, at least three, exactly three below 1000, and no leading zero when longer than three |
| Text.PadCountCanonical | mk_descriptions.py:71 | every digit string of `:03` form (three digits, or more without a leading zero) is the padding of its own value, so each count has exactly one rendering |
| Text.Decimal | mk_descriptions.py:71 | the decimal digits start with `0` only for zero and are a single digit exactly below ten |
| Text.DecimalCanonical | mk_descriptions.py:71 | a digit string without a leading zero (or `0` itself) is the decimal rendering of its value |
| Text.DigitsInjective | mk_descriptions.py:71 | two digit strings of the same length and value are equal |
| Text.PadCountValue | mk_descriptions.py:71 | the padded count reads back as the count |
| WorkedExample.EnglishLookups | mk_descriptions.py:164-165 | both offer numbers of the example course resolve to their own offerings |
| WorkedExample.EnglishAliases | mk_descriptions.py:172-173 | each example offering's alias list is the other offering's label |
| WorkedExample.EnglishTwoAliases | mk_descriptions.py:183-184 | with a third offering `ENGL 101W`, the alias suffix of offering 1 is ` (=ENGL 101H,ENGL 101W)` |
| WorkedExample.EnglishCodes | mk_descriptions.py:64-71 | the example codes are `EC:--:--:001` and `--:--:--:000` |
| WorkedExample.EnglishSourcePhrase | mk_descriptions.py:155-188 | the source phrase is `ENGL 101 (=ENGL 101H) C [EC:--:--:001]` |
| WorkedExample.EnglishDestinationPhrase | mk_descriptions.py:193-227 | the destination phrase is `ENGL 101H (=ENGL 101) -- [--:--:--:000]` |
| WorkedExample.EnglishRule | mk_descriptions.py:145-229 | the whole rule reads `ENGL 101 (=ENGL 101H) C [EC:--:--:001] => ENGL 101H (=ENGL 101) -- [--:--:--:000]` |

## Left out

- Database access: the cache query, `get_rule_info`, `describe_rules` with its views, the
  `__main__` table rebuild, and the ALTER/SELECT/UPDATE of `mk_dicts`. Query results are inputs
  (a sequence of cache rows, an optional rule row), and the SQL `ORDER BY` of the course lists
  is taken as the given order of those sequences.
- The anomaly log prints for unresolved courses (file I/O). The destination print reuses the
  source loop's `min_gpa` and `src_infos`. It fails with a NameError when a rule has no source
  courses. Only the phrase text is modelled.
- Cache fields that `describe_rule` never reads: institution, credits (with its `varies` rule),
  status and career.
- The `defaultdict` side effect of looking up an unknown course id (an empty entry is added).
  It does not change any output; the lookup is a total function with an empty default.
- An empty requirements dict `{}`. The derivation always writes four keys, so only a null
  column (`None`) gives the `--:--:--:000` sentinel through `not requirements`.
- Descriptions.MinGrade: `min_gpa` is an exact real, so the rounding of `float(min_gpa)` is
  not modelled, and a `None` GPA (a TypeError in Python) cannot be expressed.
- RequirementDicts.Pathway: models `^[RF](..)[CDR]$` as a direct character check. It does not
  capture that `$` also matches before a final newline, so a five-character designation ending
  in a newline is not matched here.
- RequirementDicts.MkRequirements: the designation is a string, never null.
- Text.IsSpace: Python's `str.isspace` is given by an explicit list of code points. No other
  Unicode processing is modelled.
- Descriptions.FormatRequirementsRoundTrip: requires that the pathway holds no `:`. The
  pathway's two characters come from the designation, so a `:` there would make the code
  ambiguous.
