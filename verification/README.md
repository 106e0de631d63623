# Haydon part cross-reference lookup, modelled in Dafny

The Haydon part search is a small lookup tool. A user types a Haydon or
competitor (vendor) part number. The tool finds every catalog row whose
Haydon part or vendor part contains the query, after both are reduced to a
*key*: letters and digits only, lower-cased. For the first row found, it
reduces the row's Haydon part to its *family code* (`H-132-HDG X 10`
becomes `H-132`). It then shows the image and submittal link of the first
row of the reference sheet whose name has the same key as that family code.

The model covers that matching core in five modules:

- `Wrappers`: `Option`, which stands for a cell that may be missing (a
  pandas NaN).
- `Ascii`: character classes and the three string operations used:
  - `Lower` is Python's `str.lower` on ASCII text.
  - `Upper` is `str.upper` on ASCII text.
  - `Strip` is `str.strip()` with no argument, on ASCII text.
- `Normalization`: `normalize`, which turns a part number into a key, and
  its algebra. A missing value gives the empty key. Case, punctuation and
  spacing do not matter. Keys are fixpoints. The letters and digits keep
  their order.
- `CorePart`: `extract_core_part`. The anchored, case-insensitive regular
  expression `[A-Z]+-[0-9]+` is written as `MatchCore`, which is proved to
  give the longest prefix in the pattern's language. When nothing matches,
  the part is returned whole, stripped and upper-cased.
- `CrossReference`:
  - The catalog and reference rows. Their normalized columns are derived
    from the raw cells, as the loader derives them.
  - The substring search, proved equivalent to a declarative substring
    predicate.
  - The search filter, with its ordering and membership properties.
  - The selection of the first reference row.
  - The whole lookup, with its three outcomes: no query, no
    cross-reference found, or rows found with product details.

Everything here is pure computation, so it is modelled with datatypes,
functions and lemmas.

Three behaviours of the code are worth stating plainly:

- **Empty key.** A query whose key is empty (such as `"--"`) matches every
  catalog row, including rows whose part cells are both missing. pandas
  finds the empty pattern in the empty key that `normalize` gives a
  missing cell (`CrossReference.SearchEmptyKey`).
- **No match.** `extract_core_part` never returns a missing value. When the
  pattern does not match, it returns the stripped, upper-cased part, and
  for a missing part it returns `""`.
- **Missing Haydon part.** When the first match has no Haydon part, its
  family code is `""` with key `""`. That key selects the first reference
  row whose name is missing or has no letter or digit
  (`CrossReference.DetailsForMissingPart`).

## Model

| member | source | states |
|---|---|---|
| Ascii.Lower | haydon_part_search.py:25 | `str.lower` keeps the length and lower-cases each ASCII letter in place |
| Ascii.Upper | haydon_part_search.py:32 | `str.upper` keeps the length and upper-cases each ASCII letter in place |
| Ascii.Strip | haydon_part_search.py:32 | `str.strip()` returns a slice of the input with only whitespace on either side, and the slice neither starts nor ends with whitespace |
| Ascii.StripIsUnique | haydon_part_search.py:32 | only one slice has those properties, so the two postconditions of `Strip` determine its result |
| Ascii.StripSplit | haydon_part_search.py:32 | the input is whitespace, then the stripped string, then whitespace |
| Normalization.KeepAlnum | haydon_part_search.py:25 | deleting `[^A-Za-z0-9]` leaves only ASCII letters and digits and never lengthens the string |
| Normalization.Normalize | haydon_part_search.py:22-25 | a missing part gives the empty key; a key is never longer than the part and holds only lower-case letters and digits |
| Normalization.KeepAlnumConcat | haydon_part_search.py:25 | the deletion distributes over concatenation |
| Normalization.LowerConcat | haydon_part_search.py:25 | lower-casing distributes over concatenation |
| Normalization.NormalizeConcat | haydon_part_search.py:25 | the key of a concatenation is the concatenation of the keys |
| Normalization.NormalizeCons | haydon_part_search.py:25 | one character contributes its lower-case form if it is a letter or digit, and nothing otherwise |
| Normalization.NormalizeFixpoint | haydon_part_search.py:22-25 | a string is its own key if and only if it holds only lower-case letters and digits |
| Normalization.NormalizeIdempotent | haydon_part_search.py:22-25 | normalizing a key again changes nothing |
| Normalization.NormalizeIgnoresCase | haydon_part_search.py:25 | upper- or lower-casing a string first does not change its key |
| Normalization.NormalizeIgnoresPunctuation | haydon_part_search.py:25 | removing a character outside `[A-Za-z0-9]` anywhere does not change the key |
| Normalization.NormalizeLength | haydon_part_search.py:25 | the key has exactly one character per ASCII letter or digit of the input |
| Normalization.NormalizeInOrder | haydon_part_search.py:25 | each letter or digit lands, lower-cased, at the position given by the number of letters and digits before it |
| Normalization.NormalizeNoAlnum | haydon_part_search.py:25 | a string with no letter or digit has the empty key |
| Normalization.NormalizeIgnoresSurroundingSpace | haydon_part_search.py:25 | whitespace around a string does not change its key |
| Normalization.NormalizeStrip | haydon_part_search.py:25 | stripping does not change the key |
| Normalization.NormalizeDropsDash | haydon_part_search.py:25 | the dash of a family code contributes nothing to its key |
| Normalization.NormalizeDigits | haydon_part_search.py:25 | a run of digits is its own key |
| Normalization.NormalizeAlnum | haydon_part_search.py:25 | a string of letters and digits keys to its lower-case form |
| Normalization.NormalizeDropsSeparators | haydon_part_search.py:25 | two separators between three pieces can be dropped without changing the key |
| Normalization.NormalizeUnseparatedExample | haydon_part_search.py:22-25 | `H132HDG` keys to `h132hdg` |
| Normalization.NormalizeDashedExample | haydon_part_search.py:22-25 | `H-132-HDG` keys to `h132hdg`, the same key as `H132HDG` |
| Normalization.NormalizeSpacedExample | haydon_part_search.py:22-25 | `H 132 HDG` keys to `h132hdg` |
| Normalization.NormalizeCompactExample | haydon_part_search.py:22-25 | `h132hdg` is already a key |
| CorePart.LetterRun | haydon_part_search.py:31 | the maximal run of letters at the start: all of it letters, and the next character is not a letter |
| CorePart.DigitRun | haydon_part_search.py:31 | the maximal run of digits at the start: all of it digits, and the next character is not a digit |
| CorePart.MatchCore | haydon_part_search.py:31 | a match is a prefix in the language of `[A-Z]+-[0-9]+`: non-empty letters, a dash and non-empty digits |
| CorePart.CodePrefixBound | haydon_part_search.py:31 | any prefix in the language splits where the leading letter run ends, and its digits stay inside the digit run after the dash |
| CorePart.MatchCoreIsLongestCodePrefix | haydon_part_search.py:31 | leftmost-greedy semantics: a match is the longest prefix in the language, and no match means no prefix is in it |
| CorePart.ExtractCorePart | haydon_part_search.py:28-32 | a missing part gives `""`; the family code is never longer than the part |
| CorePart.MatchCoreOfCode | haydon_part_search.py:31 | on letters, dash, digits and a rest not starting with a digit, the match covers exactly the first three pieces |
| CorePart.CodeNameKey | haydon_part_search.py:17 | a name written as a family code, in any case, keys to its lower-cased letters followed by its digits |
| CorePart.CodeKey | haydon_part_search.py:32 | upper-casing a family code does not change its key: still its lower-cased letters followed by its digits |
| CorePart.UpperCode | haydon_part_search.py:32 | upper-casing a family code touches only its letters |
| CorePart.ExtractCorePartOfCode | haydon_part_search.py:28-32 | such a part reduces to its upper-cased letters, the dash and the digits, with key letters-then-digits |
| CorePart.ExtractCorePartFallback | haydon_part_search.py:32 | with no prefix in the language the part is returned stripped and upper-cased, and its key is the part's own key |
| CorePart.CoreKey | haydon_part_search.py:56-57 | the key used for the reference lookup is the key of the matched prefix, or of the whole part when nothing matches, or `""` for a missing part |
| CorePart.ExtractCorePartExample | haydon_part_search.py:27-32 | `H-132-HDG X 10` reduces to `H-132` |
| CorePart.ExamplePieces | haydon_part_search.py:27 | `H-132-HDG X 10` is letters `H`, a dash, digits `132` and a rest starting with a non-digit |
| CorePart.ExampleSpelling | haydon_part_search.py:32 | the upper-cased pieces spell `H-132` |
| CorePart.CoreKeyExample | haydon_part_search.py:57 | the family code `H-132` has the key `h132` |
| CrossReference.CatalogRow.NormalizedHaydon | haydon_part_search.py:15 | the "Normalized Haydon Part" column: empty for a missing cell, never longer than the cell, only lower-case letters and digits |
| CrossReference.CatalogRow.NormalizedVendor | haydon_part_search.py:16 | the "Normalized Vendor Part" column: empty for a missing cell, never longer than the cell, only lower-case letters and digits |
| CrossReference.ReferenceRow.NormalizedName | haydon_part_search.py:17 | the "Normalized Name" column: empty for a missing cell, never longer than the cell, only lower-case letters and digits |
| CrossReference.SubstringStep | haydon_part_search.py:44-45 | an occurrence is at the start or in the tail |
| CrossReference.Contains | haydon_part_search.py:44-45 | `str.contains` with a key as pattern is true if and only if the key occurs as a substring of the cell |
| CrossReference.FilterRows | haydon_part_search.py:43-46 | the boolean mask keeps at most the rows it was given, and only rows whose Haydon or vendor key contains the key |
| CrossReference.Search | haydon_part_search.py:42-46 | every result is a catalog row that contains the normalized query in one of its two keys |
| CrossReference.FilterRowsConcat | haydon_part_search.py:43-46 | filtering commutes with concatenation, so catalog order is kept |
| CrossReference.FilterRowsMembership | haydon_part_search.py:43-46 | a row is kept if and only if it is in the catalog and matches |
| CrossReference.FilterRowsEmpty | haydon_part_search.py:43-48 | nothing is kept if and only if no row matches |
| CrossReference.FilterRowsFirst | haydon_part_search.py:43-54 | the first kept row is the first matching row |
| CrossReference.FilterRowsAll | haydon_part_search.py:43-46 | when every row matches, every row is kept, in order |
| CrossReference.SearchMembership | haydon_part_search.py:42-46 | a row is found if and only if it is a catalog row whose Haydon or vendor key contains the query's key |
| CrossReference.SearchFirstMatch | haydon_part_search.py:42-54 | the result is empty if and only if no row matches; otherwise `matches.iloc[0]` is the first matching catalog row |
| CrossReference.SearchEmptyKey | haydon_part_search.py:42-46 | a query with an empty key returns the whole catalog, missing cells included |
| CrossReference.SearchEveryHit | haydon_part_search.py:42-46 | when every row contains the query's key, the search returns the catalog unchanged |
| CrossReference.FirstIndexNamed | haydon_part_search.py:59-61 | the index of the first reference row with the given key, or none when no row has it |
| CrossReference.DetailsFor | haydon_part_search.py:54-61 | the family code is `extract_core_part` of the first match's Haydon part; the reference is absent if and only if no name has its key, and otherwise it is the first row that does |
| CrossReference.DetailsForCode | haydon_part_search.py:55-59 | for a Haydon part of the form letters-dash-digits-rest, the family code and the lookup key are given in terms of those pieces |
| CrossReference.DetailsForMissingPart | haydon_part_search.py:55-59 | a missing Haydon part gives the family code `""`, which finds a reference only when some name has an empty key |
| CrossReference.Lookup | haydon_part_search.py:40-73 | nothing happens if and only if the query is empty; "no cross-reference" if and only if the query is non-empty and no row matches; otherwise the found rows are the search result and the details belong to the first of them |
| CrossReference.LookupPunctuationQuery | haydon_part_search.py:40-54 | a non-empty query made only of punctuation or spaces returns the whole catalog, with details for its first row |
| CrossReference.LookupByVendorPart | haydon_part_search.py:40-61 | in any catalog and reference table, a query equal to the vendor part of the first row it matches finds that row first; for a Haydon part of the form letters-dash-digits-rest, the details are the upper-cased family code and the first reference row whose name has that code's key, whatever its case or punctuation |
| CrossReference.LookupScenario | haydon_part_search.py:40-61 | the query `AB-99` finds the row `H-132-HDG` / `AB-99`, and the reference named `H-132` supplies its details |
| CrossReference.ScenarioPieces | haydon_part_search.py:27-32 | the scenario's Haydon part and reference name split into letters `H`, a dash, digits `132` and a rest starting with a non-digit |
| CrossReference.SearchSubstringScenario | haydon_part_search.py:42-46 | the query `132` finds both `H-132-HDG` and `AB-1320`, because matching is by substring |
| CrossReference.ScenarioQueryKey | haydon_part_search.py:42 | the query `132` keys to `132` |
| CrossReference.ScenarioSecondKey | haydon_part_search.py:15 | `AB-1320` keys to `ab1320` |
| CrossReference.ScenarioFirstHit | haydon_part_search.py:44 | the key `132` occurs in the Haydon key of `H-132-HDG` |
| CrossReference.ScenarioSecondHit | haydon_part_search.py:44 | the key `132` occurs in the Haydon key of `AB-1320` |

## Left out

- Loading the two spreadsheets and caching them (`load_data`, lines 9-19) is file I/O. The model takes both tables as sequences of rows, and derives the normalized columns from each row on demand rather than storing them.
- The Streamlit page is not modelled: the text box, the result table, the sidebar image, the submittal link and the info and warning messages (lines 35-38, 49-53 and 62-73). `Lookup` returns an `Outcome` that says which of those states is reached and what data it carries.
- `matches.drop(columns=...)` (line 50) only hides the two derived columns from the table shown. Row data beyond the Haydon part, vendor part and vendor is not modelled.
- Cells that are not strings are not modelled. `str()` coerces a number to a string, and `part_number.strip()` at line 32 fails on a non-string cell when the pattern does not match. Every present cell is modelled as text.
- Characters outside ASCII are not modelled:
  - Python's Unicode case mapping and whitespace are not modelled.
  - `re.IGNORECASE` also lets four non-ASCII letters match `[A-Z]`: U+0130, U+0131, U+017F and the Kelvin sign U+212A.
  - The model's letters, case mapping and whitespace are the ASCII ones.
- `str.contains` interprets its pattern as a regular expression. A key holds only lower-case letters and digits, so the model uses a plain substring search.
- CrossReference.Search: the model states which rows are kept and in what order, as a list of rows. It does not model the pandas index labels the result carries.
- Fallback candidate generation, prefix matching against the reference table and numeric-family generalization belong to other versions of the tool and are not part of this model.
