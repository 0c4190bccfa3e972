# A verified model of the species-literature ETL pipeline

The pipeline reads three sources about Brazilian flora and turns each into a
star schema of dimension tables, bridge tables and fact tables:

- a Scopus export of scientific articles (`processar_scopus.py`): column
  labels are normalised, sparse columns dropped, missing cells filled and
  duplicate rows removed; then authors, affiliations and the two keyword
  columns, `author_keywords` and `index_keywords`, each become a dimension
  with an article bridge;
- an Espacenet export of patents (`processar_espacenet.py`): the unnamed
  columns are dropped, labels normalised and the multi-valued columns turned
  into text (`Espacenet.Cleaned` takes the order of that conversion as a
  parameter: `AsWritten` is the source, where a missing cell becomes `"nan"`,
  and `FillFirst` the evident intent, see Findings); then the parties (inventors and applicants), the countries
  (publication-number prefixes and `[XX]` tags), the IPC classifications and
  the species named in a hand-made list become dimensions and bridges, and the
  remaining columns form the patent fact table;
- the CNCFlora red list (`processar_cncflora.py`): every evaluation gets a row
  number, the text columns are filled, the conservation actions and threats
  become dimensions with bridges, three simple dimensions are built, and the
  fact table and its denormalised ("gorda") version are assembled by left
  merges;
- finally `unificar_fontes.py` searches the title and abstract of every
  Scopus article for the CNCFlora species names (whole words, any case),
  builds the master species dimension (CNCFlora names first, then the
  strings found in articles, de-duplicated and numbered 0..n-1) and the
  article-species bridge.

Nearly every builder is one procedure: take a record id and a delimited
field, skip the "not informed" sentinel, split, trim and normalise the
pieces, de-duplicate them into a dimension with keys, and merge back to a
bridge of (record id, key) pairs. The model states that procedure once
(module `Dimension`) and proves of every instance that the dimension holds
each value once, in first-seen order, exactly the values some record holds;
that the bridge links a record to a key exactly when the record holds that
key's value; and that every key of a bridge is a key of its dimension. The
affiliation and author builders have these bridge properties only in their
corrected form: as written, the affiliation bridge drops the link of an
article whose text differs from the kept text of the same name, and the
author bridge keeps the id `nao_informado`, which its dimension lacks (see
Findings). The country dimension (`dim_country`) is the whole code
dictionary rather than the codes some record mentions; its bridge links only
to dictionary rows.

A table is a `Frames.Table`: column labels, one dtype per column and rows of
cells, a cell being missing (`Null`), text (`Str`) or a number (`Num`). The
two label normalisers that overwrite the caller's `df.columns` act on a
`Frames.DataFrame` object; the loops of the pipeline (label loops, fill
loops, the merge loop of the wide CNCFlora output) are methods with loop
invariants, proved against the functions that state what they compute. The
regular expressions the pipeline uses are modelled as scanners over strings
(modules `Text`, `Scanners`, `Unifier`) with their leftmost, greedy,
non-overlapping semantics written out.

Modules, one per file: `Seqs` (order-preserving de-duplication, filters),
`Text` (Python string methods and the `\s*;\s*` split), `Frames` (tables,
column selection and drop, left merge), `Dimension` (explode, dimension,
bridge), `ColumnLabels` (the three label normalisers), `Scanners` (the
`\b...\b`, `\(...\)` and `\s*\(\d+\)$` patterns), `ScopusCleaning`,
`ScopusGeneric`, `ScopusAffiliations` (with `ScopusAffiliationExamples`),
`ScopusAuthors`, `Espacenet`, `Cncflora`, `Unifier` (with
`UnifierExamples`).

## Model

| member | source | states |
|---|---|---|
| Seqs.IndexOf | scripts/processar_espacenet.py:68 | the position found holds the value looked up, and no earlier position does; none exactly when the value is absent |
| Seqs.IndexOfUnique | scripts/processar_espacenet.py:68 | in a sequence without duplicates a value's first position is its only position |
| Seqs.IndexOfPrefix | scripts/unificar_fontes.py:41-45 | a value found in a prefix keeps its position when the sequence grows |
| Seqs.Distinct | scripts/processar_cncflora.py:58 | `unique()` keeps every value once, nothing else, with no duplicates |
| Seqs.DistinctFirstSeen | scripts/processar_cncflora.py:58 | the distinct values appear in the order of their first occurrence |
| Seqs.DistinctSnoc | scripts/unificar_fontes.py:41-42 | de-duplicating a sequence grown by one value adds that value at the end exactly when it is new |
| Seqs.DistinctPrefix | scripts/unificar_fontes.py:41-42 | de-duplicating `ys + zs` keeps the de-duplicated `ys` as a prefix, every value of `ys` at its position |
| Seqs.DistinctPrefixFirst | scripts/unificar_fontes.py:41-42 | a value of `ys` is preceded in `Distinct(ys + zs)` only by values of `ys` |
| Seqs.DistinctOfNoDups | scripts/processar_scopus.py:53-55 | a sequence without duplicates is its own de-duplication |
| Seqs.DistinctSameLength | scripts/processar_scopus.py:53-55 | de-duplication keeps the length exactly when nothing is duplicated (`duplicated().sum() == 0`) |
| Seqs.DistinctBy | scripts/processar_scopus.py:91 | `drop_duplicates(subset=[key])` keeps elements of the input whose keys are pairwise distinct |
| Seqs.DistinctByCovers | scripts/processar_scopus.py:91 | every key of the input is the key of a kept element, and the first element with a key is kept |
| Seqs.DistinctByFirst | scripts/processar_scopus.py:91 | every kept element is the first element of the input with its key |
| Seqs.Filter | scripts/processar_scopus.py:92 | a boolean mask keeps elements of the input that satisfy it, and every element that does |
| Seqs.FilterKeysDistinct | scripts/processar_scopus.py:91-92 | filtering keeps keys pairwise distinct |
| Seqs.FilterNoDups | scripts/processar_scopus.py:91-92 | filtering a sequence without duplicates leaves none |
| Text.LeadingSpacesUnique | scripts/processar_scopus.py:171 | the leading whitespace run is the one that ends at the first non-space |
| Text.TrailingSpacesUnique | scripts/processar_scopus.py:171 | the trailing whitespace run is the one that starts after the last non-space |
| Text.StripUnique | scripts/processar_scopus.py:171 | `strip()` returns the infix with only whitespace outside it and no whitespace at its ends |
| Text.StripFixed | scripts/processar_scopus.py:171 | text with no whitespace at either end is its own strip |
| Text.RStripFixed | scripts/processar_scopus.py:166 | text not ending in whitespace is its own right strip |
| Text.StripPadded | scripts/processar_espacenet.py:62 | stripping one space on either side of stripped text gives it back |
| Text.StripIsInfix | scripts/processar_scopus.py:171 | `strip()` returns an infix of its argument |
| Text.StripAfterLStrip | scripts/processar_scopus.py:166-171 | stripping after a left strip is stripping |
| Text.StripAfterRStrip | scripts/processar_scopus.py:166-171 | stripping after a right strip is stripping |
| Text.StripTrimmed | scripts/processar_cncflora.py:55 | `strip()` leaves no whitespace at either end |
| Text.FindFrom | scripts/processar_scopus.py:102 | the position found is an occurrence at or after the start, and no earlier position from the start is one |
| Text.JoinSplit | scripts/processar_cncflora.py:53 | joining the pieces of a split with the separator gives the string back |
| Text.SplitPiecesAvoidSeparator | scripts/processar_cncflora.py:53 | no piece of a split contains the separator |
| Text.SemicolonSplitStripped | scripts/processar_scopus.py:166-171 | after stripping, the `\s*;\s*` split and the literal `;` split agree piece by piece |
| Text.SemicolonSplitPlain | scripts/processar_scopus.py:166 | a string without `;` is its only piece |
| Text.SemicolonSplitChar | scripts/processar_scopus.py:166 | at the first `;` the split gives the right-stripped text before it, then the pieces of the left-stripped rest |
| Text.SemicolonSplitTrailing | scripts/processar_scopus.py:166 | a trailing `;` leaves an empty last piece |
| Text.RemoveChars | scripts/processar_scopus.py:106 | `re.sub('[...]', '', s)` leaves none of the deleted characters, and every character left comes from `s` |
| Text.CollapseSpaces | scripts/processar_scopus.py:107 | `re.sub(r'\s+', ' ', s)` leaves single-spaced text |
| Text.CollapseSingleSpaced | scripts/processar_scopus.py:107 | single-spaced text is left as it is |
| Text.StripSingleSpaced | scripts/processar_scopus.py:107 | stripping single-spaced text leaves it single-spaced |
| Text.UpperAscii | scripts/processar_scopus.py:106 | upper-casing ASCII text keeps its length and turns exactly the lower-case letters into capitals |
| Text.RemoveAbsent | scripts/processar_scopus.py:106 | deleting characters that do not occur changes nothing |
| Text.SplitStripExact | scripts/processar_cncflora.py:53-57 | a kept piece is exactly a non-empty stripped piece of the split |
| Text.SplitOnChar | scripts/processar_cncflora.py:53 | splitting at the first occurrence of a one-character separator gives the text before it, then the pieces of the rest |
| Text.SplitOnAbsent | scripts/processar_cncflora.py:53 | a string without the separator is its only piece |
| Scanners.RunLen | scripts/processar_scopus.py:108 | the greedy run at the start satisfies the class and stops at the first character that does not |
| Scanners.Words | scripts/processar_scopus.py:108 | the words are the maximal runs of word characters, left to right |
| Scanners.MaximalRunShift | scripts/processar_scopus.py:108 | a maximal run found in a suffix is a maximal run of the whole string unless a word character precedes it |
| Scanners.WordsAreMaximalRuns | scripts/processar_scopus.py:108 | every word is a maximal run of word characters of the string |
| Scanners.GroupLen | scripts/processar_scopus.py:112 | a match of `\(P+\)` at the start is a `(`, a non-empty run of the class and a `)` |
| Scanners.GroupLenInside | scripts/processar_scopus.py:112 | everything between the parentheses of a match is in the class |
| Scanners.GroupLenComplete | scripts/processar_scopus.py:112 | when no match is found, every `(`...`)` at the start holds a character outside the class |
| Scanners.ParenGroups | scripts/processar_scopus.py:112 | `findall(r'\(([A-Z\.]+)\)')` returns non-empty runs of the class |
| Scanners.ParenGroupsOccur | scripts/processar_scopus.py:112 | every group found is the inside of a `(...)` in the string |
| Scanners.GroupFrom | scripts/processar_scopus.py:76 | the match found is at or after the start, and no earlier position holds one |
| Scanners.RemoveSpacedGroupsPlain | scripts/processar_scopus.py:68 | a string without `(` has nothing removed |
| Scanners.RemoveSpacedGroupsSuffix | scripts/processar_scopus.py:68 | the ` (id)` after a surname is removed and the surname kept |
| Scanners.TrailRun | scripts/processar_scopus.py:77 | the run at the end satisfies the class and is preceded by a character that does not |
| Scanners.GroupRoundTrip | scripts/processar_scopus.py:76-77 | a name written `x (d)` gives back `d` as its extracted id and `x` as its name |
| Scanners.ExtractRoundTrip | scripts/processar_scopus.py:76 | the id extracted from `x (d)` is `d` |
| Scanners.StripRoundTrip | scripts/processar_scopus.py:77 | removing the trailing id from `x (d)` and stripping gives `x` |
| Scanners.TrailRunUnique | scripts/processar_scopus.py:77 | the trailing run is the one after the last character outside the class |
| Frames.Column | scripts/processar_scopus.py:66 | `df[name]` exists exactly when the label does, and holds one cell per row from the first column with that label |
| Frames.Existing | scripts/processar_cncflora.py:75 | the labels kept are requested and present, and every requested label that is present is kept |
| Frames.KeptIndices | scripts/processar_espacenet.py:145 | the positions kept by a drop are exactly those whose label is not dropped, increasing |
| Frames.DropColumns | scripts/processar_espacenet.py:145 | `drop(columns=...)` keeps every row; every label kept is not dropped and every label not dropped is kept |
| Frames.KeptIndicesAll | scripts/processar_cncflora.py:40-41 | with no label to drop every position is kept |
| Frames.DropNothing | scripts/processar_cncflora.py:40-41 | dropping absent labels changes nothing |
| Frames.PickAll | scripts/processar_cncflora.py:75-76 | picking every column in order gives the table back |
| Frames.SelectExisting | scripts/processar_cncflora.py:75-76 | `df[[c for c in wanted if c in df.columns]]` has the requested labels that exist, in order, and every row |
| Frames.FillColumn | scripts/processar_scopus.py:44 | `fillna(v)` on one column replaces its missing cells by `v` and changes nothing else |
| Frames.Matches | scripts/processar_cncflora.py:68 | every right row returned carries the left key |
| Frames.JoinRow | scripts/processar_cncflora.py:68 | one row per match, or one row when none matches, each extending the left row by the right columns kept |
| Frames.MergeRowsWidth | scripts/processar_cncflora.py:68 | every merged row is a left row plus the kept right columns wide |
| Frames.LeftMerge | scripts/processar_cncflora.py:68-70 | `merge(how='left')` fails exactly when a key label is missing; otherwise it has at least as many rows as the left side |
| Frames.LeftMergeKeepsLabel | scripts/processar_cncflora.py:68-70 | a left label the right side lacks keeps its name |
| Frames.LeftMergeKeepsKey | scripts/processar_cncflora.py:83 | merging on a shared key keeps the key's label |
| Frames.LeftMergeUniqueKeys | scripts/processar_cncflora.py:67-70 | with unique right keys the merge keeps every left row once, in order, extended by the right columns |
| Frames.MergeRowsUniqueKeys | scripts/processar_cncflora.py:67-70 | the same on rows |
| Frames.MatchesUnique | scripts/processar_cncflora.py:68 | with unique right keys at most one right row matches |
| Frames.MatchesNone | scripts/processar_cncflora.py:68 | no right row matches a key no row carries |
| Frames.MergeRowsKeepsLeft | scripts/processar_cncflora.py:67-70 | a left merge never loses a left row |
| Dimension.ExplodeExact | scripts/processar_cncflora.py:52-57 | an exploded row is exactly a piece of a non-sentinel text field of a record, with that record's key |
| Dimension.ValueColumnAppend | scripts/processar_espacenet.py:58 | the value column of concatenated rows is the concatenation |
| Dimension.ValuesExact | scripts/processar_cncflora.py:58 | every exploded value is in the dimension and every dimension value comes from an exploded row |
| Dimension.ValuesPairs | scripts/processar_cncflora.py:58 | the same, on whole rows |
| Dimension.NumberedValuesExact | scripts/processar_cncflora.py:58-60 | the numbered dimension holds each value once, exactly the exploded values |
| Dimension.Link | scripts/processar_cncflora.py:61 | the left merge gives each exploded row the position of its value, one row per exploded row |
| Dimension.LinkExact | scripts/processar_cncflora.py:61-62 | against a dimension without repeats, a record links to position `k` exactly when one of its rows holds the value there |
| Dimension.SelfLinkExact | scripts/processar_cncflora.py:61-62 | the bridge built from the dimension's own rows links a record to `k` exactly when one of its rows holds value `k` |
| Dimension.KeyedBridgeExact | scripts/processar_scopus.py:181-182 | with injective keys the de-duplicated bridge has no repeated pair and links a record to a key exactly when one of its rows holds that key's value |
| Dimension.KeyedBridgeClosed | scripts/processar_scopus.py:181-182 | every key of the bridge is a dimension key |
| Dimension.Complete | scripts/processar_espacenet.py:127 | `dropna()` keeps only rows with a record and a key, from the input, and repeats none when the input repeats none |
| Dimension.CompleteKeeps | scripts/processar_espacenet.py:127 | every row with a record and a key survives `dropna()` |
| Dimension.ExplodeAllExact | scripts/unificar_fontes.py:38 | without a sentinel filter an exploded row is exactly a piece of some text cell with its record's key |
| ColumnLabels.FoldChar | scripts/processar_scopus.py:25 | NFKD then dropping non-ASCII yields ASCII only |
| ColumnLabels.Fold | scripts/processar_scopus.py:25 | the folded label is ASCII |
| ColumnLabels.FoldAscii | scripts/processar_scopus.py:25 | ASCII text is its own fold |
| ColumnLabels.Keep | scripts/processar_scopus.py:28 | `re.sub('[^...]', '', s)` keeps only characters of the class, each from `s` |
| ColumnLabels.KeepAll | scripts/processar_scopus.py:28 | nothing is removed when every character is in the class |
| ColumnLabels.KeepAgree | scripts/processar_espacenet.py:39 | two classes that agree on the characters of `s` keep the same characters |
| ColumnLabels.FoldLower | scripts/processar_scopus.py:25-26 | folded lower-cased labels are ASCII without capitals |
| ColumnLabels.ScopusIsEspacenet | scripts/processar_espacenet.py:36-40 | on folded, lower-cased text `[^\w_]` and `[^a-z0-9_]` delete the same characters: the Scopus and Espacenet normalisers agree on every label |
| ColumnLabels.LabelsCanonical | scripts/processar_scopus.py:20-31 | every variant's output is made of `[a-z0-9_]` |
| ColumnLabels.CanonicalUnchanged | scripts/processar_cncflora.py:23-34 | a label made of `[a-z0-9_]` is unchanged by every variant |
| ColumnLabels.LabelsIdempotent | scripts/processar_scopus.py:20-31 | normalising twice is normalising once, in every variant |
| ColumnLabels.FoldAppend | scripts/processar_scopus.py:25 | folding works character by character |
| ColumnLabels.KeepAppend | scripts/processar_scopus.py:28 | filtering works character by character |
| ColumnLabels.FoldLowerFixed | scripts/processar_scopus.py:25-26 | lower-case ASCII is unchanged by folding and lower-casing |
| ColumnLabels.HyphenToUnderscore | scripts/processar_scopus.py:27-28 | in the Scopus variant a hyphen between two canonical labels becomes `_` |
| ColumnLabels.HyphenUnreplaced | scripts/processar_cncflora.py:29 | the CNCFlora replacements leave a hyphen in place |
| ColumnLabels.HyphenDeleted | scripts/processar_cncflora.py:30 | the CNCFlora class deletes the hyphen |
| ColumnLabels.HyphenDiffers | scripts/processar_cncflora.py:29-30 | the variants differ on hyphens: `a-b` gives `a_b` for Scopus and `ab` for CNCFlora |
| ColumnLabels.LabelsCollide | scripts/processar_scopus.py:25 | a label starting with an accented letter and its spelling without the accent normalise to the same label |
| ColumnLabels.StandardizeScopusLabels | scripts/processar_scopus.py:20-31 | overwrites the frame's labels, one per column in order, each the Scopus normal form of the old one; cells and dtypes unchanged |
| ColumnLabels.StandardizeCncfloraLabels | scripts/processar_cncflora.py:23-34 | the same with the CNCFlora normal form |
| ScopusCleaning.NullCount | scripts/processar_scopus.py:37 | `isnull().sum()` is at most the row count, and zero exactly when no cell of the column is missing |
| ScopusCleaning.SparseLabels | scripts/processar_scopus.py:37-38 | a label is listed exactly when it labels a column among the first `n` with more than 60 % missing cells |
| ScopusCleaning.Filled | scripts/processar_scopus.py:41-46 | labels, dtypes and row count kept; the cells are stated by `FilledCells` |
| ScopusCleaning.FillStep | scripts/processar_scopus.py:41-46 | filling column `n` advances the fill pass, and a column without missing cells is left as it is |
| ScopusCleaning.SparseColumnLabels | scripts/processar_scopus.py:37-38 | the loop returns exactly the labels of columns with more than 60 % missing cells, in column order |
| ScopusCleaning.FillMissing | scripts/processar_scopus.py:41-46 | the loop leaves every missing cell filled with its column's fill value (see `FilledCells`) |
| ScopusCleaning.FillNext | scripts/processar_scopus.py:42-46 | one column filled when it has a missing cell |
| ScopusCleaning.Cleaned | scripts/processar_scopus.py:36-56 | the labels and dtypes are those of the columns at most 60 % missing, in order, and no row is added; the rows are stated by `CleanedRows` |
| ScopusCleaning.CleanScopus | scripts/processar_scopus.py:33-58 | the result is the sparse columns dropped, the rest filled, and duplicate rows removed only when there are any |
| ScopusCleaning.ColumnSurvives | scripts/processar_scopus.py:36-39 | with distinct labels a column survives exactly when missing × 100 ≤ 60 × rows |
| ScopusCleaning.FilledCells | scripts/processar_scopus.py:41-46 | no missing cell is left; a missing cell holds `'nao_informado'` in text columns and `0` elsewhere, others unchanged |
| ScopusCleaning.CleanedRows | scripts/processar_scopus.py:53-55 | the cleaned table has no missing cell and no repeated row, keeps every filled row, and keeps first occurrences in their order |
| ScopusCleaning.EmptyKeepsColumns | scripts/processar_scopus.py:37-39 | an empty table keeps every column |
| ScopusGeneric.Pieces | scripts/processar_scopus.py:166-171 | one piece per `\s*;\s*` piece of the field, in order, upper-cased and stripped |
| ScopusGeneric.GenericModel | scripts/processar_scopus.py:159-161 | `None` exactly when the column or `eid` is missing |
| ScopusGeneric.ExplodedYields | scripts/processar_scopus.py:164-171 | an exploded row is a normalised piece of a kept record, with its eid |
| ScopusGeneric.GenericDimensionUnique | scripts/processar_scopus.py:174-177 | the dimension's values are distinct, and so are its ids when the id supply never repeats |
| ScopusGeneric.GenericDimensionExact | scripts/processar_scopus.py:164-177 | a value is in the dimension exactly when it is a normalised piece of some record not holding the sentinel |
| ScopusGeneric.GenericFirstSeen | scripts/processar_scopus.py:174 | dimension values appear in the order of their first exploded occurrence |
| ScopusGeneric.GenericBridge | scripts/processar_scopus.py:181-183 | bridge pairs are distinct, every id is a dimension id, and a record links to the id of a value exactly when one of its normalised pieces is that value |
| ScopusGeneric.EmptyPieceKept | scripts/processar_scopus.py:166-171 | a trailing `;` yields the dimension value `""` |
| ScopusAffiliations.AcronymWords | scripts/processar_scopus.py:108 | the words kept are exactly the acronym words, in order |
| ScopusAffiliations.Parse | scripts/processar_scopus.py:99-101 | a cell that is not text gives three `NAO_INFORMADO` |
| ScopusAffiliations.ParseAtFirstComma | scripts/processar_scopus.py:102-104 | the institution is the stripped text before the first comma, the address the stripped rest, or `NAO_INFORMADO` without a comma |
| ScopusAffiliations.SplitAtFirstComma | scripts/processar_scopus.py:102 | `split(',', 1)` cuts at the first comma, if any |
| ScopusAffiliations.NormalizeName | scripts/processar_scopus.py:105-107 | definition of the normalised name; stated by `NormalizedNameShape` and `NormalizeIdempotent` |
| ScopusAffiliations.UpperNoPunctuation | scripts/processar_scopus.py:105-106 | upper-casing folded text and deleting `.,;:"()` leaves only name characters and whitespace |
| ScopusAffiliations.CollapseNameChars | scripts/processar_scopus.py:107 | collapsing whitespace keeps name characters and adds only spaces |
| ScopusAffiliations.NormalizedNameShape | scripts/processar_scopus.py:105-107 | a normalised name is ASCII, without lower-case letters or punctuation, single-spaced and stripped |
| ScopusAffiliations.UpperFixed | scripts/processar_scopus.py:106 | upper-casing leaves name characters as they are |
| ScopusAffiliations.NormalFormFixed | scripts/processar_scopus.py:105-107 | a name in normal form is its own normalisation |
| ScopusAffiliations.NormalizeIdempotent | scripts/processar_scopus.py:105-107 | normalising a normalised name changes nothing |
| ScopusAffiliations.Acronym | scripts/processar_scopus.py:108-113 | definition of the acronym; stated by `AcronymShape`, `AcronymFromWord` and `AcronymFromGroup` |
| ScopusAffiliations.AcronymFromWord | scripts/processar_scopus.py:108-110 | an acronym taken from a word is a maximal run of 2 to 6 capitals in the name |
| ScopusAffiliations.AcronymFromGroup | scripts/processar_scopus.py:112-113 | an acronym from a parenthesised group is that group's capitals, dots removed |
| ScopusAffiliations.NoAcronymNotUpper | scripts/processar_scopus.py:113 | `SEM SIGLA` is no acronym |
| ScopusAffiliations.AcronymShape | scripts/processar_scopus.py:108-113 | the acronym is `SEM SIGLA` exactly when the name has neither an acronym word nor a group of capitals and dots; otherwise it is the last word acronym, or else the last group without dots |
| ScopusAffiliations.Dim | scripts/processar_scopus.py:127-132 | one dimension row per kept text, in order, with the id `ids(k)`; its name, acronym and address are those `Parse` gives the kept text |
| ScopusAffiliations.LinkByText | scripts/processar_scopus.py:134-137 | as written, an exploded row finds an id only when its text is the kept text |
| ScopusAffiliations.LinkByName | scripts/processar_scopus.py:134-137 | merged on the name, every exploded row finds the id of the kept text with its name |
| ScopusAffiliations.AffiliationModelAsWritten | scripts/processar_scopus.py:116-141 | skipped exactly when a column is missing; raises exactly when there is no affiliation text |
| ScopusAffiliations.AffiliationModel | scripts/processar_scopus.py:116-141 | skipped exactly when a column is missing; never raises |
| ScopusAffiliations.Kept | scripts/processar_scopus.py:127-130 | definition of the texts the dimension keeps; stated by `KeptUnique` and `KeptFirst` |
| ScopusAffiliations.KeptDistinct | scripts/processar_scopus.py:127-130 | the kept texts have distinct names |
| ScopusAffiliations.KeptCovers | scripts/processar_scopus.py:127-130 | every exploded text's name is the name of a kept text |
| ScopusAffiliations.KeptUnique | scripts/processar_scopus.py:127-130 | kept texts are distinct by name and cover every exploded name |
| ScopusAffiliations.KeptFirst | scripts/processar_scopus.py:127-130 | a kept text is an exploded text, and no different text before it has its name |
| ScopusAffiliations.BridgeAsWritten | scripts/processar_scopus.py:134-138 | definition of `pon_artigo_afiliacoes` as written (merge on the full text); stated by `BridgeAsWrittenExact` |
| ScopusAffiliations.BridgeAsWrittenExact | scripts/processar_scopus.py:134-139 | as written, an article links to an id exactly when one of its texts is the very text kept under that id |
| ScopusAffiliations.TextLinkSound | scripts/processar_scopus.py:134-137 | a row linked by text carries the id of the kept text it equals |
| ScopusAffiliations.TextLinkComplete | scripts/processar_scopus.py:134-137 | a row equal to a kept text is linked to that text's id |
| ScopusAffiliations.Bridge | scripts/processar_scopus.py:134-138 | definition of the corrected bridge (merge on the name); stated by `BridgeExact` and `BridgeTotal` |
| ScopusAffiliations.BridgeSound | scripts/processar_scopus.py:134-139 | a pair of the name-merged bridge comes from a row whose name is the kept text's |
| ScopusAffiliations.NameLinkSound | scripts/processar_scopus.py:134-137 | a row linked by name carries the id of a kept text with its name |
| ScopusAffiliations.NameLinkComplete | scripts/processar_scopus.py:134-137 | a row with a kept text's name is linked to that text's id |
| ScopusAffiliations.BridgeExact | scripts/processar_scopus.py:134-139 | merged on the name, an article links to an id exactly when one of its texts has the name kept under that id; no pair repeats |
| ScopusAffiliations.BridgeTotal | scripts/processar_scopus.py:134-139 | merged on the name, every exploded row with an eid is linked |
| ScopusAffiliations.InstitutionPlain | scripts/processar_scopus.py:102-103 | without a comma or outer whitespace the institution is the whole text |
| ScopusAffiliations.NameWithoutComma | scripts/processar_scopus.py:102-107 | without a comma the name is the normalised whole text |
| ScopusAffiliations.KeptOfTwo | scripts/processar_scopus.py:130 | of two texts with one name, the first is kept |
| ScopusAffiliations.SameNameTwoTexts | scripts/processar_scopus.py:127-139 | two articles whose texts differ but share a name: the dimension keeps the first text, and the as-written bridge leaves the second article unlinked |
| ScopusAffiliationExamples.UspInstitutions | scripts/processar_scopus.py:102-103 | "USP" and "USP." are their own institutions |
| ScopusAffiliationExamples.UspUpper | scripts/processar_scopus.py:105-106 | folding and upper-casing leave them as they are |
| ScopusAffiliationExamples.UpperFoldedCaps | scripts/processar_scopus.py:105-106 | ASCII text without lower-case letters is unchanged by folding and upper-casing |
| ScopusAffiliationExamples.UspUnpunctuated | scripts/processar_scopus.py:106 | deleting punctuation turns "USP." into "USP" |
| ScopusAffiliationExamples.UspNormal | scripts/processar_scopus.py:105-107 | "USP" is in normal form |
| ScopusAffiliationExamples.UspNames | scripts/processar_scopus.py:105-107 | "USP" and "USP." have the same name |
| ScopusAffiliationExamples.LostLink | scripts/processar_scopus.py:130-138 | the article written "USP." has no bridge pair as written |
| ScopusAffiliationExamples.NoAffiliationRaises | scripts/processar_scopus.py:122-129 | an export with no affiliation text raises as written and gives two empty tables corrected |
| ScopusAuthors.FullNameRoundTrip | scripts/processar_scopus.py:76-77 | a full name `name (id)` gives back the id and the name |
| ScopusAuthors.SurnameDropsId | scripts/processar_scopus.py:68-69 | the surname list drops the `(id)` after the last surname |
| ScopusAuthors.KeyCountGrows | scripts/processar_scopus.py:71 | a longer prefix holds at least as many rows of a record |
| ScopusAuthors.CumCountIncreases | scripts/processar_scopus.py:71-75 | within a record the positions count up, so record and position pick one row |
| ScopusAuthors.AlignOneSound | scripts/processar_scopus.py:81 | the aligned rows of one surname row are explained by full-name rows |
| ScopusAuthors.AlignLeftSound | scripts/processar_scopus.py:81 | every aligned row of the left part has no name and no id, or carries a full-name row |
| ScopusAuthors.AlignSound | scripts/processar_scopus.py:81 | the same for the whole outer merge |
| ScopusAuthors.AlignOneComplete | scripts/processar_scopus.py:81 | a surname row's aligned rows carry every full-name row of its record and position |
| ScopusAuthors.AlignLeftComplete | scripts/processar_scopus.py:81 | a full-name row matched by some surname row is carried |
| ScopusAuthors.AlignComplete | scripts/processar_scopus.py:81 | the outer merge loses no full-name row |
| ScopusAuthors.LinkOne | scripts/processar_scopus.py:82-86 | the right merge keeps the id row: at least one merged row, each with the id row's eid and id |
| ScopusAuthors.LinkIdsRow | scripts/processar_scopus.py:82-86 | every merged row comes from an id row |
| ScopusAuthors.LinkIdsKeeps | scripts/processar_scopus.py:82-86 | the right merge keeps every id row |
| ScopusAuthors.LinkIdsFirst | scripts/processar_scopus.py:82-91 | the first merged row with an id is the first row made for the first id row with that id |
| ScopusAuthors.FallbackNeverFiresRows | scripts/processar_scopus.py:87 | a merged row without a full name has no surname either |
| ScopusAuthors.FallbackNeverFires | scripts/processar_scopus.py:87-88 | the finished name is the upper-cased full name found; the surname never reaches it |
| ScopusAuthors.Dim | scripts/processar_scopus.py:89-92 | definition of `dim_autores`; stated by `DimIdsExact`, `DimFirst` and `DimName` |
| ScopusAuthors.DimIdsDistinct | scripts/processar_scopus.py:89-92 | no two dimension rows share an id, and none is `nao_informado` |
| ScopusAuthors.EntryIdsDistinct | scripts/processar_scopus.py:91 | after `drop_duplicates(subset=['authors_id'])` ids are distinct |
| ScopusAuthors.DimIdsExact | scripts/processar_scopus.py:89-92 | an id is in the dimension exactly when a merged row has it and it is not the sentinel |
| ScopusAuthors.DimIdSound | scripts/processar_scopus.py:89-92 | a dimension id is some merged row's id, not the sentinel |
| ScopusAuthors.DimIdComplete | scripts/processar_scopus.py:89-92 | every non-sentinel merged id is a dimension id |
| ScopusAuthors.DimRowFirst | scripts/processar_scopus.py:82-91 | a dimension row is the finished first row made for the first id row with its id |
| ScopusAuthors.DimFirst | scripts/processar_scopus.py:91 | a dimension row is the entry of the first merged row with its id |
| ScopusAuthors.PieceNameRow | scripts/processar_scopus.py:72-77 | a full-name piece gives a full-name row |
| ScopusAuthors.NameRowsCarried | scripts/processar_scopus.py:72-77 | the full-name rows are the parsed pieces |
| ScopusAuthors.FoundExact | scripts/processar_scopus.py:82-86 | an aligned row of a record carries an id exactly when a full-name row does |
| ScopusAuthors.LinkOneName | scripts/processar_scopus.py:82-88 | the name given to an id row is none when no full name of its record carries the id, else the upper-cased name of one that does |
| ScopusAuthors.DimName | scripts/processar_scopus.py:82-91 | every dimension row takes its name from the record of the first id row listing its id |
| ScopusAuthors.FirstRowNamed | scripts/processar_scopus.py:82-91 | a row made from the first merged row of `(e, id)` takes its name from record `e` |
| ScopusAuthors.PairsOfLinked | scripts/processar_scopus.py:82-86 | the merged rows hold exactly the id rows' pairs |
| ScopusAuthors.IdRowsExact | scripts/processar_scopus.py:78-80 | an id row is a piece of a record's `authors_id` |
| ScopusAuthors.BridgeAsWritten | scripts/processar_scopus.py:94-95 | definition of `pon_artigo_autores` as written; stated by `BridgeAsWrittenExact` and `SentinelDangles` |
| ScopusAuthors.BridgeAsWrittenExact | scripts/processar_scopus.py:94-95 | the as-written bridge has no repeated pair and links a record to an id exactly when it has an eid and lists the id |
| ScopusAuthors.SentinelDangles | scripts/processar_scopus.py:92-94 | a record listing `nao_informado` keeps that pair in the as-written bridge, an id the dimension lacks |
| ScopusAuthors.SentinelTableDangles | scripts/processar_scopus.py:92-94 | a one-article table with a filled `authors_id` keeps the pair `(eid, nao_informado)` in the as-written bridge |
| ScopusAuthors.SentinelTableListsId | scripts/processar_scopus.py:78-80 | that table's one row lists the sentinel id |
| ScopusAuthors.SentinelTableColumns | scripts/processar_scopus.py:66 | that table's row, read through its columns |
| ScopusAuthors.Bridge | scripts/processar_scopus.py:92-95 | definition of the corrected bridge (the dimension's sentinel filter applied); stated by `BridgeExact` and `BridgeClosed` |
| ScopusAuthors.BridgeExact | scripts/processar_scopus.py:92-95 | the corrected bridge links a record to an id exactly when it has an eid and lists a non-sentinel id |
| ScopusAuthors.BridgeClosed | scripts/processar_scopus.py:89-95 | every id of the corrected bridge is a dimension id |
| ScopusAuthors.AuthorModelAsWritten | scripts/processar_scopus.py:63-65 | `None` exactly when one of the four columns is missing |
| ScopusAuthors.AuthorModel | scripts/processar_scopus.py:60-97 | `None` exactly when one of the four columns is missing |
| Espacenet.TextCellAsWritten | scripts/processar_espacenet.py:46 | `astype(str)` then `fillna` gives text and keeps text cells |
| Espacenet.TextCell | scripts/processar_espacenet.py:46 | the corrected cell is text; it is the sentinel exactly when it was missing (or already the sentinel) |
| Espacenet.MissingBecomesNan | scripts/processar_espacenet.py:46 | as written a missing cell becomes `"nan"`, not the sentinel |
| Espacenet.CellText | scripts/processar_espacenet.py:46 | a converted cell is text; text and numbers convert alike in both orders; a missing cell becomes `"nan"` as written and the sentinel with the fill first |
| Espacenet.TextColumn | scripts/processar_espacenet.py:46 | one column turned into text in the given order, every other cell and label unchanged |
| Espacenet.Named | scripts/processar_espacenet.py:30-31 | every row kept; a label survives exactly when it is a label of the input without `unnamed` |
| Espacenet.Relabelled | scripts/processar_espacenet.py:33-41 | every label replaced by its normal form, one for one |
| Espacenet.Cleaned | scripts/processar_espacenet.py:25-49 | what `limpeza_inicial_espacenet` returns, `AsWritten` being the source's order: every row kept, the labels of the unnamed-free columns normalised |
| Espacenet.InitialCleaning | scripts/processar_espacenet.py:25-49 | the method as written (`astype(str)` before the fill) returns `Cleaned(AsWritten, t)` |
| Espacenet.CorrectedCleaning | scripts/processar_espacenet.py:25-49 | the corrected method (fill first) returns `Cleaned(FillFirst, t)` |
| Espacenet.Relabel | scripts/processar_espacenet.py:30-41 | the drop and the label loop return the unnamed-free table relabelled |
| Espacenet.NormalizeLabels | scripts/processar_espacenet.py:33-41 | the loop returns one normalised label per column, in order |
| Espacenet.TextLoop | scripts/processar_espacenet.py:43-46 | the loop returns the table with every listed column visited, in either order of conversion |
| Espacenet.CleanedLabelsSound | scripts/processar_espacenet.py:30-41 | every row is kept, and each label is the normal form of a label without `unnamed`, made of `[a-z0-9_]` |
| Espacenet.CleanedLabelsComplete | scripts/processar_espacenet.py:30-41 | every label without `unnamed` keeps its normal form in the result |
| Espacenet.TextColumnsDistinct | scripts/processar_espacenet.py:43 | the listed labels are distinct |
| Espacenet.TextUpToCell | scripts/processar_espacenet.py:43-46 | a listed column's cells are unchanged before its step and converted exactly once after it |
| Espacenet.CleanedColumn | scripts/processar_espacenet.py:43-46 | after the cleaning a listed column holds its cells converted once: text, with `"nan"` as written or the sentinel corrected where a cell was missing |
| Espacenet.MissingCellAsWritten | scripts/processar_espacenet.py:46 | as written a missing cell of a listed column is `"nan"` after the cleaning |
| Espacenet.CleanedPartyCellsText | scripts/processar_espacenet.py:43-46 | after the cleaning every `inventors` and `applicants` cell is text, so the party builder only ever meets text parties |
| Espacenet.PartyPiecesExact | scripts/processar_espacenet.py:60-63 | a party piece is exactly a non-empty stripped comma piece |
| Espacenet.RoleNames | scripts/processar_espacenet.py:69 | roles are `inventor` and `applicant` |
| Espacenet.RoleOfPlural | scripts/processar_espacenet.py:69 | deleting the `s` of a plural label without other `s` gives its singular |
| Espacenet.PartyModel | scripts/processar_espacenet.py:55-72 | `None` exactly when a column the builder reads is missing |
| Espacenet.RoleRowsExact | scripts/processar_espacenet.py:58-63 | a party row is a piece of a record's role column with its publication number and role |
| Espacenet.PartyRows | scripts/processar_espacenet.py:58-63 | definition of the melted, split, stripped party rows; stated by `RoleRowsExact` and `PartyRowNames` |
| Espacenet.PartyRowNames | scripts/processar_espacenet.py:58-63 | a party row names its party in its record |
| Espacenet.NamesPartyRow | scripts/processar_espacenet.py:58-63 | every name a record gives has its party row |
| Espacenet.PartyDim | scripts/processar_espacenet.py:65-66 | definition of `dim_parties`; stated by `PartyDimExact` and `InventorsFirst` |
| Espacenet.PartyDimExact | scripts/processar_espacenet.py:65-66 | no party name twice, and a name is listed exactly when some record names it |
| Espacenet.PartyRowsNamed | scripts/processar_espacenet.py:58-63 | a name has a party row exactly when some record names it |
| Espacenet.PartyBridge | scripts/processar_espacenet.py:68-70 | definition of `pon_patente_party`; stated by `PartyBridgeRows` and `PartyBridgeExact` |
| Espacenet.PartyBridgeRows | scripts/processar_espacenet.py:68-70 | a bridge triple is a party row with its name replaced by its dimension position |
| Espacenet.PartyBridgeExact | scripts/processar_espacenet.py:68-70 | no triple twice, roles are inventor or applicant, and a publication links to party `k` in a role exactly when some record with that number names party `k` in that role |
| Espacenet.InventorsFirst | scripts/processar_espacenet.py:58-66 | the parties some inventor field names take the first positions of the dimension |
| Espacenet.InventorValues | scripts/processar_espacenet.py:58-63 | the inventor rows' values are the names inventor fields give |
| Espacenet.RoleValueNamed | scripts/processar_espacenet.py:58-63 | every value of a role's rows is a name given in that role |
| Espacenet.NamedRoleValue | scripts/processar_espacenet.py:58-63 | every name given in a role is a value of that role's rows |
| Espacenet.MissingPartyAsWritten | scripts/processar_espacenet.py:46-63 | as written a missing party field passes the sentinel filter and becomes the party `nan` |
| Espacenet.MissingPartySkipped | scripts/processar_espacenet.py:46-59 | with the fill applied first a missing field names no party |
| Espacenet.CodesDistinct | scripts/processar_espacenet.py:162 | 21 distinct two-letter keys |
| Espacenet.CodesListed | scripts/processar_espacenet.py:162 | the keys in dictionary order |
| Espacenet.CountryDim | scripts/processar_espacenet.py:77-78 | one row per dictionary entry, in order, `country_id` its position |
| Espacenet.Prefix2 | scripts/processar_espacenet.py:80 | `str[:2]` is a prefix of at most two characters, exactly two when the text is longer |
| Espacenet.BracketFrom | scripts/processar_espacenet.py:86 | the position found starts a `[XX]` code at or after the start, and no earlier position does |
| Espacenet.BracketCode | scripts/processar_espacenet.py:86 | `extract(r'\[([A-Z]{2})\]')` gives the two capitals of the first `[XX]`, or nothing when there is none |
| Espacenet.BracketCodeSuffix | scripts/processar_espacenet.py:86 | a piece ending in `[XX]` with no other `[` gives `XX` |
| Espacenet.PieceCodes | scripts/processar_espacenet.py:84-86 | a code is listed exactly when some comma piece carries it |
| Espacenet.OriginOfPlural | scripts/processar_espacenet.py:87 | the origin of `inventors` is `Inventor`, of `applicants` `Applicant`: the singular, capitalised |
| Espacenet.CapitalizeLower | scripts/processar_espacenet.py:87 | `capitalize()` on lower-case ASCII upper-cases the first letter only |
| Espacenet.CountryModel | scripts/processar_espacenet.py:74-95 | `None` exactly when a column the builder reads is missing |
| Espacenet.PubRelationsExact | scripts/processar_espacenet.py:80 | the publication relations are exactly the records with a text number, each with its first two characters |
| Espacenet.PartyRelationsExact | scripts/processar_espacenet.py:82-87 | the relations of a party column are exactly its `[XX]` mentions |
| Espacenet.Relations | scripts/processar_espacenet.py:80-90 | definition of `df_relations`; stated by `RelationsExact`, `RelationMentioned` and `MentionRelated` |
| Espacenet.RelationsExact | scripts/processar_espacenet.py:89-90 | a relation survives exactly when its code is a dictionary key and some record mentions it |
| Espacenet.RelationMentioned | scripts/processar_espacenet.py:89-90 | a surviving relation comes from a mention |
| Espacenet.MentionRelated | scripts/processar_espacenet.py:89-90 | a mention of a known code gives a surviving relation |
| Espacenet.CountryBridge | scripts/processar_espacenet.py:92-93 | definition of `pon_patente_country`; stated by `CountryBridgeExact` and `CountryBridgeClosed` |
| Espacenet.CountryBridgeExact | scripts/processar_espacenet.py:92-93 | the bridge holds `(p, k, origin)` exactly when a relation of `p` with that origin carries code `k`; no row twice |
| Espacenet.CountryBridgeClosed | scripts/processar_espacenet.py:92-93 | every `country_id` of the bridge is a row of `dim_country` |
| Espacenet.CountryModelExact | scripts/processar_espacenet.py:74-95 | end to end: publication `p` links to country `k` under an origin exactly when `k` is a dictionary row and a record with number `p` mentions its code under that origin |
| Espacenet.IpcPiecesExact | scripts/processar_espacenet.py:106-110 | a field's codes are exactly the non-empty cleanings of its comma pieces |
| Espacenet.UpperNoAsciiLower | scripts/processar_espacenet.py:102 | `upper()` never leaves an ASCII lower-case letter |
| Espacenet.CleanIpcNormal | scripts/processar_espacenet.py:102 | a cleaned code has no hyphen, no space and no ASCII lower-case letter |
| Espacenet.CleanIpcFixed | scripts/processar_espacenet.py:102 | an already clean code is its own cleaning |
| Espacenet.IpcModel | scripts/processar_espacenet.py:97-118 | `None` exactly when a column the builder reads is missing |
| Espacenet.IpcRowsExact | scripts/processar_espacenet.py:104-110 | an IPC row is exactly a classification of its record |
| Espacenet.ClassifiedNormal | scripts/processar_espacenet.py:108-110 | every code a record is classified under is normalised and non-empty |
| Espacenet.IpcDim | scripts/processar_espacenet.py:112-113 | definition of `dim_ipc`; stated by `IpcDimNormal` and `IpcDimExact` |
| Espacenet.IpcDimNormal | scripts/processar_espacenet.py:112-113 | `dim_ipc` numbers its rows and lists distinct normalised codes |
| Espacenet.IpcDimExact | scripts/processar_espacenet.py:112-113 | a code is in `dim_ipc` exactly when some record is classified under it |
| Espacenet.IpcRowsClassified | scripts/processar_espacenet.py:104-110 | a code has a row exactly when some record is classified under it |
| Espacenet.IpcBridge | scripts/processar_espacenet.py:115-116 | definition of `pon_patente_ipc`; stated by `IpcBridgeExact` and `IpcBridgeClosed` |
| Espacenet.IpcBridgeExact | scripts/processar_espacenet.py:115-116 | the bridge links `p` to `k` exactly when `k` is a row of `dim_ipc` and a record numbered `p` is classified under its code; no pair twice |
| Espacenet.IpcBridgeClosed | scripts/processar_espacenet.py:115-116 | every `ipc_id` of the bridge is a row of `dim_ipc` |
| Espacenet.NanPiece | scripts/processar_espacenet.py:106 | `"nan"` holds no comma: it is its own only piece |
| Espacenet.UpperNan | scripts/processar_espacenet.py:102 | `"nan".upper()` is `"NAN"` |
| Espacenet.NanIpc | scripts/processar_espacenet.py:102 | `"nan"` cleans to the code `NAN` |
| Espacenet.MissingIpcAsWritten | scripts/processar_espacenet.py:104-113 | as written (line 46) a record whose IPC field was missing is classified under `NAN`, which becomes a row of `dim_ipc` |
| Espacenet.MissingIpcSkipped | scripts/processar_espacenet.py:104-110 | with the fill first (line 46 corrected) such a record is classified under no code |
| Espacenet.SpeciesMatches | scripts/processar_espacenet.py:126 | the ids of the master rows with the name, in master order |
| Espacenet.MergedSpeciesExact | scripts/processar_espacenet.py:126 | a merged row with an id is exactly a manual row whose name equals a master name |
| Espacenet.SpeciesBridge | scripts/processar_espacenet.py:124-127 | definition of `pon_patente_especie`; stated by `SpeciesBridgeExact` |
| Espacenet.SpeciesBridgeExact | scripts/processar_espacenet.py:126-127 | no row twice, and `(p, id)` is in it exactly when both are present and a manual row numbered `p` names exactly a master species with that id |
| Espacenet.SpeciesModel | scripts/processar_espacenet.py:124-127 | `None` exactly when the manual list does not have three columns or the master lacks a column |
| Espacenet.PatentFacts | scripts/processar_espacenet.py:143-145 | every row kept; the columns are stated by `PatentFactsExact` |
| Espacenet.PatentFactsExact | scripts/processar_espacenet.py:143-145 | the fact table keeps, in order, exactly the columns outside the seven, with dtypes and cells unchanged |
| Cncflora.BaseCleaned | scripts/processar_cncflora.py:36-47 | definition of `limpar_dados_base_cncflora`; stated by `EvaluationIds`, `BaseCleanedLabels` and `BaseCleanedCells` |
| Cncflora.FillTextColumns | scripts/processar_cncflora.py:42-43 | the loop leaves the rows with every text column filled |
| Cncflora.CleanBase | scripts/processar_cncflora.py:36-47 | the method returns the base cleaning (row ids, `nome_popular` dropped, text columns filled) |
| Cncflora.EvaluationIds | scripts/processar_cncflora.py:38-39 | `avaliacao_id` is the first, numeric column and numbers the rows 0..n-1 |
| Cncflora.BaseCleanedLabels | scripts/processar_cncflora.py:40-41 | `nome_popular` is gone and every other label kept |
| Cncflora.BaseCleanedCells | scripts/processar_cncflora.py:42-43 | no text cell is missing: missing ones hold the sentinel, every other cell is unchanged |
| Cncflora.DimAndBridge | scripts/processar_cncflora.py:49-63 | `None` exactly when the id or the field column is missing or `.str.split` (line 53) refuses the field: a column not of object dtype, or one whose non-sentinel cells hold a number and no text (`SplitFails`) |
| Cncflora.PieceRows | scripts/processar_cncflora.py:51-57 | definition of the exploded rows; stated by `PieceRowsExact` and `PieceRowsHeld` |
| Cncflora.PieceRowsExact | scripts/processar_cncflora.py:52-57 | an exploded row is exactly a value a record holds, under its id |
| Cncflora.DimDistinct | scripts/processar_cncflora.py:58-60 | the dimension numbers distinct values by position |
| Cncflora.DimExact | scripts/processar_cncflora.py:58-60 | a value is in the dimension exactly when a record holds it |
| Cncflora.PieceRowsHeld | scripts/processar_cncflora.py:52-57 | a value has an exploded row exactly when a record holds it |
| Cncflora.BridgeRows | scripts/processar_cncflora.py:61-62 | one bridge row per piece, in order: the record's id and the dimension id of the piece |
| Cncflora.BridgeKeepsRepeats | scripts/processar_cncflora.py:61-62 | a value repeated in one field gives the same bridge row twice |
| Cncflora.BridgeExact | scripts/processar_cncflora.py:61-62 | the bridge links `e` to row `k` exactly when `k` is a dimension row and a record with id `e` holds the value of row `k` |
| Cncflora.TrailingDelimiterPieces | scripts/processar_cncflora.py:53 | `"a\| b \|".split('\|')` gives three pieces, the last empty |
| Cncflora.TrailingDelimiterStripped | scripts/processar_cncflora.py:55 | stripping them gives `a`, `b`, `""` |
| Cncflora.EmptyLastDropped | scripts/processar_cncflora.py:57 | the empty piece is dropped |
| Cncflora.TrailingDelimiterDropped | scripts/processar_cncflora.py:52-57 | `"Rosa\| Tabebuia \|"` holds exactly `Rosa` and `Tabebuia` |
| Cncflora.ValueDim | scripts/processar_cncflora.py:104-105 | `None` exactly when the column is missing; otherwise the columns are the id and the value |
| Cncflora.ValueDimExact | scripts/processar_cncflora.py:104-105 | a simple dimension lists every distinct cell once, in first-seen order, with id `k` at row `k` |
| Cncflora.SpeciesDim | scripts/processar_cncflora.py:106 | the columns are `especie_id`, `nome_cientifico`, `grupo_taxonomico`, one row per term |
| Cncflora.SpeciesDimExact | scripts/processar_cncflora.py:106 | every term keeps its row with id its position; nothing is de-duplicated |
| Cncflora.EvaluationFacts | scripts/processar_cncflora.py:65-76 | fails exactly when a merge fails; otherwise keeps the requested fact columns that exist, in requested order |
| Cncflora.EvaluationFactsKeepRows | scripts/processar_cncflora.py:67-76 | with unique dimension names the merges keep every evaluation once and in order, and the fact table has one row per evaluation |
| Cncflora.MergeStep | scripts/processar_cncflora.py:83 | a merge on a unique key keeps every row once, in order, and every key label |
| Cncflora.MergeDims | scripts/processar_cncflora.py:80-83 | with separate keys the facts carry, every merge succeeds and keeps every fact row once, in order |
| Cncflora.Widened | scripts/processar_cncflora.py:80-83 | definition of the table after the first `n` merges; a merged table is well formed; stated by `MergeDims` |
| Cncflora.MergeNext | scripts/processar_cncflora.py:83 | one pass of the loop: the merge of the current table with the next dimension |
| Cncflora.WideFacts | scripts/processar_cncflora.py:78-86 | definition of `criar_saida_otimizada_looker`; stated by `WideOutput` |
| Cncflora.WideOutput | scripts/processar_cncflora.py:78-86 | with separate keys, the wide table has one row per fact row, and no key column |
| Unifier.FindAll | scripts/unificar_fontes.py:31-36 | definition of `str.findall` with the alternation of the names, case-insensitive, between word boundaries; stated by `FindAllSound` and `FindAllLeftmost` |
| Unifier.FirstMatchExact | scripts/unificar_fontes.py:31 | the alternative chosen matches between word boundaries and no earlier-listed one does; when none is chosen none matches |
| Unifier.Scan | scripts/unificar_fontes.py:36 | every reported match starts in range at a position where an alternative matches |
| Unifier.ScanOrdered | scripts/unificar_fontes.py:36 | reported matches come in order and never overlap |
| Unifier.ScanSkip | scripts/unificar_fontes.py:36 | a run of positions where nothing matches is passed over |
| Unifier.GapsClearSkip | scripts/unificar_fontes.py:36 | a position without a match widens the first gap |
| Unifier.GapsClearMatch | scripts/unificar_fontes.py:36 | a match at the start of the gap becomes the first reported match |
| Unifier.ScanLeftmost | scripts/unificar_fontes.py:36 | with no empty alternative nothing matches before the first reported match nor between a match's end and the next |
| Unifier.Spans | scripts/unificar_fontes.py:31-36 | each reported match is a position where a listed name is chosen, within the text |
| Unifier.NoMatchAt | scripts/unificar_fontes.py:31 | a match needs a word boundary and a first letter equal up to case to the name's |
| Unifier.SpanSound | scripts/unificar_fontes.py:31-36 | each match is a listed name between word boundaries, and no earlier-listed name matches there |
| Unifier.SpansOrdered | scripts/unificar_fontes.py:36 | matches follow one another without overlapping |
| Unifier.FindAllSound | scripts/unificar_fontes.py:36 | every string found is the article's text at a match and equals the listed name up to case |
| Unifier.FindAllLeftmost | scripts/unificar_fontes.py:36 | nothing is skipped: no name matches before the first string found, nor between found strings, nor after the last |
| Unifier.NameStringsExact | scripts/unificar_fontes.py:30 | the name cells exist exactly when none is numeric; a name is then listed exactly when it is a text cell |
| Unifier.PlantNamesExact | scripts/unificar_fontes.py:30 | the name list exists exactly when no cell is numeric, and then holds every text cell once and nothing else |
| Unifier.SearchTextsExact | scripts/unificar_fontes.py:35 | the search texts exist exactly when no title or abstract is numeric; each is title, space, abstract, a missing one read as empty |
| Unifier.MasterExact | scripts/unificar_fontes.py:40-42 | the master lists every CNCFlora cell and every string found, each once, and nothing else |
| Unifier.MasterStartsWithCncflora | scripts/unificar_fontes.py:41-42 | the CNCFlora names come first, in their first-seen order |
| Unifier.FoundExact | scripts/unificar_fontes.py:36-39 | a found row is a string the scan found in that article's text |
| Unifier.FoundStrings | scripts/unificar_fontes.py:37-40 | a cell is a found name exactly when the scan found it in some article |
| Unifier.NumberedMaster | scripts/unificar_fontes.py:43-45 | ids are positions, names distinct, exactly the master values |
| Unifier.BuildMaster | scripts/unificar_fontes.py:40-45 | row `k` has id `k`; the master holds every CNCFlora cell, found or not, and every string found in any article, each once |
| Unifier.BridgeRowsExact | scripts/unificar_fontes.py:47-52 | the bridge has no repeated pair and links an article to `k` exactly when one of its found rows holds the name there |
| Unifier.BuildBridge | scripts/unificar_fontes.py:37-52 | no pair twice; an article links to species `k` exactly when the name of row `k` was found in its text, so an article without matches has no row |
| Unifier.Build | scripts/unificar_fontes.py:37-52 | definition of the master dimension and the bridge from the names found; stated by `BuildMaster` and `BuildBridge` |
| Unifier.RenamedColumns | scripts/unificar_fontes.py:33-34 | `eid` becomes `article_id`, every other label kept |
| Unifier.Unify | scripts/unificar_fontes.py:30-52 | definition of `unificar_fontes_e_criar_ligacoes` between reading and writing; when it fails is stated by `UnifyFails`, what it builds by `BuildMaster` and `BuildBridge` |
| Unifier.UnifyFails | scripts/unificar_fontes.py:30-38 | the unifier fails exactly when a column is missing, a name, title or abstract is numeric, or the Scopus table has no rows (the empty mask of line 37 selects no column and line 38 raises) |
| Unifier.UnifyNamesNonEmpty | scripts/unificar_fontes.py:30-31 | the pattern is built from at least one name and no empty one |
| UnifierExamples.OnlyNineStartsT | scripts/unificar_fontes.py:31 | in "Found in Tabebuia forests" only position 9 starts a word with `t` |
| UnifierExamples.PrefixNotFound | scripts/unificar_fontes.py:31-36 | "Tabe" is not found in that sentence |
| UnifierExamples.NineMatches | scripts/unificar_fontes.py:31 | "Tabebuia" matches at position 9 |
| UnifierExamples.WordSpans | scripts/unificar_fontes.py:36 | it is reported once, at position 9 |
| UnifierExamples.WordFound | scripts/unificar_fontes.py:36 | `findall` returns `["Tabebuia"]` |
| UnifierExamples.LowerCaseMatches | scripts/unificar_fontes.py:36 | "tabebuia" matches the listed "Tabebuia" |
| UnifierExamples.CaseVariantFound | scripts/unificar_fontes.py:36 | the variant is reported as written, `["tabebuia"]` |
| UnifierExamples.DistinctOfTwo | scripts/unificar_fontes.py:42 | two different values are both kept, in order |
| UnifierExamples.CaseVariantRow | scripts/unificar_fontes.py:38-39 | the article's one found row |
| UnifierExamples.CaseVariantMasterValues | scripts/unificar_fontes.py:40-42 | the master names are "Tabebuia" then "tabebuia" |
| UnifierExamples.CaseVariantKeptApart | scripts/unificar_fontes.py:40-52 | the case variant becomes master row 1 and the article links to it alone |
| UnifierExamples.CaseVariantBridge | scripts/unificar_fontes.py:47-52 | the article's row links to master row 1 |

## Left out

- The pandas semantics assumed are those of pandas 2.x. Two modelled behaviours depend on it: `astype(str)` turns a missing cell into `"nan"` (`scripts/processar_espacenet.py:46`), and text columns have dtype `object` (`scripts/processar_scopus.py:43`). Under pandas 3's default string dtype, `astype(str)` keeps the missing value, so the fill would find it, and the `dtype == 'object'` test is false for text columns, which would then be filled with `0`. Neither pandas 3 behaviour is modelled.
- Reading and writing CSV files, globbing, `mkdir`, diagnostics, the exit on a missing input file, and `scripts/main.py` (process orchestration) are not modelled.
- `uuid.uuid4()` is an id supply `ids: nat -> string` given as a parameter; the dimension's ids are distinct whenever the supply never repeats, which is what random UUIDs are relied on for.
- `unicodedata.normalize('NFKD', ...)` with `encode('ascii', 'ignore')` is a table for U+0000..U+00FF; code points above U+00FF are dropped. `str.upper()`/`str.lower()`, `\w`, `\b` and `re.IGNORECASE` are modelled for ASCII and Latin-1 only.
- `pd.to_numeric` (`scripts/processar_scopus.py:48-51`, `scripts/processar_cncflora.py:44-45`) and the date bridges (`scripts/processar_espacenet.py:129-140`, `pd.to_datetime`) are library parsing and not modelled; the cleaned tables are stated without that coercion.
- The 60 % threshold uses floating point in the source; the model states the integer inequality `missing * 100 > 60 * rows`. On an empty table the source divides 0 by 0 and drops nothing, which `ScopusCleaning.EmptyKeepsColumns` states.
- Cells are missing, text or integer; floats and other dtypes are not modelled, and pandas' dtype inference after a fill is modelled as "text column" versus "other".
- The row order of the outer merge that aligns author surnames and full names (pandas sorts the keys) is not modelled: the author dimension and bridge are stated as sets of facts, not as orders.
- Row multiplication in merges whose right side repeats a key (for instance `dim_especies_temp`) is modelled by `Frames.MergeRows`, but the fact-table lemmas assume unique right keys.
- Tables with duplicate column labels are modelled by first-label lookup; what pandas does when a rename produces a second `article_id` is not modelled.
- The unifier's empty name list (the pattern `\b()\b`) and empty names are excluded by `Unifier.NamesGiven`: the model does not say what `findall` returns for empty matches.
- ScopusGeneric.EmptyPieceKept: stated for a field with one non-empty value before the trailing `;`, not for every field.
- Text.SemicolonSplitTrailing: stated for text without a `;` before the trailing one.
- ScopusAuthors.AuthorModelAsWritten: states only when the model is skipped; its dimension and bridge are stated by the lemmas about `Dim` and `BridgeAsWritten`.
- Espacenet.PartyRows: a missing or numeric `inventors`/`applicants` cell is skipped, whereas `criar_modelo_parties` (`scripts/processar_espacenet.py:58-63`, no `dropna`) carries it as a missing party into `dim_parties` and the bridge; and `PartyModel` is `None` only for a missing column, not for `.str.split` (line 60) refusing a melted column that holds only numbers. Neither case arises after the cleaning, which makes every party cell text (`Espacenet.CleanedPartyCellsText`).

## Findings

| source | as written | input that shows it | evidently intended | confidence | as-written member | corrected member |
|---|---|---|---|---|---|---|
| scripts/processar_scopus.py:134-138 | the affiliation bridge merges on the full text, but the dimension keeps one text per normalised name | two articles with affiliations "USP" and "USP." | every article linked to the affiliation its text normalises to | not executed | ScopusAffiliationExamples.LostLink | ScopusAffiliations.BridgeExact |
| scripts/processar_scopus.py:128-129 | with no affiliation text the parsed tuples form a frame with no columns and the assignment of three columns raises | one record whose `affiliations` is `nao_informado` | two empty tables | not executed | ScopusAffiliationExamples.NoAffiliationRaises | ScopusAffiliations.AffiliationModel |
| scripts/processar_scopus.py:92-94 | the dimension drops the author id `nao_informado` but the bridge keeps it | one article whose `authors_id` was filled with `nao_informado` | every bridge id is a dimension id | not executed | ScopusAuthors.SentinelTableDangles | ScopusAuthors.BridgeClosed |
| scripts/processar_espacenet.py:46 | `astype(str)` runs before `fillna`, so a missing cell becomes `"nan"` and the sentinel never appears; on the whole table `Espacenet.MissingIpcAsWritten` shows a missing IPC field giving the `dim_ipc` row `NAN` | a patent with no applicant | a missing field names no party | not executed | Espacenet.MissingPartyAsWritten | Espacenet.MissingPartySkipped |
