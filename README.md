# TAD conversion tool: register records to system cards

This project models the core of the TAD conversion tool. The tool reads the Dutch
algorithm register ("algoritmeregister") and writes one TAD system card per register
record. The model covers:

- **Register** (`register.dfy`): the input record. One row of the register, with one
  optional text per column the conversion reads.
- **SystemCards** (`system_card.dfy`): the card and its parts: owners, labels, legal bases,
  references and external providers.
  - Each part has a specification function: `OwnersOf`, `LabelsOf`, `LegalBasesOf`,
    `ReferencesOf`, `ExternalProvidersOf`, and `CardOf` for the whole card.
  - Each part also has a method that builds it by conditional pushes, as the `From` impls do.
    Each method is proved equal to its specification.
  - Further lemmas cover ordering, bounds and membership, plus the invariant every mapped
    card satisfies (`WellFormedCard`).
  - A small model of which keys the YAML serialisation writes (`skip_serializing_if`).
- **Compaction** (`compaction.dfy`): the shared meaning of a run of
  `if let Some(v) = field { vec.push(v) }` statements. It is the list of present values, in
  field order. `PushPresent` is one such statement; the builders are sequences of its calls.
- **Dates** (`dates.dfy`): `parse_date`. A `YYYY-MM` value gets `-01` appended. It is then
  read with chrono's `%Y-%m-%d`, and a failure becomes an absent date.
- **LegalBasisPattern** (`legal_basis_pattern.dfy`): a hand-written matcher for the one regular
  expression `\d+: (.+?), (https:\/\/\S+)(?:\.|$)`. It is proved to follow the regex crate's
  leftmost-first semantics:
  - the shortest name;
  - for that name, the longest link;
  - the leftmost start;
  - non-overlapping matches, iterated left to right as `captures_iter` does.
- **Conversion** (`conversion.dfy`): the body of `convert_algoritmeregister`:
  - the standard-version filter;
  - the output file name;
  - the per-record loop, modelled as the list of saves it makes;
  - the output directory those saves leave behind.

The last link of a text that ends in `.` keeps that period: the greedy `\S+` takes it and
`$` then matches at the end (`LegalBasisPattern.FinalPeriodKept`); a link followed by `.` and
white space stops before the period (`LegalBasisPattern.ReportedGroups`). The two-entry text
`1: A, https://x.y. 2: B, https://z.` shows both: its legal bases are `A` with
`https://x.y` and `B` with `https://z.` (`SystemCards.TwoEntryLegalBases`).

The two `unwrap` calls on a kept record's name and organisation panic when the field is
absent. This is modelled as a `Panic` value that stops the loop. The name is checked first,
as `format!` evaluates it first. Cards saved before the panic stay saved.

## Model

| member | source | states |
|---|---|---|
| SystemCards.MapRecord | src/system_card.rs:77-126 | builds exactly `CardOf(r)`: the card with version `0.1a3`, the copied and renamed scalar fields, the owners, labels, dates, legal bases, external providers and references of the record, and `upl`, `models`, `assessments` absent |
| SystemCards.CardOfWellFormed | src/system_card.rs:102-124 | every mapped card has version `0.1a3` and no `upl`, `models` or `assessments`. It has exactly one owner, with no oin, name or role. Labels number at most 5 and are named after label columns. Legal bases are well formed. There are at most one external provider and at most 5 references. Present dates are first-of-month dates with a month in 1..12 |
| SystemCards.CardKeepsCopiedFields | src/system_card.rs:104-119 | two records with the same card agree on name, organisation, contact e-mail, description, status, publication category, goal, proportionality, risks, human intervention, source data, methods and models, provider and every label column: the card loses none of them |
| SystemCards.BuildOwners | src/system_card.rs:268-282 | the owners are the single owner with the record's organisation and contact e-mail and no oin, name or role, whether or not those fields are present |
| SystemCards.BuildLabels | src/system_card.rs:150-191 | the labels built by the five conditional pushes are the compaction of the five label slots |
| SystemCards.LabelsCount | src/system_card.rs:152-189 | one label per present label column, at most 5 |
| SystemCards.LabelsInColumnOrder | src/system_card.rs:154-187 | the label of a present column sits at the number of present columns before it, with the column's name and value: labels keep the column order |
| SystemCards.LabelMember | src/system_card.rs:154-187 | a label with a column's name and value is on the card if and only if that column holds that value |
| SystemCards.LabelsPopulated | src/system_card.rs:155-186 | every label has a name and a value, and the name is one of the five column names |
| SystemCards.BuildReferences | src/system_card.rs:225-246 | the references built by the five conditional pushes are the compaction of the five reference columns |
| SystemCards.ReferencesCount | src/system_card.rs:227-244 | one reference per present reference column, at most 5 |
| SystemCards.ReferencesInColumnOrder | src/system_card.rs:229-243 | a present reference column's value sits at the number of present columns before it |
| SystemCards.ReferenceMember | src/system_card.rs:229-243 | a string is a reference if and only if one of the five reference columns holds it |
| SystemCards.ExternalProvidersOfProvider | src/system_card.rs:94-98 | the external providers are `[provider]` when the provider is present and empty otherwise |
| SystemCards.LegalBasesStep | src/system_card.rs:212-217 | one iteration of `captures_iter` adds the legal basis of the match found and resumes the search after it |
| SystemCards.BuildLegalBases | src/system_card.rs:204-221 | the loop over the matches builds exactly the legal bases of the successive matches of the grouping text, and none when the column is absent |
| SystemCards.LegalBasesAreSuccessiveMatches | src/system_card.rs:207-217 | the k-th legal basis holds the name and link groups of the k-th match. That match is the leftmost-first match from where the previous one ended, and the matches do not overlap |
| SystemCards.LegalBasesWellFormed | src/system_card.rs:207-217 | every legal basis has a non-empty name and a link that starts with `https://` and has no white space |
| SystemCards.TwoEntryLegalBases | src/system_card.rs:207-219 | the grouping text `1: A, https://x.y. 2: B, https://z.` gives the legal bases `A` with `https://x.y` and `B` with `https://z.`: the first link stops before `. `, the last keeps its final period |
| SystemCards.LegalBasesEmptyIff | src/system_card.rs:210-219 | there are no legal bases if and only if the grouping column is absent or its text holds no match anywhere |
| SystemCards.KeyEmittedIff | src/system_card.rs:16-74 | a key of the serialised card is written if and only if its field is set (not `None`, not an empty list; `version` always) |
| SystemCards.EmittedKeys | src/system_card.rs:14-74 | a serialised card writes between one key and one key per field, and its first key is always `version` |
| SystemCards.EmittedKeysAreFieldNames | src/system_card.rs:14-74 | every key written is the name of one of the card's fields |
| SystemCards.BareCardKeys | src/system_card.rs:16-74 | a card with every optional field absent and every list empty serialises `version` alone |
| SystemCards.CardListKeys | src/system_card.rs:22-74 | of any card, `owners`, `labels`, `legal_base`, `external_providers` and `references` are serialised if and only if the list is non-empty |
| SystemCards.CardOptionKeys | src/system_card.rs:19-74 | of any card, `upl`, `models` and `assessments` are serialised if and only if the field is present |
| SystemCards.MappedCardKeys | src/system_card.rs:16-74 | a mapped card always serialises `owners`, never `upl`, `models` or `assessments`. It serialises `labels`, `references`, `external_providers` and `legal_base` if and only if the record supplies something for them |
| SystemCards.LabelsNonEmptyIff | src/system_card.rs:152-189 | the card has labels if and only if some label column is present |
| SystemCards.ReferencesNonEmptyIff | src/system_card.rs:227-244 | the card has references if and only if some reference column is present |
| Compaction.CompactLength | src/system_card.rs:152-189 | a compacted list has one element per present field: no placeholder entries |
| Compaction.CompactMember | src/system_card.rs:152-189 | a value is in the compacted list if and only if some field holds it |
| Compaction.CompactAppend | src/system_card.rs:227-244 | compaction distributes over concatenation |
| Compaction.CompactPrefixStep | src/system_card.rs:229-231 | one conditional push appends the field's value exactly when the field is present |
| Compaction.CompactPrefixPush | src/system_card.rs:229-234 | compacting one more field appends exactly that field's compaction |
| Compaction.PushPresent | src/system_card.rs:96-98 | one `if let Some(v) = field { vec.push(v) }` appends the field's value when it is present and leaves the vector as it is otherwise |
| Compaction.CompactRank | src/system_card.rs:227-244 | the value of a present field lands at the number of present fields before it |
| Compaction.CountPresentStrict | src/system_card.rs:227-244 | an earlier present field has a smaller rank than a later one |
| Dates.ParseFullDate | src/system_card.rs:297 | a date read with `%Y-%m-%d` is a real calendar date: month in 1..12 and day within that month's length, leap years included |
| Dates.ParseDate | src/system_card.rs:292-298 | a normalised date is always the first of a month with month 1..12 |
| Dates.ParseYearMonth | src/system_card.rs:292-298 | a value of 1-4 year digits, `-` and 1-2 month digits normalises to the first of that month when the month is in 1..12, and to an absent date otherwise |
| Dates.ParsedIsYearMonth | src/system_card.rs:292-298 | conversely, every value that normalises is year digits, `-`, month digits, and the date holds exactly those numbers with day 1 |
| Dates.DateExamples | src/system_card.rs:79-90 | `2023-05` becomes 1 May 2023, and `unspecified` becomes an absent date rather than an error |
| LegalBasisPattern.MatchAt | src/system_card.rs:208 | a match found at a start begins there and has its digit, name and link groups in order inside the text |
| LegalBasisPattern.Find | src/system_card.rs:208-212 | a match found from a position starts at or after it and lies inside the text |
| LegalBasisPattern.Captures | src/system_card.rs:212 | every capture of the iteration starts at or after the position it began from and lies inside the text |
| LegalBasisPattern.LinkAfterIsLongest | src/system_card.rs:208 | the link found after a name is the longest `https://` run of non-white-space that ends at a `.` or at the end of the text, and none is found only when no link matches there |
| LegalBasisPattern.LazyNameIsShortest | src/system_card.rs:208 | the name found is the shortest one after which a link matches, or there is none |
| LegalBasisPattern.DigitsForced | src/system_card.rs:208 | at a given start, every match has the same digit run: the whole run of digits |
| LegalBasisPattern.MatchAtIsPreferred | src/system_card.rs:208 | the match found at a start is the one the engine prefers (shortest name, then longest link), and none is found only when nothing matches there |
| LegalBasisPattern.FindIsLeftmostFirst | src/system_card.rs:208-212 | the search finds the preferred match at the first start that matches, and finds nothing only when no start matches |
| LegalBasisPattern.CaptureIsSearch | src/system_card.rs:212 | each capture of the iteration is the search result from where the previous capture ended |
| LegalBasisPattern.CapturesEnd | src/system_card.rs:212 | after the last capture the search finds nothing |
| LegalBasisPattern.CapturesAreLeftmostFirst | src/system_card.rs:212 | every capture is leftmost-first from where the previous match ended, and no match is left after the last capture |
| LegalBasisPattern.CapturesInOrder | src/system_card.rs:212 | consecutive captures do not overlap and come left to right |
| LegalBasisPattern.NoCapturesIffNoMatch | src/system_card.rs:212 | the iteration yields nothing if and only if the pattern matches nowhere |
| LegalBasisPattern.GroupsWellFormed | src/system_card.rs:208 | a match's name group is non-empty without line breaks, and its link group starts with `https://`, is longer than that, and has no white space |
| LegalBasisPattern.ReportedGroups | src/system_card.rs:208 | an entry `N: name, https://link` whose name has no comma, followed by `.` and white space or by the end of the text, is reported with exactly those groups |
| LegalBasisPattern.FinalPeriodKept | src/system_card.rs:208 | when such an entry ends in `.` at the very end of the text, the link group keeps that final period |
| LegalBasisPattern.TwoEntryCaptures | src/system_card.rs:208-212 | the iteration over `1: A, https://x.y. 2: B, https://z.` yields two captures, with name `A` and link `https://x.y`, then name `B` and link `https://z.` |
| Conversion.Kept | src/main.rs:36-39 | the filter keeps no more records than it is given, and each record it keeps has standard version `1.0.0` |
| Conversion.KeptMember | src/main.rs:36-39 | a record is kept if and only if it is in the input and its standard version is `1.0.0`; absent or other versions are dropped |
| Conversion.KeptInOrder | src/main.rs:36-39 | two kept records appear in the kept list in their input order |
| Conversion.KeptAppend | src/main.rs:36-39 | filtering distributes over concatenation |
| Conversion.KeptIdempotent | src/main.rs:36-39 | filtering the kept records again changes nothing |
| Conversion.RemoveDeletes | src/main.rs:53-54 | removing a character takes out every occurrence and keeps every other character |
| Conversion.NamePart | src/main.rs:47-54 | the name part is no longer than the name and has no space, `/` or `:` |
| Conversion.OrgPart | src/main.rs:55-60 | the organisation part has the organisation's length, and each character is `_` where the organisation has a space and the lowercased character otherwise |
| Conversion.FileNameOf | src/main.rs:45-61 | the file name is the name part, `_`, the organisation part, then `.yaml` |
| Conversion.FileName | src/main.rs:45-61 | a file name exists if and only if name and organisation are both present; an absent name gives the name's panic, a present name with an absent organisation the organisation's panic |
| Conversion.NamePartClean | src/main.rs:47-54 | the name part has no space, `/`, `:` or ASCII capital. Every other lowercased character of the name survives, and `_` appears where the name had a space |
| Conversion.OrgPartKeepsSlashAndColon | src/main.rs:55-60 | the organisation part has the organisation's length and no space, and keeps every `/` and `:` in place |
| Conversion.FileNameCases | src/main.rs:45-61 | a file name exists if and only if name and organisation are both present. An absent name panics first, then an absent organisation. The name is the name part, `_`, the organisation part and `.yaml`, without spaces |
| Conversion.WorkedExample | src/main.rs:45-61 | `Risk Model: A/B` of `Tax Office` is saved as `risk_model_ab_tax_office.yaml` |
| Conversion.SlashNamesCollide | src/main.rs:47-54 | the names `A/B` and `AB` of the same organisation get the same file name |
| Conversion.ConvertAlgoritmeregister | src/main.rs:28-67 | the loop over the kept records makes exactly the saves, and ends with exactly the panic, that `RunOf(Kept(records))` specifies |
| Conversion.RunStep | src/main.rs:43-63 | one iteration either stops the loop with the record's panic or saves the record's card under its file name ahead of the saves of the rest |
| Conversion.RunShape | src/main.rs:43-64 | `RunOf` makes at most one save per kept record, the k-th being the k-th record's card under its file name; every record is saved when there is no panic, and a panic comes from the record right after the saved ones |
| Conversion.RunSavesEveryRecord | src/main.rs:43-64 | when every kept record has a name and an organisation, there is one save per kept record, in kept order, of that record's card under its file name, and no panic |
| Conversion.RunStopsAtFirstPanic | src/main.rs:43-64 | the first kept record without a name or organisation stops the loop with its panic, after exactly the saves of the records before it |
| Conversion.RunPanicIff | src/main.rs:43-64 | the loop ends without a panic if and only if every kept record has a file name |
| Conversion.FirstPanic | src/main.rs:50-58 | the index found is the first kept record without a file name |
| Conversion.Directory | src/system_card.rs:132 | every saved path is a file of the directory, and every file holds the card of some save to its path |
| Conversion.DirectoryFiles | src/main.rs:62-63 | a file exists in the output directory if and only if some save wrote to its path |
| Conversion.LastSaveWins | src/system_card.rs:129-136 | a file holds the card of the last save to its path: `File::create` truncates earlier content |
| Conversion.LaterRecordOverwrites | src/main.rs:43-64 | of two kept records with the same file name, the later one's card is the one left in the directory, provided every record up to the later one has a file name and none after it shares that name; a record after it that panics does not change this |

## Left out

- CSV loading (`load_from_csv`): the records are the method's input. This is file I/O and the `csv` crate.
- YAML text and file writing in `save`. A save is modelled as a (path, card) pair, and the
  directory as the map the saves leave. `EmittedKeys` models only which top-level keys are
  written, not the YAML text.
- I/O errors of `File::create`, `write_all` and `create_dir_all`, which end the loop early
  through `?`. One case is an organisation containing `/`, which names a sub-directory that
  does not exist. Paths are relative to the output directory; `Path::join` is not modelled.
- Command-line parsing, `main`, and the unimplemented `Toetsingskader` input format.
- `ModelCard` and `AssessmentCard` are empty placeholders; a card never holds any.
- Register columns the conversion never reads are not in `Register.Record`.
- Conversion.ToLower: lowercases ASCII letters only. Rust's `to_lowercase` also maps
  non-ASCII capitals and may change the string's length; Unicode case tables are outside
  this model.
- LegalBasisPattern.IsDigit: `\d` is taken as the ASCII digits. The regex crate's Unicode `\d`
  also accepts other decimal digits.
- Dates.ParseDate: chrono's lenient parts are not modelled. These are white space skipped
  before numeric fields, a signed or wider-than-four-digit year, and years outside chrono's range.
- The card computed for a record whose file name panics is built but not saved. A build has
  no effects, so the model leaves it out.
