# cellranger samplesheet validator and multi-config renderer

A Dafny model of the two helper scripts of the cellranger pipeline that sit
between the user's samplesheet and `cellranger multi`:

- **Samplesheet validator** (`bin/check_samplesheet_multi.py`,
  module `Samplesheet`). The sheet is given as its lines, header first, as
  the file iterator yields them (a row line may still carry its line
  terminator; the validator strips it). The header's first four fields must
  be `gem,fastq_id,fastqs,feature_types`. Every row is split on commas and
  its fields stripped. The row then needs at least four fields and at least
  four populated ones. Its first four fields must be non-empty, and its
  feature type must be one of `gex`, `fb`, `vdj-b`, `vdj-t`. Its `fastq_id`
  must not repeat an earlier row's. The first failing row stops the run with
  its reason and raw line (`Outcome.Err`). Otherwise the output is the two
  summary lines: the four feature types, then their 0/1 presence vector.
  The dictionary the validator builds is returned beside the verdict, so
  that its final contents can be stated. `CheckRows` is the row loop;
  `CheckSamplesheet` adds the header check in front of it. The error report
  (`print_error`) is the function `PrintError`; `Message` builds the text
  reported for each rejection.
- **Multi-config renderer** (`bin/generate_multi_config.py`, module
  `MultiConfig`). It takes three list arguments written as list text
  (`[a, b, c]`): samples, feature-type codes and sample directories. A
  list is read by stripping every `[`, then every `]`, from both ends, then
  removing all spaces and splitting on commas. In a sample name, `|` stands
  for a comma. The config file is the sequence of lines written, each with
  a trailing newline. It starts with an eight-line preamble naming the
  three references under the working directory, which is a parameter. Then
  comes one library line per position, up to the shortest list: the sample
  (double-quoted when it holds a comma), its directory, and the label of
  its code. An unknown code makes the dictionary lookup fail. The run then
  stops with the lines written so far, and the code is reported as
  `Rendered.fault`.
- **Text** holds the Python string operations both scripts use:
  - `strip()` and `strip(c)`, through a character class.
  - `split` and `join` on one character.
  - `replace` of one character by another.
  - removal of all spaces.
  **Wrappers** holds `Option`.

Some behaviours of the code worth knowing, all captured by the model:

- Header fields are stripped of double quotes only, after the whole line
  has been whitespace-stripped (`check_samplesheet_multi.py:57`). Spaces at
  the very start or end of the header line are removed by that line strip,
  but a space next to a comma inside the first four header fields stays in
  the field, and that field then fails the header check.
- `strip('[')` removes every leading and trailing `[`, and `strip(']')`
  every leading and trailing `]` (`generate_multi_config.py:19,24,27`).
- The header error reads `ERROR: Please check samplesheet header -> … != …`.
  It is not produced through `print_error` (`check_samplesheet_multi.py:59`).
- On an unknown feature-type code the file already holds the preamble and
  the earlier library lines (`generate_multi_config.py:47-60`).
- An empty list text `[]` reads as one empty item, not as no items. When
  the feature-type list is empty, `zip` still yields one triple, and the
  empty code is not in the table. Such a run therefore always faults before
  writing any library line (`MultiConfig.EmptyTypeListFaults`).
- The validator's docstring lists rows labelled `gene expression` and
  `antibody capture`. Line 91 rejects those labels. Only the four codes pass.
- The validator accepts `vdj-b` and `vdj-t`, but the renderer's table
  spells these codes `vdj_b` and `vdj_t`. A hyphenated code reaching the
  renderer is a fault (`MultiConfig.ValidatorTypesKnown`).

## Model

| member | source | states |
|---|---|---|
| Samplesheet.CheckSamplesheet | bin/check_samplesheet_multi.py:53-119 | Rejected for the header exactly when the header's first four fields are not `gem,fastq_id,fastqs,feature_types`; this rejection carries the parsed header and the first line. With an accepted header, the verdict on the remaining lines is `RowsVerdict`. |
| Samplesheet.CheckRows | bin/check_samplesheet_multi.py:62-119 | Accepted iff no row is bad, meaning it fails its own checks or repeats an earlier `fastq_id`. A rejection names the first bad row's reason and its raw line. An acceptance outputs `gex,fb,vdj-b,vdj-t` and the presence vector over all rows. The dictionary then maps each row's `fastq_id` to that row's `[gem, fastqs, feature_types]` alone. |
| Samplesheet.Summary | bin/check_samplesheet_multi.py:107-119 | The two output lines are the four feature types in fixed order and, in the same order, "1" or "0" as each type occurs or not among the collected types. |
| Samplesheet.ScanAccept | bin/check_samplesheet_multi.py:95-100 | A good row with a new `fastq_id` keeps the loop invariant. The prefix stays free of bad rows. The mapping gains exactly that row's entry. The type list gains its type. |
| Samplesheet.ScanDuplicate | bin/check_samplesheet_multi.py:99-105 | A good row whose `fastq_id` is already mapped is the first bad row. It is "duplicate rows" iff an earlier row with that id has the same `[gem, fastqs, feature_types]`, else "duplicate fastq_id entries". |
| Samplesheet.ScanDone | bin/check_samplesheet_multi.py:99-100 | After the last row, the mapping's keys are exactly the rows' ids, one per row. |
| Samplesheet.ScanPresence | bin/check_samplesheet_multi.py:107-115 | The presence vector of the collected type list equals the one defined over the rows. |
| Samplesheet.IdsUpToMember | bin/check_samplesheet_multi.py:99 | An id is among the ids of the first n rows iff one of those rows carries it. |
| Samplesheet.AcceptedRowsDistinct | bin/check_samplesheet_multi.py:95-105 | In an accepted sheet, `fastq_id`s are pairwise distinct and every row passes its own checks. |
| Samplesheet.PresenceOrderFree | bin/check_samplesheet_multi.py:107-115 | Reordering the rows does not change the presence vector, because the types go through a set. |
| Samplesheet.RowAcceptedIff | bin/check_samplesheet_multi.py:64-92 | A row passes its own checks iff it has at least four fields, the first three non-empty and the fourth one of the four feature types. This holds in both directions, and the populated-count check is then implied. |
| Samplesheet.MissingEntryNeedsExtraFields | bin/check_samplesheet_multi.py:73-90 | An "entry has not been specified" error only occurs for rows of more than four fields. |
| Samplesheet.ExtraFieldCountsAsPopulated | bin/check_samplesheet_multi.py:73-86 | A populated fifth field turns the "populated columns" error of `g1,,/p,gex` into a missing `fastq_id` error. |
| Samplesheet.NumPopulatedCounts | bin/check_samplesheet_multi.py:73 | The populated count is the number of positions holding a non-empty field, over all fields of the row. |
| Samplesheet.TooFewPopulatedIff | bin/check_samplesheet_multi.py:67-79 | A row is rejected for too few populated columns iff it has at least four fields but fewer than four non-empty ones among all its fields, extra fields included. |
| Samplesheet.CommaFreeRowRejected | bin/check_samplesheet_multi.py:64-72 | A line without a comma, a blank line included, is rejected for too few columns. |
| Samplesheet.NumPopulatedAtLeast | bin/check_samplesheet_multi.py:73 | A row whose first k fields are populated counts at least k populated fields. |
| Samplesheet.NumPopulatedGap | bin/check_samplesheet_multi.py:73 | A row with an empty field counts fewer populated fields than it has fields. |
| Samplesheet.HeaderOkIff | bin/check_samplesheet_multi.py:58 | The slice comparison accepts a header iff it has at least four fields and those four are the required columns. |
| Samplesheet.CleanHeaderAcceptedIff | bin/check_samplesheet_multi.py:56-58 | A header line written from clean fields is accepted iff it starts with the four required columns, in order. |
| Samplesheet.HeaderFieldsJoin | bin/check_samplesheet_multi.py:57 | Clean fields joined with commas parse back to themselves as a header. |
| Samplesheet.RowFieldsJoin | bin/check_samplesheet_multi.py:64 | Clean fields joined with commas parse back to themselves as a row. |
| Samplesheet.CleanJoinSplits | bin/check_samplesheet_multi.py:57-64 | Clean fields survive the line strip, the comma split and the per-field strips unchanged. |
| Samplesheet.PrintErrorLines | bin/check_samplesheet_multi.py:28-35 | For a one-line message and a non-empty context, the report is the `ERROR: Please check samplesheet -> ` line followed by `Line: '<stripped line>'`. With an empty context it is the first line alone. |
| Samplesheet.FeatureTypesLine | bin/check_samplesheet_multi.py:108-118 | The summary's first line is `gex,fb,vdj-b,vdj-t`. |
| MultiConfig.GenerateMultiConfig | bin/generate_multi_config.py:17-60 | The file starts with the eight preamble lines, references resolved under the working directory. After them come the library lines of the parsed lists, per `LibrariesWritten`, through the label table: one line per position up to the shortest list, stopping at the first unknown code, which is the fault. |
| MultiConfig.WriteLibraries | bin/generate_multi_config.py:56-60 | Each written line is the quoted-if-needed sample, the directory and the label of a known code. There is no fault iff every position up to the shortest list is written. A fault is the code at the first unwritten position, absent from the table. |
| MultiConfig.FaultIffUnknownCode | bin/generate_multi_config.py:56-60 | The run ends without a fault iff every code up to the shortest list is in the table. |
| MultiConfig.LibrariesWrittenUnique | bin/generate_multi_config.py:56-60 | The library lines and the fault are determined by the three lists and the table. |
| MultiConfig.LibraryLineFields | bin/generate_multi_config.py:57-60 | Split on commas, a library line ends with the directory and the label, and its leading fields rejoin to the (quoted) sample. A comma-free sample gives exactly three fields. |
| MultiConfig.ParseListRoundTrip | bin/generate_multi_config.py:24-28 | A non-empty list printed as `[a, b, c]`, with no brackets, commas or spaces in its items, parses back to itself. |
| MultiConfig.EmptyListText | bin/generate_multi_config.py:24-25 | The list text `[]` parses to one empty item. |
| MultiConfig.EmptyCodeUnknown | bin/generate_multi_config.py:36-38 | The empty code is not in the label table. |
| MultiConfig.EmptyTypeListFaults | bin/generate_multi_config.py:24-60 | With the feature-type list `[]`, no library line is written and the fault is the empty code, whatever the samples and directories. |
| MultiConfig.UnbracketListText | bin/generate_multi_config.py:19 | Stripping `[` then `]` from printed list text leaves the items and their separators. |
| MultiConfig.JoinSpacedNoSpaces | bin/generate_multi_config.py:19 | Removing spaces from a ", "-separated list of space-free items gives the comma-joined items. |
| MultiConfig.ParseListItems | bin/generate_multi_config.py:19-28 | No parsed item holds a space or a comma. |
| MultiConfig.ParseSamplesPipes | bin/generate_multi_config.py:21-23 | A sample name holds a comma iff its item held a `\|`. Turning commas back into `\|` restores the item. |
| MultiConfig.ZipMapLookup | bin/generate_multi_config.py:38 | With distinct keys, `dict(zip(keys, vals))` binds each key to the value beside it. |
| MultiConfig.LabelTableEntries | bin/generate_multi_config.py:36-38 | The table is exactly gex→gene expression, fb→antibody capture, vdj_b→vdj-b, vdj_t→vdj-t, and the hyphenated spellings are not keys. |
| MultiConfig.ValidatorTypesKnown | bin/generate_multi_config.py:36-38 | Of the validator's four feature types, exactly `gex` and `fb` are renderer codes. |
| MultiConfig.Min3 | bin/generate_multi_config.py:56 | `zip` walks as far as the shortest list: the bound is at most each length and equal to one of them. |
| Text.SplitJoin | bin/generate_multi_config.py:21 | Splitting a join of separator-free parts gives the parts back. |
| Text.SplitShape | bin/check_samplesheet_multi.py:64 | The pieces of a split rejoin to the text, and none holds the separator. |
| Text.SplitPieceChars | bin/generate_multi_config.py:21 | Every character of a piece is a character of the split text. |
| Text.StripByInfix | bin/check_samplesheet_multi.py:64 | A stripped text is a contiguous slice of the original, with only stripped characters removed around it. |
| Text.StripByEnds | bin/check_samplesheet_multi.py:64 | A non-empty stripped text neither starts nor ends with a stripped character. |
| Text.StripByEnclosed | bin/generate_multi_config.py:19 | Stripping removes exactly the strippable prefix and suffix around a text whose ends are not strippable. |
| Text.ReplaceCharBack | bin/generate_multi_config.py:23 | Replacing `a` by a `b` the text does not hold, and then `b` back by `a`, gives the text back. |
| Text.RemoveChar | bin/generate_multi_config.py:19 | The result holds no removed character, keeps every other one, and is shorter by their count. |

## Left out

- Argument parsing, the output directory creation (`make_dir`), `main`, and opening and closing files are not modelled. The validator's input is the list of lines; its output file is the `Ok` lines.
- The debug prints in the renderer are not modelled. Neither are the process exit codes: a rejection is `Outcome.Err`, and a fault is `Rendered.fault`.
- `os.getcwd()` is the `cwd` parameter of `MultiConfig.GenerateMultiConfig`.
- Missing renderer arguments are not modelled; every argument is a string. A missing list argument is `None` and faults on `.strip` (`generate_multi_config.py:19,24,27`). A missing reference name is written as the text `None` (lines 49-53). A missing output name faults in `open` (line 47).
- Python's `str.isspace` is written out as its list of characters (`Text.IsSpace`). It is fixed to one Unicode version.
- `Samplesheet.Message`: the exact wording of the printed reports is given, but the only property proved about it is the two-line shape, through `PrintErrorLines`. Distinctness of the reason texts is not stated.
- Samplesheet.PrintErrorLines: stated for the context label `Line` that every call in the validator passes, not for an arbitrary label.
- Samplesheet.CheckSamplesheet: the row verdict is stated only when the header is accepted, because nothing is read after a header rejection.
- Concrete end-to-end examples over literal file contents are not stated as lemmas. The properties are proved for all inputs instead (`CleanHeaderAcceptedIff`, `RowFieldsJoin`, `RowAcceptedIff`, `ParseListRoundTrip`).
