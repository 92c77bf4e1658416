# IlluminaData core in Dafny

This project models the pure string and record logic of `share/IlluminaData.py`, a Python 2 module for Illumina sequencing output:

- **Fastq name codec.** `IlluminaFastq` reads a CASAVA fastq file name `<sample>_<barcode|NoIndex>_L<lane>_R<read>_<set>.fastq.gz` into its fields, and `repr` prints the fields back.
- **CASAVA sample sheet.** `CasavaSampleSheet` loads the sheet, stripping quotes and dropping commented rows. It reports duplicated, empty and illegal names, repairs duplicated and illegal names, and predicts the project, sample and output-name layout CASAVA will produce.
- **Sample sheet conversion.** `get_casava_sample_sheet` tells the sectioned dialect (`[Header]` … `[Data]`) from the flat one and maps each sectioned row onto a CASAVA row.
- **Short unique names.** `get_unique_fastq_names` maps each fastq name to the shortest template rendering that keeps the whole set distinct.
- **Small extras:**
  - `IlluminaRunInfo.bases_mask`;
  - `IlluminaProject.full_name`;
  - the file list and paired-end flag of `IlluminaSample` (`add_fastq`, `fastq_subset`).

## Modules and files

| file | module | contents |
|---|---|---|
| `wrappers.dfy` | `Wrappers` | `Option` and `Result`, used in place of exceptions |
| `text.dfy` | `Text` | `strip`, `split`/`join`, `replace`, `os.path.basename` |
| `numbers.dfy` | `Numbers` | decimal digits, `"%0<w>d"` (`PadInt`), Python's `int()` on a string (`ParseInt`) |
| `seqs.dfy` | `Seqs` | distinctness and de-duplication of sequences; increasing position lists and `Pick`, which state a filter's result exactly, in order and with multiplicity |
| `ordering.dfy` | `Ordering` | Python string order and `list.sort()` |
| `fastq.dfy` | `Fastq` | the fastq name codec |
| `samplesheet.dfy` | `SampleSheet` | rows, loading, quote stripping, comment removal |
| `duplicates.dfy` | `Duplicates` | `duplicated_names`, `fix_duplicated_names` |
| `names.dfy` | `NameChecks` | `empty_names`, `illegal_names`, `fix_illegal_names` |
| `predict.dfy` | `Prediction` | `predict_output` |
| `converter.dfy` | `Converter` | `get_casava_sample_sheet` |
| `unique.dfy` | `UniqueNames` | `get_unique_fastq_names` |
| `runinfo.dfy` | `RunInfo` | `bases_mask` |
| `project.dfy` | `Projects` | `full_name` |
| `sample.dfy` | `Samples` | `add_fastq`, `fastq_subset` |

Python exceptions become the `Err` side of a `Result`.

Code the source calls but does not contain becomes a function parameter, so every property holds for any such function:
- `TabFile`'s integer conversion of the Lane column is `laneOf`.
- `bcf_utils.extract_initials` is `initials`.
- Reading the sectioned table is `table`, and splitting a flat line is `cells`.
- The name parser in `get_unique_fastq_names` and `IlluminaSample` is `parse`. `Fastq.Parse` is the parser the source uses, and `UniqueNames.DocumentedNamesAreMapped` instantiates it.

Where the documented behaviour and the code differ, the model follows the code. An example is a fastq name with exactly four fields: it parses, with an empty sample name. The code has no check that rejects it, and printing it back adds a leading `_` (`Fastq.FourFieldName`).

The two exceptions are the defects under "## Findings". For each, one member models the code as written and exhibits the defect. The corrected behaviour is what the rest of the model uses:
- `SampleSheet.LoadSpec` uses the corrected comment removal.
- `Converter.SniffSpec` uses the corrected `[Data]` search.

In the flat dialect each kept line must have the ten CASAVA cells; a line with another count is an error.

## Model

| member | source | states |
|---|---|---|
| Fastq.Parse | share/IlluminaData.py:664-684 | a name parses exactly when it has at least four `_` fields, the last is an integer, the second to last has a digit at position 1, and the third to last is an integer after its first character |
| Fastq.ParseIgnoresPath | share/IlluminaData.py:664-671 | a leading directory and everything from the first `.` on do not change the fields or the parse; either may be absent |
| Fastq.StemOfPath | share/IlluminaData.py:664-667 | the name that is split into fields is the file name without its directory, cut at the first `.`; the directory and the extension may each be absent |
| Fastq.ParseFormat | share/IlluminaData.py:648-694 | parsing the printed form of well-formed fields gives back exactly those fields |
| Fastq.FormatParse | share/IlluminaData.py:648-694 | a name in the documented form (3-digit lane and set, 1-digit read) parses, and printing the result gives the name back |
| Fastq.FourFieldName | share/IlluminaData.py:680-684 | with exactly four fields the sample name is empty and printing gives the name with a leading `_` |
| Fastq.NoIndexBarcode | share/IlluminaData.py:680-691 | on a name with at least four fields, the barcode field parses to no barcode exactly when it is `NoIndex`; any other value is kept as the barcode; printing either gives back the same field |
| Numbers.SpaceAfterSign | share/IlluminaData.py:674-678 | the numeric fields are read with `int()`, which allows whitespace between the sign and the digits: `- 1` reads as -1 |
| Numbers.TabAfterSign | share/IlluminaData.py:674-678 | `int()` skips a tab after the sign and whitespace around the number: ` +\t7 ` reads as 7 |
| Numbers.SignAloneRefused | share/IlluminaData.py:674-678 | `int()` refuses a sign without digits and two numbers separated by a space |
| Fastq.TokensOfFormat | share/IlluminaData.py:686-694 | the printed fields of a well-formed name are the pieces of the sample name followed by barcode, `L%03d`, `R%d` and `%03d` |
| SampleSheet.RowsOf | share/IlluminaData.py:474-478 | records become rows one for one, and conversion fails exactly when some record does not have ten fields |
| SampleSheet.LoadSpec | share/IlluminaData.py:474-488 | loading fails exactly on a record without ten fields; every loaded row is unquoted and no row is a comment; the loaded rows are the rows of exactly the records that are not comments after stripping, in file order and with their repeats |
| SampleSheet.DropCommentsSpec | share/IlluminaData.py:485-488 | the corrected removal keeps the rows at exactly the positions that are not comments, in order and with their repeats; so a row is present exactly when it was present before and is not a comment, and a sheet without comments is unchanged |
| SampleSheet.DropCommentsInOrder | share/IlluminaData.py:485-488 | given the increasing list of positions whose rows are not comments, the corrected removal gives the rows at those positions |
| SampleSheet.DropCommentsAsWrittenAgrees | share/IlluminaData.py:486-488 | the removal loop as written equals the corrected removal whenever no two comment rows are neighbours |
| SampleSheet.TwoCommentsAsWritten | share/IlluminaData.py:486-488 | on two neighbouring comment rows the loop as written keeps the second |
| SampleSheet.UnquoteEnds | share/IlluminaData.py:482-484 | a stripped value neither starts nor ends with a double quote |
| SampleSheet.WhereSpec | share/IlluminaData.py:533-537 | the reported row indices are increasing, in range, and exactly those of the rows that satisfy the test |
| Duplicates.DuplicatedNamesSpec | share/IlluminaData.py:507-524 | every group has more than one member and all its members share one (SampleID, SampleProject, Index, Lane) key, in row order; a group holds every row with its key, so each duplicated key gives exactly one group; a row is in a group exactly when another row shares its key; no row is in two groups |
| Duplicates.DuplicatedNamesEmpty | share/IlluminaData.py:514-524 | no groups exactly when all keys differ |
| Duplicates.FixDuplicatedNamesSpec | share/IlluminaData.py:556-565 | a row whose key another row shares gets `_<n>` appended to its SampleID, n being one more than the number of earlier rows with that key; all other rows and fields are unchanged |
| Duplicates.FixRemovesDuplicates | share/IlluminaData.py:556-565 | after the repair no key is shared, provided no SampleID already ended in `_<digits>` |
| Duplicates.NumberSuffixUnique | share/IlluminaData.py:565 | `_<digits>` can be taken off a SampleID in only one way |
| NameChecks.EmptyNamesSpec | share/IlluminaData.py:527-537 | the reported rows are, in order and once each, exactly those whose SampleID or SampleProject is all whitespace |
| NameChecks.IllegalNamesSpec | share/IlluminaData.py:540-554 | the reported rows are, in order and once each, exactly those whose SampleID or SampleProject holds one of the illegal characters of line 480 |
| NameChecks.FixIllegalNamesSpec | share/IlluminaData.py:567-576 | only the rows illegal_names reports change, and in them only SampleID and SampleProject |
| NameChecks.FixIllegalNamesClean | share/IlluminaData.py:567-576 | after the repair illegal_names reports nothing |
| NameChecks.FixNameExact | share/IlluminaData.py:574-576 | the rounds of strip, replace and strip amount to replacing every illegal character by `_` and stripping `_` from both ends, for a value without line breaks |
| NameChecks.FixNameSpace | share/IlluminaData.py:1533-1541 | `886 1` is repaired to `886_1` |
| NameChecks.FixNameQuestionMark | share/IlluminaData.py:1534-1542 | `AR?` is repaired to `AR` |
| Prediction.PredictOutputAt | share/IlluminaData.py:597-615 | a project directory is predicted exactly when some row names it, and a sample directory under it exactly when some row names both; the sample directory lists the output names of exactly those rows, in row order |
| Prediction.PredictOutputSpec | share/IlluminaData.py:578-615 | the same for every project and sample directory at once |
| Prediction.DirsDistinguish | share/IlluminaData.py:599-600 | two rows share a project (sample) directory exactly when they share the SampleProject (SampleID) |
| Prediction.OutputNameStartsFastqName | share/IlluminaData.py:607-613 | a predicted output name followed by `_R<read>_<set>` is the fastq name CASAVA prints for that row |
| Converter.SniffSpec | share/IlluminaData.py:773-791 | a first line starting with `[Header]` gives the sectioned dialect when a `[Data]` line exists and an error otherwise; otherwise a first line holding a comma gives the flat dialect; otherwise the format is not recognised |
| Converter.SectionedData | share/IlluminaData.py:776-782 | the sectioned table is everything after the first `[Data]` line |
| Converter.FlatData | share/IlluminaData.py:783-788 | the flat header is the first line split at commas, which joins back to the line, and the data is every later line |
| Converter.HeaderOnlyNeverFindsData | share/IlluminaData.py:778-779 | on the file holding only `[Header]`, the skip loop as written reads a line that does not start with `[Data]` at every step |
| Converter.MapRowRoundTrip | share/IlluminaData.py:804-833 | a sectioned row converts exactly when Sample_ID, Description and Sample_Project are present, and otherwise the error names a missing one; reading the converted row back gives the source Sample_ID and Description, the source Sample_Project or the initials of Sample_ID when it is empty, and the index columns whenever no half holds `-`; FCID is the one supplied, Lane the converted lane or 1, and the other fields are empty |
| Converter.MapRowReadsUsedColumns | share/IlluminaData.py:804-833 | a converted row depends only on the columns the conversion reads |
| Converter.IndexOfReadsBack | share/IlluminaData.py:811-820 | in all three cases (both indexes, `index` only, none) the Index field reads back as the index columns it was made from, provided no half holds `-`, `index2` comes only with `index`, and a lone `index` is not empty; it is empty exactly when there is no `index`, or a lone empty one |
| Converter.ConvertSectionedOk | share/IlluminaData.py:804-833 | the sectioned conversion succeeds exactly when every row has the required columns |
| Converter.ConvertSectionedRows | share/IlluminaData.py:796-833 | a successful sectioned conversion yields, in order, one CASAVA row per source row with its quotes stripped |
| Converter.ConvertFlatOk | share/IlluminaData.py:834-840 | the flat conversion succeeds exactly when every kept line has ten cells |
| Converter.ConvertFlatRows | share/IlluminaData.py:834-840 | a successful flat conversion yields one row per kept line, in order |
| Converter.KeptSpec | share/IlluminaData.py:834-840 | kept flat lines are quote-stripped and are neither commented nor blank; conversely every line that is neither is kept, so the kept lines are the stripped lines at exactly the positions not skipped, in file order |
| Converter.KeptInOrder | share/IlluminaData.py:837-840 | given the increasing list of positions not skipped, the kept lines are the stripped lines at those positions |
| Converter.ConvertFlatNoComments | share/IlluminaData.py:834-840 | no row of a flat conversion is a comment |
| Converter.SectionedSheet | share/IlluminaData.py:801-833 | a sectioned file converts exactly when its table has the required columns, with one row per table row, each carrying the supplied FCID |
| Converter.SingleIndexExample | share/IlluminaData.py:1662-1703 | the first row of the single-index example sheet, which has no Lane column, becomes lane 1 with Index `ATCACG` and its own project `PB` |
| Converter.DualIndexExample | share/IlluminaData.py:1674-1720 | the first row of the dual-index example sheet becomes lane 1 with Index `TAAGGCGA-TAGATCGC`, and its empty project is filled with the initials of `PB1` |
| UniqueNames.ParseAllSpec | share/IlluminaData.py:889-894 | all names are parsed up front; this fails exactly when some name does not parse, and otherwise gives one parsed name per input |
| UniqueNames.ParseAllFirstError | share/IlluminaData.py:889-890 | the first name that does not parse decides the error |
| UniqueNames.ChooseSpec | share/IlluminaData.py:898-927 | the chosen template separates the renderings, and every earlier template does not; no template is chosen only when none separates them |
| UniqueNames.UniqueFastqNamesSpec | share/IlluminaData.py:864-929 | the mapping has exactly the input names as keys; its values are pairwise distinct and end in `.fastq.gz` |
| UniqueNames.UniqueFastqNamesRender | share/IlluminaData.py:898-927 | every input maps to its rendering under one template from the fixed list |
| UniqueNames.UniqueFastqNamesErr | share/IlluminaData.py:889-929 | the result is a mapping exactly when every name parses and some template separates them, and a parse error exactly when a name does not parse |
| UniqueNames.ChosenTemplateIsFirst | share/IlluminaData.py:898-927 | every template before the chosen one fails to separate the names |
| UniqueNames.DocumentedNamesAreMapped | share/IlluminaData.py:864-929 | distinct names in the documented form always get a mapping |
| UniqueNames.PairedAddsRead | share/IlluminaData.py:917-918 | on a paired set a non-FULL rendering is the unpaired one followed by `_R<read>` |
| UniqueNames.NoBarcodeNoTag | share/IlluminaData.py:911-913 | without a barcode the TAG part is left out |
| UniqueNames.NameTagLaneIsFormatPrefix | share/IlluminaData.py:905-919 | with a barcode the FULL rendering is the NAME TAG LANE rendering followed by the set number |
| UniqueNames.TryTemplate | share/IlluminaData.py:899-927 | the loop counts the distinct renderings and maps each input to its rendering unless an earlier input already took it |
| UniqueNames.GetUniqueFastqNames | share/IlluminaData.py:864-929 | the imperative version of the whole algorithm returns what the functional one does |
| UniqueNames.SingleFastq | share/IlluminaData.py:1801-1808 | a single file maps to its sample name and `.fastq.gz` |
| UniqueNames.TwoLanesMapping | share/IlluminaData.py:1834-1850 | R1 and R2 from lanes 1 and 2 of one sample map to `<sample>_L00x_R{1,2}.fastq.gz` |
| RunInfo.BasesMaskSpec | share/IlluminaData.py:145-162 | the mask exists exactly when every read has an integer cycle count and flag `N` or `Y`; it then splits at `,` into one entry per read, in order, each reading back as the read's kind and cycle count |
| RunInfo.BasesMaskFirstError | share/IlluminaData.py:153-161 | the first read with a bad cycle count or flag decides the error |
| RunInfo.ReadMaskReadsBack | share/IlluminaData.py:154-158 | an entry is `y<cycles>` for a data read and `I<cycles>` for an index read and reads back as that read |
| Projects.FullNameSpec | share/IlluminaData.py:317-320 | the full name is the name, followed by `_` and the experiment type when one is set |
| Projects.FullNameInjective | share/IlluminaData.py:317-320 | for one project, different experiment types give different full names |
| Ordering.SortSpec | share/IlluminaData.py:375 | sorting gives a sorted permutation of the list |
| Ordering.SortedUnique | share/IlluminaData.py:408 | two sorted lists with the same elements are equal |
| Samples.AddFastqSpec | share/IlluminaData.py:367-380 | the list stays sorted and gains exactly the new name; the sample becomes paired exactly when it was or the name is a read-2 name; it raises exactly when it is not yet paired and the name does not parse |
| Samples.PairedStays | share/IlluminaData.py:360-380 | adding any names to a paired sample, even ones that do not parse, raises nothing; the sample stays paired and its list holds the old and the new names, sorted once something was added |
| Samples.AddFastqCommutes | share/IlluminaData.py:367-380 | two names that parse can be added in either order with the same result |
| Samples.AddAllSpec | share/IlluminaData.py:360-362 | adding names that all parse raises nothing and leaves a sorted list of the old and the new names |
| Samples.AddAllPaired | share/IlluminaData.py:360-380 | adding names that all parse makes the sample paired exactly when it was or some new name is a read-2 name |
| Samples.AddAllFromEmpty | share/IlluminaData.py:352-380 | names added to an empty sample end up as the sorted names, whatever their order, and the sample is paired exactly when one is a read-2 name |
| Samples.SelectedSpec | share/IlluminaData.py:396-405 | selection fails exactly when some name does not parse; otherwise it keeps exactly the names with the read number asked for, in list order and as often as the list holds them |
| Samples.SelectedInOrder | share/IlluminaData.py:396-405 | given the increasing list of positions whose names have the read number asked for, the selection is the names at those positions |
| Samples.WantedPositions | share/IlluminaData.py:396-402 | every file list has such an increasing list of wanted positions |
| Samples.FastqSubsetSpec | share/IlluminaData.py:382-409 | fastq_subset raises exactly when a name does not parse; otherwise it returns, sorted, exactly the names (with the directory when asked) of the files with the read number asked for, each as often as the list holds it |
| Samples.NoReadNumber | share/IlluminaData.py:382-409 | the default read number selects nothing |
| Samples.ReadSubsetsSplit | share/IlluminaData.py:382-409 | when every read number is 1 or 2, every name shows up in the read-1 or the read-2 subset |

## Left out

- File and stream I/O: `open`, `readline`, `close` and `os.listdir`. Files are sequences of lines or records.
- XML parsing of RunInfo.xml: `bases_mask` takes the list of read records.
- The TabFile class: CSV splitting and the integer conversion of Lane are function parameters.
- `write` and `__repr__` of the sheet, and `prettyPrintSamples`: they only format output.
- `bcf_utils.extract_initials`: it is the parameter `initials`, with no properties assumed.
- The directory-scanning constructors of `IlluminaRun`, `IlluminaData`, `IlluminaProject` and `IlluminaSample`, and `bcl_extension`. The adding loop of the `IlluminaSample` constructor is `Samples.AddAll`.
- `convert_miseq_samplesheet_to_casava`: it only calls `get_casava_sample_sheet` with another default FCID.
- Logging.
- The test fixtures `MockIlluminaData` and the unittest classes, other than the examples cited in the table.
- Duplicates.DuplicatedNamesSpec: the order of the groups comes from Python dict iteration, so the model fixes one order (first occurrence) and no property depends on it.
- UniqueNames.UniqueFastqNamesSpec: the dict the source returns is a Dafny map; its iteration order is not modelled.
- Samples.AddFastqSpec: when a name does not parse, the source has already changed the list before it raises; the model returns the changed sample with the error, and says nothing about callers that catch it.
- Converter.GetCasavaSampleSheet: sectioned rows are column-to-value maps handed over by `table`; the TabFile behaviour on short or long lines is not modelled.
- Fastq.Parse: file names are Dafny strings of code points, while a Python 2 `str` is a string of bytes. The positions `[1]` and `[1:]` and the whitespace `int()` skips agree with the source only on ASCII names.
- RunInfo.BasesMaskSpec: only ASCII cycle counts are modelled. The attribute values come from an XML parser as Python 2 unicode strings, and `int()` on those also accepts non-ASCII decimal digits and Unicode whitespace, so `NumCycles` of Arabic-Indic `68` gives `y68` in the source but an error here.
- RunInfo.BasesMaskFirstError: counts a cycle count with non-ASCII digits or Unicode whitespace as bad, which the source accepts; see the RunInfo.BasesMaskSpec line.
- RunInfo.ReadMaskReadsBack: its valid-exactly-when clause has the same ASCII restriction as RunInfo.BasesMaskSpec.
- SampleSheet.RowsOf: the failure on a record without ten fields is an assumption about TabFile, which is not part of this model; SampleSheet.LoadSpec inherits it.
- SampleSheet.LoadSpec: it states the corrected comment removal, not the loop as written, which can keep a comment row (see "## Findings").
- Converter.SniffSpec: a sectioned file without a `[Data]` line is an error here, where the source loops forever (see "## Findings").
- The dead check `fq.read_number is None` in `fastq_subset`: a name that parses always has a read number, and one that does not raises first.

## Findings

| source | as written | input that shows it | evidently intended | confidence | as-written member | corrected member |
|---|---|---|---|---|---|---|
| share/IlluminaData.py:486-488 | comment rows are deleted while the list is being enumerated, so the row that moves into a deleted row's place is never looked at | a sheet with two neighbouring rows whose FCID starts with `#`: the second one stays | every row starting with `#` after quote stripping is removed | not executed | SampleSheet.TwoCommentsAsWritten | SampleSheet.LoadSpec |
| share/IlluminaData.py:778-779 | the loop re-reads until a line starts with `[Data]`, and `readline` returns `""` at end of file | a file whose only line is `[Header]`: the loop never ends | report that the sheet has no data section | not executed | Converter.HeaderOnlyNeverFindsData | Converter.SniffSpec |
