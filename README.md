# Dataset preparation and taxonomy helpers, modelled in Dafny

This project models two pieces of hand-written logic from the DNA-modelling repository.

`scripts/prepare_local_dataset.py` turns FASTA/FASTQ files into shuffled test/train splits. Its `main`:
- checks the options;
- sorts the data files into FASTA and FASTQ lists by name;
- creates `output/<i>/test` and `output/<i>/train` for every split `i` (only `output` when there is no test split);
- for each file, reads the entries and optionally cleans FASTA sequences down to the base alphabet;
- once per split, shuffles the entries in place and writes the test prefix `entries[:split_index]` and the train suffix `entries[split_index:]` as FASTA/FASTQ files, DBs, or both;
- at the end, compresses the FASTA/FASTQ files it wrote.

`scripts/taxonomy/_common.py` holds the helpers the taxonomy scripts share:
- the `--distribution` choices;
- `make_output_path`;
- `find_fastas_to_process`, which keeps the FASTA files whose `.tax.tsv` result does not exist yet;
- `read_fasta`, a two-lines-per-record reader;
- `write_tax_tsv`, a one-line-per-entry writer.

Modules:
- `Optional`: the Option type.
- `PyText`: the Python string operations the scripts rely on. This covers `isspace`, `endswith`, `rstrip(chars)`, `strip()` and `split(maxsplit=1)[0]`. It also covers the successive results of `readline()`, as `Lines`.
- `FsPaths`: paths as sequences of components, with `name`, `parent`, the directories `mkdir(parents=True)` creates, and `str(i)`.
- `DatasetRules`: the rules of `prepare_local_dataset.py` as functions:
  - option checks, file sorting, output file name, cleaning;
  - `split_index`, Python slicing;
  - the outputs of a split, a file and a run;
  - the directories created.
- `PrepareLocalDataset`: the script's stateful steps, as methods proved against `DatasetRules`. A `Disk` object holds:
  - the existing directories;
  - the input files with the entries their readers yield;
  - the log of outputs written;
  - the log of files compressed.

  Shuffling and cleaning work in place on an `array`. `rng.shuffle` is a Fisher-Yates pass whose swap partner is an arbitrary choice, so every permutation is possible.
- `TaxonomyCommon`: `_common.py`:
  - a `DirTree` object for `make_output_path`;
  - set comprehensions for the pending-file filter;
  - a `TextFile` object with a read position for `readline`;
  - `ReadFasta` and `WriteTaxTsv` as loops proved against the pure definitions `ParseFasta` and `TsvText`.

Python's semantics are modelled as written:
- **`rstrip('.gz')`** strips a character *set*. `OutputFilenameOfAccepted` proves this still removes exactly one `.gz` from every accepted name.
- **`int(len * test_split)`** truncates toward zero.
- **A negative `test_split`** passes every check. Python's negative slice indices then make the train output keep only the last `-split_index` entries (`NegativeSplitKeepsTail`).
- **pathlib's `with_suffix`** treats the name `.fasta` as having no suffix, so that name's counterpart is `.fasta.tax.tsv`.
  - `CounterpartInjective` proves that no two FASTA names with a non-empty stem share a result file.
  - `CounterpartCollision` exhibits the two names that do share one.
- **Failures:** when `main` returns 1, the model returns an `Option<Failure>` instead. The `IndexError` raised on a header without a token is the `failed` flag of `Reading`.

## Model

| member | source | states |
|---|---|---|
| PyText.RStrip | scripts/prepare_local_dataset.py:121 | `rstrip(chars)` keeps a prefix of the string whose last character is not in the set, and every character removed is in the set |
| PyText.EndsWith | scripts/prepare_local_dataset.py:177-179 | `str.endswith(suffix)`: the suffix is the last characters of the string; also the `.tax.tsv` and `.fasta` tests at scripts/taxonomy/_common.py:27-28; `NamesExclusive`, `OutputFilenameOfAccepted`, `CounterpartIsTaxTsv` and `PendingNames` use it |
| PyText.LStripLeading | scripts/taxonomy/_common.py:36 | `LStrip` (`lstrip()`) keeps a suffix that does not start with whitespace (`IsSpace`, Python's `isspace` set), and everything it removes is whitespace |
| PyText.RStripTrailing | scripts/taxonomy/_common.py:36 | `RStripSpace` (`rstrip()`) keeps a prefix that does not end with whitespace (`IsSpace`), and everything it removes is whitespace |
| PyText.StripIsSlice | scripts/taxonomy/_common.py:36 | the stripped sequence line starts and ends with non-whitespace and is a slice of the line with only whitespace around it |
| PyText.Strip | scripts/taxonomy/_common.py:36 | `strip()` as `rstrip()` after `lstrip()`; what it keeps is stated by `StripIsSlice` |
| PyText.TokenIsWord | scripts/taxonomy/_common.py:35 | `Token` is the whitespace-free prefix of the text, followed by whitespace or the end |
| PyText.FirstTokenIsFirstWord | scripts/taxonomy/_common.py:35 | `split(maxsplit=1)[0]` fails exactly when the text is all whitespace; otherwise it is the first whitespace-delimited word: non-empty, without whitespace, preceded only by whitespace |
| PyText.FirstToken | scripts/taxonomy/_common.py:35 | `split(maxsplit=1)[0]`, `None` where indexing the empty list raises; stated by `FirstTokenIsFirstWord` |
| PyText.LineLength | scripts/taxonomy/_common.py:33 | `readline()` returns up to and including the first newline, or the rest of the file, and is empty only at end of file |
| PyText.Lines | scripts/taxonomy/_common.py:33-37 | no line `readline()` returns before end of file is empty |
| PyText.LinesConcat | scripts/taxonomy/_common.py:33-37 | the lines read, joined, are the file content |
| PyText.LinesAreLines | scripts/taxonomy/_common.py:33-37 | each line read holds a newline only at its end, and every line but the last ends with one |
| PyText.LinesOfLine | scripts/taxonomy/_common.py:44 | a newline-terminated line followed by more text is read back as that line, then the lines of the rest |
| FsPaths.Parent | scripts/prepare_local_dataset.py:158 | the parent of a non-empty path joined with its name is the path |
| FsPaths.Ancestors | scripts/prepare_local_dataset.py:193-194 | `mkdir(parents=True, exist_ok=True)` leaves the path and every one of its prefixes existing, and nothing else |
| FsPaths.Decimal | scripts/prepare_local_dataset.py:124 | `str(i)` of a split number is a non-empty string of digits |
| DatasetRules.CheckOptions | scripts/prepare_local_dataset.py:157-168 | the options pass exactly when the output parent exists, there are not several splits with a zero test split, and an output type is selected; a failure is always one of the three option failures, and each is reported exactly when its check is the first to fail, in the order parent, splits, output type |
| DatasetRules.IsFastaName | scripts/prepare_local_dataset.py:177 | `name.endswith(".fasta") or name.endswith(".fasta.gz")`; `ClassifyLists` sends exactly these names to the FASTA list |
| DatasetRules.IsFastqName | scripts/prepare_local_dataset.py:179 | `name.endswith(".fastq") or name.endswith(".fastq.gz")`; `NamesExclusive` shows no FASTA name is one |
| DatasetRules.Filter | scripts/prepare_local_dataset.py:171-180 | a file is kept exactly when it is in the list and satisfies the test, and no more are kept than there are files |
| DatasetRules.Classify | scripts/prepare_local_dataset.py:171-183 | on success, the two lists together hold as many files as there are data files |
| DatasetRules.Validate | scripts/prepare_local_dataset.py:157-183 | the outcome of `main`'s checks: the first failing option check (`CheckOptions`), else the first bad data file (`ClassifyFirstBad`); `Disk.Run` returns it |
| DatasetRules.ClassifyAccepts | scripts/prepare_local_dataset.py:173-183 | sorting succeeds exactly when every data file exists and ends in `.fasta`, `.fasta.gz`, `.fastq` or `.fastq.gz` |
| DatasetRules.ClassifyLists | scripts/prepare_local_dataset.py:177-180 | FASTA names go to the FASTA list and the other accepted names to the FASTQ list, each in input order |
| DatasetRules.ClassifySortedExist | scripts/prepare_local_dataset.py:174-180 | every file sorted into a list exists |
| DatasetRules.ClassifyFirstBad | scripts/prepare_local_dataset.py:173-183 | a rejection reports the first bad file: as missing if it does not exist, else as of unknown type |
| DatasetRules.NamesExclusive | scripts/prepare_local_dataset.py:177-179 | no name is both a FASTA and a FASTQ name |
| DatasetRules.OutputFilenameOfAccepted | scripts/prepare_local_dataset.py:121 | for every accepted name, `rstrip('.gz')` removes exactly one trailing `.gz` (if any) and keeps the `.fasta`/`.fastq` ending |
| DatasetRules.OutputFilename | scripts/prepare_local_dataset.py:121 | `name.rstrip('.gz')`, a character-set strip; `OutputFilenameOfAccepted` and `OutputFilenameStripsCharacters` state what it does |
| DatasetRules.StripsGz | scripts/prepare_local_dataset.py:121 | a name ending in `.fasta.gz` or `.fastq.gz` loses exactly its `.gz` and still ends in `.fasta`/`.fastq` |
| DatasetRules.KeepsPlain | scripts/prepare_local_dataset.py:121 | a name ending in `.fasta` or `.fastq` does not end in `.gz` and is kept whole |
| DatasetRules.OutputFilenameStripsCharacters | scripts/prepare_local_dataset.py:142 | `rstrip('.gz')` is not suffix removal: `log.gz` becomes `lo` |
| DatasetRules.Clean | scripts/prepare_local_dataset.py:119 | the cleaned sequence is no longer than the original and holds base characters only |
| DatasetRules.CleanAll | scripts/prepare_local_dataset.py:117-119 | the cleaning loop over all entries, one cleaned entry per entry; `CleanAllIdempotent` states it and `CleanEntries` computes it in place |
| DatasetRules.CleanKeepsEveryBase | scripts/prepare_local_dataset.py:119 | each base character survives cleaning exactly as often as it occurs |
| DatasetRules.CleanAppend | scripts/prepare_local_dataset.py:119 | cleaning works character by character, so it keeps the order of what it keeps |
| DatasetRules.CleanKeepsBases | scripts/prepare_local_dataset.py:119 | a sequence made only of bases is left unchanged |
| DatasetRules.CleanIdempotent | scripts/prepare_local_dataset.py:119 | cleaning twice equals cleaning once |
| DatasetRules.CleanAllIdempotent | scripts/prepare_local_dataset.py:117-119 | after the cleaning loop every sequence holds bases only, and running the loop again changes nothing |
| DatasetRules.Prepared | scripts/prepare_local_dataset.py:116-119 | the entries a file contributes: cleaned when it is FASTA and cleaning is on, else as read; `Disk.ProcessFile` computes it |
| DatasetRules.Trunc | scripts/prepare_local_dataset.py:120 | `int(x)` truncates toward zero, for both signs |
| DatasetRules.SplitIndex | scripts/prepare_local_dataset.py:120 | for a test split in [0,1] the index lies in 0..len; it is 0 for a zero test split, len for 1, and not positive for a negative test split |
| DatasetRules.Scaled | scripts/prepare_local_dataset.py:120 | `len(entries) * test_split` lies in 0..len for a test split in [0,1], is 0 and len at the ends, and is not positive for a negative test split |
| DatasetRules.SliceSplit | scripts/prepare_local_dataset.py:45-48 | `entries[:k] + entries[k:]` is the list again; a non-negative `k` puts `min(k, len)` entries in front, a negative one leaves `min(-k, len)` behind |
| DatasetRules.Take | scripts/prepare_local_dataset.py:45 | `entries[:split_index]`, with Python's clamping and negative indices; its split with `Drop` is `SliceSplit` |
| DatasetRules.Drop | scripts/prepare_local_dataset.py:48 | `entries[split_index:]`, with Python's clamping and negative indices; its split with `Take` is `SliceSplit` |
| DatasetRules.SplitPartition | scripts/prepare_local_dataset.py:39-50 | with a positive test split, the test slice and then the train slice make up the shuffled list exactly, the test slice holds `min(split_index, len)` entries, and the paths are `dir/test/<name>` then `dir/train/<name>`; with a zero test split, one output in `dir` holds every entry |
| DatasetRules.NegativeSplitKeepsTail | scripts/prepare_local_dataset.py:41-48 | with a negative test split, the single output keeps only the last `-split_index` entries |
| DatasetRules.SplitWrites | scripts/prepare_local_dataset.py:32-88 | what `output_fasta_file`, `output_fastq_file`, `output_fasta_db` and `output_fastq_db` write: `test/<name>` then `train/<name>`, or `<name>` alone; stated by `SplitPartition` and `NegativeSplitKeepsTail` |
| DatasetRules.SplitDir | scripts/prepare_local_dataset.py:124 | the split directory lies under the output path: `output/<str(i)>` with a test split, the output path itself without |
| DatasetRules.SplitOutputs | scripts/prepare_local_dataset.py:124-128 | the outputs of one split, FASTA/FASTQ files before DBs; `SplitListedFiles` and `SplitWritesLand` state them |
| DatasetRules.TextAndDbSamePath | scripts/prepare_local_dataset.py:124-128 | with both output types on, each DB is written to the path of the FASTA/FASTQ file of the same split and part |
| DatasetRules.FileOutputs | scripts/prepare_local_dataset.py:122-128 | the outputs of one file over its splits in split order; `FileOutputsSnoc` and `FileListedCount` state them |
| DatasetRules.Outputs | scripts/prepare_local_dataset.py:114-129 | the outputs of `process_fasta_files`/`process_fastq_files` in input order; `OutputsStep`, `ListedCount` and `OutputsLand` state them |
| DatasetRules.Runs | scripts/prepare_local_dataset.py:122 | the number of iterations of `range(num_splits)`, zero for a negative count |
| DatasetRules.ShufflesKeepEntries | scripts/prepare_local_dataset.py:122-123 | after any number of in-place shuffles, each split sees exactly the file's entries |
| DatasetRules.ShufflesSnoc | scripts/prepare_local_dataset.py:122-123 | one more in-place shuffle, a permutation of the previous order, extends the chain of shuffles |
| DatasetRules.Shuffles | scripts/prepare_local_dataset.py:122-123 | the chain of in-place shuffles: one order per split, each a permutation of the one before, the first of the prepared entries; `ShufflesKeepEntries` states it |
| DatasetRules.FilesShuffledEach | scripts/prepare_local_dataset.py:115-123 | every input file's entry lists are successive shuffles of its prepared entries, one per split |
| DatasetRules.TextPathsAppend | scripts/prepare_local_dataset.py:126 | `files += ...` concatenates the listed files in order |
| DatasetRules.TextPaths | scripts/prepare_local_dataset.py:126 | the paths `files += ...` collects: the FASTA/FASTQ outputs in write order, DBs left out; `TextPathsAppend` and `ListedCount` state it |
| DatasetRules.SplitWritesListed | scripts/prepare_local_dataset.py:39-50 | a FASTA/FASTQ split lists its test file and then its train file (only the train file without a test split); a DB split lists nothing |
| DatasetRules.SplitListedFiles | scripts/prepare_local_dataset.py:124-128 | split `i` lists `output/i/test/<name>` then `output/i/train/<name>`, or only `output/<name>`, and DBs add nothing |
| DatasetRules.SplitListedCount | scripts/prepare_local_dataset.py:124-128 | a split lists 2 files with a test split, 1 without, and 0 when only DBs are written |
| DatasetRules.FileListedCount | scripts/prepare_local_dataset.py:122-128 | one file lists that many files per split |
| DatasetRules.ListedCount | scripts/prepare_local_dataset.py:114-129 | the returned list has that many files per input file per split |
| DatasetRules.InSplitDirs | scripts/prepare_local_dataset.py:186-194 | a directory created in iteration `i` of the directory loop is among those created by the whole loop |
| DatasetRules.SplitDirsAt | scripts/prepare_local_dataset.py:186-194 | the directories one iteration of the directory loop creates, with their ancestors; `SplitWritesLand` puts each output of the split in one of them |
| DatasetRules.SplitDirs | scripts/prepare_local_dataset.py:186-194 | the directories the whole loop creates; `InSplitDirs` and `SplitDirsGrow` state them |
| DatasetRules.SplitDirsGrow | scripts/prepare_local_dataset.py:186-194 | the directory loop never removes a directory: what the first `m` iterations created is still there after `n >= m` |
| DatasetRules.SplitWritesLand | scripts/prepare_local_dataset.py:39-49 | every output of split `i` goes into a directory created for split `i` |
| DatasetRules.SplitOutputsLand | scripts/prepare_local_dataset.py:124-128 | every output of an earlier split goes into a directory created before processing |
| DatasetRules.FileOutputsLand | scripts/prepare_local_dataset.py:122-128 | every output of one file goes into a created directory |
| DatasetRules.OutputsLand | scripts/prepare_local_dataset.py:186-201 | everything a run writes lands in a directory that `main` created before processing |
| DatasetRules.FileOutputsSnoc | scripts/prepare_local_dataset.py:122-128 | one more split adds its outputs after those of the earlier splits |
| DatasetRules.OutputsStep | scripts/prepare_local_dataset.py:115-128 | one more input file adds its outputs, and its listed files, after those of the earlier files |
| PrepareLocalDataset.Shuffle | scripts/prepare_local_dataset.py:123 | `rng.shuffle` permutes the list in place |
| PrepareLocalDataset.CleanEntries | scripts/prepare_local_dataset.py:117-119 | the loop replaces every entry by the entry with its sequence cleaned, and nothing else |
| PrepareLocalDataset.ClassifyInputs | scripts/prepare_local_dataset.py:171-183 | the loop over the data files computes exactly `Classify`, stopping at the first bad file |
| PrepareLocalDataset.ClassifyStaysRejected | scripts/prepare_local_dataset.py:173-183 | once a prefix is rejected, the whole list is rejected for the same reason |
| PrepareLocalDataset.Planned | scripts/prepare_local_dataset.py:196-201 | what a successful `main` writes: the FASTA files' outputs and then the FASTQ files'; `Disk.Run` and `Disk.Prepare` state it |
| PrepareLocalDataset.Disk.MakeDirs | scripts/prepare_local_dataset.py:193-194 | `mkdir(parents=True, exist_ok=True)` adds the path and its ancestors and writes nothing |
| PrepareLocalDataset.Disk.Exists | scripts/prepare_local_dataset.py:158 | `p.exists()`: a known directory or input file, any directory above one of them, or the current directory, which `Path('out').parent` names |
| PrepareLocalDataset.Disk.OutputFile | scripts/prepare_local_dataset.py:32-50 | `output_fasta_file`/`output_fastq_file` write the test prefix, then the train suffix, and return their paths in that order |
| PrepareLocalDataset.Disk.OutputDb | scripts/prepare_local_dataset.py:74-88 | `output_fasta_db`/`output_fastq_db` write the same slices as DBs |
| PrepareLocalDataset.Disk.WriteSplit | scripts/prepare_local_dataset.py:124-128 | one split writes its FASTA/FASTQ files, then its DBs, into `output/i`, and returns only the FASTA/FASTQ paths |
| PrepareLocalDataset.Disk.ShuffleAndWrite | scripts/prepare_local_dataset.py:122-128 | one pass of the split loop shuffles in place (a permutation of the previous order), then writes that order |
| PrepareLocalDataset.Disk.ProcessFile | scripts/prepare_local_dataset.py:115-128 | one input file: its entries, cleaned when asked, are shuffled once per split, and each order is written and listed |
| PrepareLocalDataset.Disk.ProcessNext | scripts/prepare_local_dataset.py:115-128 | one pass of the file loop appends that file's outputs and listed files after those of the earlier files, keeping every file's orders successive shuffles |
| PrepareLocalDataset.Disk.ProcessFiles | scripts/prepare_local_dataset.py:108-150 | `process_fasta_files`/`process_fastq_files` write every file's splits in input order and return the FASTA/FASTQ files written |
| PrepareLocalDataset.Disk.MakeSplitDirs | scripts/prepare_local_dataset.py:186-194 | the directory loop creates `output/i/test` and `output/i/train` per split, or `output` alone |
| PrepareLocalDataset.Disk.MakeSplitDir | scripts/prepare_local_dataset.py:186-194 | one pass of the directory loop adds `output/i/test` and `output/i/train` (or `output`) with their ancestors, and writes nothing |
| PrepareLocalDataset.Disk.CompressAll | scripts/prepare_local_dataset.py:203-205 | every listed file is compressed, in order |
| PrepareLocalDataset.Disk.Run | scripts/prepare_local_dataset.py:153-205 | `main` fails with the first failing check and then changes nothing. Otherwise it creates the split directories, writes the FASTA files' outputs and then the FASTQ files', from shuffles of each file's entries, into created directories, and compresses exactly the FASTA/FASTQ files written when asked |
| PrepareLocalDataset.Disk.Prepare | scripts/prepare_local_dataset.py:185-205 | after the checks: directories, then the outputs, then compression, with every output inside a created directory |
| PrepareLocalDataset.Disk.ProcessAll | scripts/prepare_local_dataset.py:196-201 | the FASTA files are processed, then the FASTQ files, and their listed files are concatenated in that order |
| PrepareLocalDataset.Disk.LandInDirs | scripts/prepare_local_dataset.py:186-201 | the outputs of the shuffled input files land in the split directories |
| TaxonomyCommon.ParseDistribution | scripts/taxonomy/_common.py:9 | exactly `presence-absence` and `natural` are accepted, each as its own value |
| TaxonomyCommon.OutputDir | scripts/taxonomy/_common.py:14 | `output_path / dataset / synthetic_classifier / distribution`; `DirTree.MakeOutputPath` returns it |
| TaxonomyCommon.InputDir | scripts/taxonomy/_common.py:26 | `synthetic_data_path / dataset / synthetic_classifier / f"test-{distribution}"`; `FindFastasToProcess` lists it |
| TaxonomyCommon.InputAndOutputDiffer | scripts/taxonomy/_common.py:14-26 | whatever the `--synthetic-data-path` and output roots, the directory results go to is never the directory FASTA files are read from |
| TaxonomyCommon.DirTree.MakeOutputPath | scripts/taxonomy/_common.py:12-16 | fails exactly when neither the output path nor its parent exists, by `IsDir`, which counts a directory above a listed one. Otherwise it returns `output/dataset/classifier/distribution` after creating it and its ancestors |
| TaxonomyCommon.DirTree.IsDir | scripts/taxonomy/_common.py:13 | the existence test behind `mkdir(exist_ok=True)`: a listed directory, any directory above one, or the current directory; `IsDirAbove` proves every directory above an existing one exists |
| TaxonomyCommon.DirTree.IsDirAbove | scripts/taxonomy/_common.py:13 | every prefix of an existing directory exists, so a listed `a/b` makes `a` exist for `mkdir` |
| TaxonomyCommon.RFind | scripts/taxonomy/_common.py:28 | the index of the last occurrence of the character, or -1 when there is none |
| TaxonomyCommon.Suffix | scripts/taxonomy/_common.py:28 | pathlib's suffix is empty or a dot-started ending of the name, shorter than the name |
| TaxonomyCommon.WithSuffix | scripts/taxonomy/_common.py:28 | pathlib's `with_suffix(...).name`: the suffix replaced, or appended when there is none; stated by `CounterpartOfFasta` |
| TaxonomyCommon.Counterpart | scripts/taxonomy/_common.py:28 | `f.with_suffix(".tax.tsv").name`; `CounterpartIsTaxTsv`, `CounterpartInjective` and `CounterpartCollision` state it |
| TaxonomyCommon.CounterpartOfFasta | scripts/taxonomy/_common.py:28 | `with_suffix(".tax.tsv")` replaces `.fasta` for a name with a non-empty stem, and appends to the name `.fasta` |
| TaxonomyCommon.CounterpartIsTaxTsv | scripts/taxonomy/_common.py:27-28 | every counterpart ends in `.tax.tsv`, so the `endswith` filter on the output listing never hides one |
| TaxonomyCommon.CounterpartInjective | scripts/taxonomy/_common.py:28 | two FASTA names with non-empty stems never share a result file |
| TaxonomyCommon.CounterpartCollision | scripts/taxonomy/_common.py:28 | `.fasta` and `.fasta.fasta` share a result file |
| TaxonomyCommon.PendingNames | scripts/taxonomy/_common.py:27-28 | a name is pending exactly when it is an input name ending in `.fasta` whose counterpart is not an output name; other output names make no difference |
| TaxonomyCommon.TaxTsvNames | scripts/taxonomy/_common.py:27 | `existing`: the output names ending in `.tax.tsv`; `PendingNames` shows this pre-filter changes nothing |
| TaxonomyCommon.FindFastasToProcess | scripts/taxonomy/_common.py:19-28 | the result holds exactly the pending names as paths inside `synthetic/dataset/classifier/test-<distribution>` |
| TaxonomyCommon.NothingPendingAfterWriting | scripts/taxonomy/_common.py:27-28 | once every pending file's result exists, nothing is pending |
| TaxonomyCommon.View | scripts/taxonomy/_common.py:35-36 | what the reader uses of a line: the first token after its first character (none when all whitespace), and the line stripped |
| TaxonomyCommon.Tail | scripts/taxonomy/_common.py:35 | `header[1:]`, empty for an empty line |
| TaxonomyCommon.ParseViews | scripts/taxonomy/_common.py:33-38 | the reading loop over line views as recursion: a record per header and next line, stopping at a header without a token; stated by `ParseViewsCount` and `ParseViewsRecord` |
| TaxonomyCommon.ParseFasta | scripts/taxonomy/_common.py:31-38 | the records `read_fasta` yields from a list of lines, and whether it raised; stated by `ParseFastaCount` and `ParseFastaRecord`, and computed by `ReadFasta` |
| TaxonomyCommon.ParseViewsCount | scripts/taxonomy/_common.py:33-38 | reading yields one record per pair of lines, or stops at a header without an identifier right after the records yielded |
| TaxonomyCommon.ParseViewsRecord | scripts/taxonomy/_common.py:33-38 | record `j` comes from views `2j` and `2j+1` |
| TaxonomyCommon.ParseFastaCount | scripts/taxonomy/_common.py:33-38 | reading ends at end of file with `len/2` records (rounded up: a trailing header makes a record), or fails on line `2*records`, whose text after the first character is all whitespace |
| TaxonomyCommon.ParseFastaRecord | scripts/taxonomy/_common.py:35-36 | record `j`'s identifier is the first token of line `2j` after its first character; its sequence is line `2j+1` stripped, or empty when the header is the last line |
| TaxonomyCommon.IdentifiersHaveNoSpace | scripts/taxonomy/_common.py:35 | identifiers are non-empty and hold no whitespace, so no newline or tab |
| TaxonomyCommon.OddTrailingHeader | scripts/taxonomy/_common.py:36-37 | a cleanly read file with an odd number of lines ends with a record whose sequence is empty |
| TaxonomyCommon.BlankHeaderFails | scripts/taxonomy/_common.py:35 | a blank line where a header is expected fails at once, whatever follows |
| TaxonomyCommon.TextFile.ReadLine | scripts/taxonomy/_common.py:33 | `readline()` returns the next line (empty only at end of file) and moves past it |
| TaxonomyCommon.ReadFasta | scripts/taxonomy/_common.py:31-38 | the reading loop yields exactly the records of `ParseFasta` on the file's lines, and fails exactly when it does |
| TaxonomyCommon.ReadStops | scripts/taxonomy/_common.py:34-35 | a header without an identifier ends reading with an error after the records already yielded |
| TaxonomyCommon.ReadContinues | scripts/taxonomy/_common.py:34-38 | one loop pass (a header, the next line and the next header) yields one record and continues from the next header |
| TaxonomyCommon.ReadLastHeader | scripts/taxonomy/_common.py:34-38 | a header with an identifier on the last line yields one record with an empty sequence, then reading ends cleanly |
| TaxonomyCommon.ReadPair | scripts/taxonomy/_common.py:34-38 | a header with an identifier followed by a line yields the identifier with the stripped line, then the records of the rest |
| TaxonomyCommon.ParseViewsPair | scripts/taxonomy/_common.py:35-38 | a header with an identifier and its next line give one record, followed by the records of the rest |
| TaxonomyCommon.TsvTextSnoc | scripts/taxonomy/_common.py:43-44 | one more entry appends its line at the end |
| TaxonomyCommon.TsvLine | scripts/taxonomy/_common.py:44 | `f"{identifier}\t{label}\n"`; read back by `TsvLineRoundTrip` |
| TaxonomyCommon.TsvText | scripts/taxonomy/_common.py:41-44 | the file `write_tax_tsv` writes; `WriteTaxTsv` computes it and `TsvLines` and `TsvRoundTrip` state it |
| TaxonomyCommon.WriteTaxTsv | scripts/taxonomy/_common.py:41-44 | the writing loop produces exactly one `identifier<TAB>label<NEWLINE>` line per entry, in order |
| TaxonomyCommon.FirstTab | scripts/taxonomy/_common.py:44 | the index of the first tab, or the length when there is none |
| TaxonomyCommon.FirstTabAfter | scripts/taxonomy/_common.py:44 | the first tab after a tab-free identifier is the separator |
| TaxonomyCommon.TsvLineRoundTrip | scripts/taxonomy/_common.py:44 | a safe entry's line is one newline-terminated line, and splitting it at its first tab gives the entry back |
| TaxonomyCommon.TsvLines | scripts/taxonomy/_common.py:43-44 | the file holds exactly one line per safe entry, in order |
| TaxonomyCommon.TsvRoundTrip | scripts/taxonomy/_common.py:41-44 | reading the written file back recovers the entries when identifiers hold no tab or newline and labels no newline |
| TaxonomyCommon.TabInIdentifierBreaksRoundTrip | scripts/taxonomy/_common.py:44 | an identifier holding a tab is read back cut at its first tab, and the rest of it moves into the label |
| TaxonomyCommon.ReadIdentifiersAreTsvSafe | scripts/taxonomy/_common.py:35-44 | identifiers read by `read_fasta`, written with newline-free labels, are read back unchanged |

## Left out

- Actual I/O, as follows:
  - Input files are given as the entry lists their readers yield; `fasta.entries`, `fastq.entries` and the FASTA/FASTQ/DB writers of `dnadb` are not part of this model.
  - An output is a record in the `writes` log (kind, format, path, entries in order), not bytes on disk. So two inputs with the same name from different directories show up as two writes to one path, not as one overwritten file. The same holds within one split when both `--output-fasta-fastq` and `--output-db` are given: the DB goes to the path of the FASTA/FASTQ file just written (`TextAndDbSamePath`), and what the DB factory does to that file is not modelled.
  - `compress` appends the path to the `compressed` log.
- `tqdm` progress bars and the messages `main` prints. A failure is a `Failure` value instead of a message and exit status 1.
- `tfs.init` argument parsing, `define_arguments` and `dataset_args`: the options arrive as a `Config` value. Of `dataset_args`, only the `--distribution` choices are modelled.
- The random number generator: `rng.shuffle` is an arbitrary permutation, and the orders it produced are ghost results.
- Float arithmetic: `test_split` is a `real`, so `len(entries) * test_split` is exact. The rounding of the float product before `int()` is not modelled.
- Non-finite `--test-split` values: `float` also parses `inf` and `nan`, and both pass every option check. `int(len(entries) * test_split)` then raises (`OverflowError` or `ValueError`) after the directory loop has already created directories. A `real` holds no such value, so this crash is not modelled.
- The regular expression `[^{dna.ALL_BASES}]`: the base alphabet is a set of characters passed as a parameter, and the character-class syntax is not modelled.
- A data file that exists but is a directory: the model counts only the keys of `Disk.files` as existing data files.
- Errors raised by the file system, which the model does not cover:
  - `mkdir` failing because a regular file is in the way, or the output parent being removed during the run;
  - `iterdir` on a missing directory.
- Path strings containing `/`: each path component is one string, and pathlib's splitting of a string into components is not modelled.
- Universal-newline translation in text mode: `\r\n` and `\r` are not turned into `\n` before `read_fasta` sees the lines. Character decoding is not modelled either.
- `read_fasta` is a generator. The model returns the records it yields before stopping, with a flag for the `IndexError`, instead of yielding lazily.
- `common/models/gast.py`, `src/deepdna/nn/models/custom_model.py` and `scripts/finetuning/setbert_finetune_sfd_binary_classification.py` are not part of this model: they are neural-network and training code.
