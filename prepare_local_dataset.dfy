/**
 * The steps of `prepare_local_dataset.py` that change state: sorting the data
 * files, creating the split directories, reading, cleaning and shuffling each
 * file's entries in place, writing the test/train outputs, and compressing
 * the written FASTA/FASTQ files. Each is proved against the functions of
 * module DatasetRules.
 */
module PrepareLocalDataset {
  import opened Optional
  import opened FsPaths
  import opened DatasetRules

  /**
   * `rng.shuffle(a)`: a Fisher-Yates pass in which every swap partner is an
   * arbitrary choice, so any permutation of `a` can result.
   */
  method Shuffle<T>(a: array<T>)
    modifies a
    ensures multiset(a[..]) == multiset(old(a[..]))
  {
    var i := a.Length;
    while i > 1
      invariant 0 <= i <= a.Length
      invariant multiset(a[..]) == multiset(old(a[..]))
    {
      var j :| 0 <= j < i;
      a[i - 1], a[j] := a[j], a[i - 1];
      i := i - 1;
    }
  }

  /** The cleaning loop: every entry's sequence loses its non-base characters, in place. */
  method CleanEntries(a: array<Entry>, bases: set<char>)
    modifies a
    ensures a[..] == CleanAll(old(a[..]), bases)
  {
    for k := 0 to a.Length
      invariant forall j :: 0 <= j < k ==> a[j] == CleanEntry(old(a[j]), bases)
      invariant forall j :: k <= j < a.Length ==> a[j] == old(a[j])
    {
      a[k] := CleanEntry(a[k], bases);
    }
  }

  /** The loop of `main` that sorts the data files into FASTA and FASTQ lists, stopping at the first bad one. */
  method ClassifyInputs(dataFiles: seq<Path>, existing: set<Path>) returns (r: Sorting)
    ensures r == Classify(dataFiles, existing)
  {
    var fastas: seq<Path> := [];
    var fastqs: seq<Path> := [];
    for i := 0 to |dataFiles|
      invariant Classify(dataFiles[..i], existing) == Sorted(fastas, fastqs)
    {
      var f := dataFiles[i];
      ClassifySnoc(dataFiles, existing, i);
      if f !in existing {
        ClassifyStaysRejected(dataFiles, existing, i + 1);
        return Rejected(MissingFile(f));
      }
      if IsFastaName(Name(f)) {
        fastas := fastas + [f];
      } else if IsFastqName(Name(f)) {
        fastqs := fastqs + [f];
      } else {
        ClassifyStaysRejected(dataFiles, existing, i + 1);
        return Rejected(UnknownFileType(f));
      }
    }
    assert dataFiles[..|dataFiles|] == dataFiles;
    return Sorted(fastas, fastqs);
  }

  /** Once a prefix of the data files is rejected, the whole list is rejected for the same reason. */
  lemma {:induction false} ClassifyStaysRejected(files: seq<Path>, existing: set<Path>, i: nat)
    requires i <= |files| && Classify(files[..i], existing).Rejected?
    ensures Classify(files, existing) == Classify(files[..i], existing)
    decreases |files| - i
  {
    if i < |files| {
      var prefix := files[..|files| - 1];
      assert prefix[..i] == files[..i];
      ClassifyStaysRejected(prefix, existing, i);
      ClassifyRejectedStep(files, existing);
    } else {
      assert files[..i] == files;
    }
  }

  /** The outputs of a successful run: the FASTA files' and then the FASTQ files'. */
  ghost function Planned(config: Config, contents: map<Path, seq<Entry>>, fastaOrders: seq<seq<seq<Entry>>>, fastqOrders: seq<seq<seq<Entry>>>): seq<Write>
    requires Classify(config.dataFiles, contents.Keys).Sorted?
    requires |fastaOrders| == |Classify(config.dataFiles, contents.Keys).fastas|
    requires |fastqOrders| == |Classify(config.dataFiles, contents.Keys).fastqs|
  {
    ClassifySortedExist(config.dataFiles, contents.Keys);
    var sorted := Classify(config.dataFiles, contents.Keys);
    Outputs(Fasta, config, sorted.fastas, contents, fastaOrders) + Outputs(Fastq, config, sorted.fastqs, contents, fastqOrders)
  }

  /**
   * The file system as the script sees it: the directories that exist, the
   * input files with the entries their readers yield, every output written
   * (in order) and every file compressed (in order).
   */
  class Disk {
    var dirs: set<Path>
    const files: map<Path, seq<Entry>>
    var writes: seq<Write>
    var compressed: seq<Path>

    constructor (dirs: set<Path>, files: map<Path, seq<Entry>>)
      ensures this.dirs == dirs && this.files == files && writes == [] && compressed == []
    {
      this.dirs := dirs;
      this.files := files;
      writes := [];
      compressed := [];
    }

    /**
     * `p.exists()`: a known directory or input file, or a directory that
     * holds one of them. The empty path is the current directory, which
     * always exists.
     */
    predicate Exists(p: Path)
      reads this
    {
      || p == [] || p in dirs || p in files
      || (exists d :: d in dirs && Below(p, d))
      || (exists f :: f in files && Below(p, f))
    }

    /** `p.mkdir(parents=True, exist_ok=True)` */
    method MakeDirs(p: Path)
      modifies this
      ensures dirs == old(dirs) + Ancestors(p)
      ensures writes == old(writes) && compressed == old(compressed)
    {
      dirs := dirs + Ancestors(p);
    }

    /** `output_fasta_file` and `output_fastq_file`: write the split and return the files written. */
    method OutputFile(kind: Kind, testSplit: real, filename: string, entries: array<Entry>, k: int, dir: Path) returns (listed: seq<Path>)
      modifies this
      ensures writes == old(writes) + SplitWrites(kind, Text, testSplit, filename, entries[..], k, dir)
      ensures listed == if testSplit > 0.0 then [dir + ["test", filename], dir + ["train", filename]] else [dir + [filename]]
      ensures dirs == old(dirs) && compressed == old(compressed)
    {
      var trainPath := dir;
      listed := [];
      if testSplit > 0.0 {
        var testPath := dir + ["test"];
        trainPath := dir + ["train"];
        assert testPath + [filename] == dir + ["test", filename];
        writes := writes + [Write(kind, Text, testPath + [filename], Take(entries[..], k))];
        listed := listed + [testPath + [filename]];
      }
      assert testSplit > 0.0 ==> trainPath + [filename] == dir + ["train", filename];
      writes := writes + [Write(kind, Text, trainPath + [filename], Drop(entries[..], k))];
      listed := listed + [trainPath + [filename]];
    }

    /** `output_fasta_db` and `output_fastq_db`: write the split as DBs; nothing is returned. */
    method OutputDb(kind: Kind, testSplit: real, filename: string, entries: array<Entry>, k: int, dir: Path)
      modifies this
      ensures writes == old(writes) + SplitWrites(kind, Db, testSplit, filename, entries[..], k, dir)
      ensures dirs == old(dirs) && compressed == old(compressed)
    {
      var trainPath := dir;
      if testSplit > 0.0 {
        var testPath := dir + ["test"];
        trainPath := dir + ["train"];
        assert testPath + [filename] == dir + ["test", filename];
        writes := writes + [Write(kind, Db, testPath + [filename], Take(entries[..], k))];
      }
      assert testSplit > 0.0 ==> trainPath + [filename] == dir + ["train", filename];
      writes := writes + [Write(kind, Db, trainPath + [filename], Drop(entries[..], k))];
    }

    /** One iteration of the split loop: write split `i` of the shuffled entries in the selected formats. */
    method WriteSplit(kind: Kind, config: Config, filename: string, a: array<Entry>, k: int, i: nat) returns (listed: seq<Path>)
      modifies this
      ensures writes == old(writes) + SplitOutputs(kind, config, filename, a[..], k, i)
      ensures listed == TextPaths(SplitOutputs(kind, config, filename, a[..], k, i))
      ensures dirs == old(dirs) && compressed == old(compressed)
    {
      var path := if config.testSplit > 0.0 then config.outputPath + [Decimal(i)] else config.outputPath;
      assert path == SplitDir(config, i);
      listed := [];
      if config.outputFastaFastq {
        listed := OutputFile(kind, config.testSplit, filename, a, k, path);
      }
      if config.outputDb {
        OutputDb(kind, config.testSplit, filename, a, k, path);
      }
      SplitListedFiles(kind, config, filename, a[..], k, i);
    }

    /**
     * The body of the loop over input files in `process_fasta_files` and
     * `process_fastq_files`: read the entries, clean them (FASTA only, when
     * asked), then once per split shuffle them in place and write the split.
     * `orders[i]` is the entry list after the `i`-th shuffle.
     */
    method ProcessFile(kind: Kind, config: Config, bases: set<char>, f: Path) returns (listed: seq<Path>, ghost orders: seq<seq<Entry>>)
      requires f in files
      modifies this
      ensures Shuffles(orders, Prepared(kind, config, bases, files[f]), Runs(config))
      ensures writes == old(writes) + FileOutputs(kind, config, OutputFilename(Name(f)), orders, SplitIndex(|files[f]|, config.testSplit))
      ensures listed == TextPaths(FileOutputs(kind, config, OutputFilename(Name(f)), orders, SplitIndex(|files[f]|, config.testSplit)))
      ensures dirs == old(dirs) && compressed == old(compressed)
    {
      var es := files[f];
      var a := new Entry[|es|](i requires 0 <= i < |es| => es[i]);
      assert a[..] == es;
      if kind == Fasta && config.cleanSequences {
        CleanEntries(a, bases);
      }
      ghost var start := Prepared(kind, config, bases, es);
      assert a[..] == start;
      var k := SplitIndex(a.Length, config.testSplit);
      var filename := OutputFilename(Name(f));
      listed := [];
      orders := [];
      for i := 0 to Runs(config)
        invariant Shuffles(orders, start, i)
        invariant a[..] == if i == 0 then start else orders[i - 1]
        invariant writes == old(writes) + FileOutputs(kind, config, filename, orders, k)
        invariant listed == TextPaths(FileOutputs(kind, config, filename, orders, k))
        invariant dirs == old(dirs) && compressed == old(compressed)
      {
        listed, orders := ShuffleAndWrite(kind, config, filename, a, k, i, start, orders, old(writes), listed);
      }
    }

    /** One pass of the split loop: shuffle the entries in place, then write split `i`. */
    method ShuffleAndWrite(kind: Kind, config: Config, filename: string, a: array<Entry>, k: int, i: nat, ghost start: seq<Entry>,
                           ghost orders: seq<seq<Entry>>, ghost base: seq<Write>, listed: seq<Path>)
      returns (listed': seq<Path>, ghost orders': seq<seq<Entry>>)
      requires Shuffles(orders, start, i)
      requires a[..] == if i == 0 then start else orders[i - 1]
      requires writes == base + FileOutputs(kind, config, filename, orders, k)
      requires listed == TextPaths(FileOutputs(kind, config, filename, orders, k))
      modifies this, a
      ensures Shuffles(orders', start, i + 1) && a[..] == orders'[i]
      ensures writes == base + FileOutputs(kind, config, filename, orders', k)
      ensures listed' == TextPaths(FileOutputs(kind, config, filename, orders', k))
      ensures dirs == old(dirs) && compressed == old(compressed)
    {
      ghost var done := FileOutputs(kind, config, filename, orders, k);
      Shuffle(a);
      ghost var x := a[..];
      FileOutputsSnoc(kind, config, filename, orders, x, k);
      ShufflesSnoc(orders, start, i, x);
      orders' := orders + [x];
      var w := WriteSplit(kind, config, filename, a, k, i);
      ghost var step := SplitOutputs(kind, config, filename, x, k, i);
      assert FileOutputs(kind, config, filename, orders', k) == done + step;
      AppendAssoc(base, done, step);
      listed' := listed + w;
      TextPathsAppend(done, step);
    }

    /**
     * `process_fasta_files` (kind Fasta) and `process_fastq_files` (kind
     * Fastq): every input file in order; `orders[j]` are the shuffles of
     * `inputs[j]`.
     */
    method ProcessFiles(kind: Kind, config: Config, bases: set<char>, inputs: seq<Path>)
      returns (listed: seq<Path>, ghost orders: seq<seq<seq<Entry>>>)
      requires forall f :: f in inputs ==> f in files
      modifies this
      ensures FilesShuffled(kind, config, bases, inputs, files, orders)
      ensures writes == old(writes) + Outputs(kind, config, inputs, files, orders)
      ensures listed == TextPaths(Outputs(kind, config, inputs, files, orders))
      ensures dirs == old(dirs) && compressed == old(compressed)
    {
      listed := [];
      orders := [];
      for j := 0 to |inputs|
        invariant FilesShuffled(kind, config, bases, inputs[..j], files, orders)
        invariant writes == old(writes) + Outputs(kind, config, inputs[..j], files, orders)
        invariant listed == TextPaths(Outputs(kind, config, inputs[..j], files, orders))
        invariant dirs == old(dirs) && compressed == old(compressed)
      {
        listed, orders := ProcessNext(kind, config, bases, inputs, j, orders, old(writes), listed);
      }
      assert inputs[..|inputs|] == inputs;
    }

    /** One pass of the loop over input files: process `inputs[j]` and append its outputs and listed files. */
    method ProcessNext(kind: Kind, config: Config, bases: set<char>, inputs: seq<Path>, j: nat,
                       ghost orders: seq<seq<seq<Entry>>>, ghost base: seq<Write>, listed: seq<Path>)
      returns (listed': seq<Path>, ghost orders': seq<seq<seq<Entry>>>)
      requires forall f :: f in inputs ==> f in files
      requires j < |inputs|
      requires FilesShuffled(kind, config, bases, inputs[..j], files, orders)
      requires writes == base + Outputs(kind, config, inputs[..j], files, orders)
      requires listed == TextPaths(Outputs(kind, config, inputs[..j], files, orders))
      modifies this
      ensures FilesShuffled(kind, config, bases, inputs[..j + 1], files, orders')
      ensures writes == base + Outputs(kind, config, inputs[..j + 1], files, orders')
      ensures listed' == TextPaths(Outputs(kind, config, inputs[..j + 1], files, orders'))
      ensures dirs == old(dirs) && compressed == old(compressed)
    {
      var w;
      ghost var fileOrders;
      w, fileOrders := ProcessFile(kind, config, bases, inputs[j]);
      FilesShuffledStep(kind, config, bases, inputs, files, orders, j, fileOrders);
      OutputsStep(kind, config, inputs, files, orders, j, fileOrders, base);
      listed' := listed + w;
      orders' := orders + [fileOrders];
    }

    /** The loop of `main` that creates `output/<i>/test` and `output/<i>/train` (or `output` alone) per split. */
    method MakeSplitDirs(config: Config)
      modifies this
      ensures dirs == old(dirs) + SplitDirs(config, Runs(config))
      ensures writes == old(writes) && compressed == old(compressed)
    {
      for i := 0 to Runs(config)
        invariant dirs == old(dirs) + SplitDirs(config, i)
        invariant writes == old(writes) && compressed == old(compressed)
      {
        MakeSplitDir(config, i);
      }
    }

    /** One pass of the directory loop: `output/<i>/test` and `output/<i>/train`, or `output` alone. */
    method MakeSplitDir(config: Config, i: nat)
      modifies this
      ensures dirs == old(dirs) + SplitDirsAt(config, i)
      ensures writes == old(writes) && compressed == old(compressed)
    {
      var trainPath := config.outputPath;
      if config.testSplit > 0.0 {
        trainPath := config.outputPath + [Decimal(i)];
        var testPath := trainPath + ["test"];
        trainPath := trainPath + ["train"];
        MakeDirs(testPath);
      }
      MakeDirs(trainPath);
    }

    /** The compression loop of `main`, over the written FASTA/FASTQ files in order. */
    method CompressAll(written: seq<Path>)
      modifies this
      ensures compressed == old(compressed) + written
      ensures dirs == old(dirs) && writes == old(writes)
    {
      for i := 0 to |written|
        invariant compressed == old(compressed) + written[..i]
        invariant dirs == old(dirs) && writes == old(writes)
      {
        compressed := compressed + [written[i]];
        assert written[..i + 1] == written[..i] + [written[i]];
      }
      assert written[..|written|] == written;
    }

    /**
     * `main`. A failed check returns its reason before anything is created;
     * otherwise the split directories are created, the FASTA files and then
     * the FASTQ files are processed, everything written lands in a created
     * directory, and the listed files are compressed when asked.
     */
    method Run(config: Config, bases: set<char>)
      returns (failure: Option<Failure>, ghost fastaOrders: seq<seq<seq<Entry>>>, ghost fastqOrders: seq<seq<seq<Entry>>>)
      modifies this
      ensures failure == Validate(config, old(Exists(Parent(config.outputPath))), files.Keys)
      ensures failure.Some? ==> dirs == old(dirs) && writes == old(writes) && compressed == old(compressed)
      ensures failure.None? ==>
        && Classify(config.dataFiles, files.Keys).Sorted?
        && FilesShuffled(Fasta, config, bases, Classify(config.dataFiles, files.Keys).fastas, files, fastaOrders)
        && FilesShuffled(Fastq, config, bases, Classify(config.dataFiles, files.Keys).fastqs, files, fastqOrders)
        && dirs == old(dirs) + SplitDirs(config, Runs(config))
        && writes == old(writes) + Planned(config, files, fastaOrders, fastqOrders)
        && compressed == old(compressed) + (if config.compress then TextPaths(Planned(config, files, fastaOrders, fastqOrders)) else [])
        && (forall w :: w in Planned(config, files, fastaOrders, fastqOrders) ==> Parent(w.path) in dirs)
    {
      fastaOrders, fastqOrders := [], [];
      failure := CheckOptions(config, Exists(Parent(config.outputPath)));
      if failure.Some? {
        return;
      }
      var sorted := ClassifyInputs(config.dataFiles, files.Keys);
      if sorted.Rejected? {
        failure := Some(sorted.failure);
        return;
      }
      fastaOrders, fastqOrders := Prepare(config, bases, sorted);
    }

    /**
     * The part of `main` after the checks: create the split directories,
     * process the FASTA files and then the FASTQ files, and compress the
     * listed files when asked.
     */
    method Prepare(config: Config, bases: set<char>, sorted: Sorting)
      returns (ghost fastaOrders: seq<seq<seq<Entry>>>, ghost fastqOrders: seq<seq<seq<Entry>>>)
      requires sorted == Classify(config.dataFiles, files.Keys) && sorted.Sorted?
      modifies this
      ensures FilesShuffled(Fasta, config, bases, sorted.fastas, files, fastaOrders)
      ensures FilesShuffled(Fastq, config, bases, sorted.fastqs, files, fastqOrders)
      ensures dirs == old(dirs) + SplitDirs(config, Runs(config))
      ensures writes == old(writes) + Planned(config, files, fastaOrders, fastqOrders)
      ensures compressed == old(compressed) + (if config.compress then TextPaths(Planned(config, files, fastaOrders, fastqOrders)) else [])
      ensures forall w :: w in Planned(config, files, fastaOrders, fastqOrders) ==> Parent(w.path) in dirs
    {
      MakeSplitDirs(config);
      var written;
      written, fastaOrders, fastqOrders := ProcessAll(config, bases, sorted);
      ghost var compressedList := if config.compress then TextPaths(Planned(config, files, fastaOrders, fastqOrders)) else [];
      if config.compress {
        CompressAll(written);
      } else {
        assert compressed == old(compressed) + [];
      }
      assert compressed == old(compressed) + compressedList;
      ClassifySortedExist(config.dataFiles, files.Keys);
      LandInDirs(Fasta, config, bases, sorted.fastas, fastaOrders);
      LandInDirs(Fastq, config, bases, sorted.fastqs, fastqOrders);
    }

    /** The FASTA files and then the FASTQ files are processed; the FASTA/FASTQ files written are listed in order. */
    method ProcessAll(config: Config, bases: set<char>, sorted: Sorting)
      returns (written: seq<Path>, ghost fastaOrders: seq<seq<seq<Entry>>>, ghost fastqOrders: seq<seq<seq<Entry>>>)
      requires sorted == Classify(config.dataFiles, files.Keys) && sorted.Sorted?
      modifies this
      ensures FilesShuffled(Fasta, config, bases, sorted.fastas, files, fastaOrders)
      ensures FilesShuffled(Fastq, config, bases, sorted.fastqs, files, fastqOrders)
      ensures writes == old(writes) + Planned(config, files, fastaOrders, fastqOrders)
      ensures written == TextPaths(Planned(config, files, fastaOrders, fastqOrders))
      ensures dirs == old(dirs) && compressed == old(compressed)
    {
      fastaOrders, fastqOrders := [], [];
      ClassifySortedExist(config.dataFiles, files.Keys);
      written := [];
      if |sorted.fastas| > 0 {
        var listed;
        listed, fastaOrders := ProcessFiles(Fasta, config, bases, sorted.fastas);
        written := written + listed;
      }
      ghost var fastaOut := Outputs(Fasta, config, sorted.fastas, files, fastaOrders);
      assert writes == old(writes) + fastaOut && written == TextPaths(fastaOut);
      if |sorted.fastqs| > 0 {
        var listed;
        listed, fastqOrders := ProcessFiles(Fastq, config, bases, sorted.fastqs);
        written := written + listed;
      }
      ghost var fastqOut := Outputs(Fastq, config, sorted.fastqs, files, fastqOrders);
      assert writes == (old(writes) + fastaOut) + fastqOut;
      AppendAssoc(old(writes), fastaOut, fastqOut);
      assert Planned(config, files, fastaOrders, fastqOrders) == fastaOut + fastqOut;
      TextPathsAppend(fastaOut, fastqOut);
    }

    /** The outputs of shuffled input files land in the split directories. */
    lemma LandInDirs(kind: Kind, config: Config, bases: set<char>, inputs: seq<Path>, orders: seq<seq<seq<Entry>>>)
      requires forall f :: f in inputs ==> f in files
      requires FilesShuffled(kind, config, bases, inputs, files, orders)
      ensures forall w :: w in Outputs(kind, config, inputs, files, orders) ==> Parent(w.path) in SplitDirs(config, Runs(config))
    {
      FilesShuffledEach(kind, config, bases, inputs, files, orders);
      forall j | 0 <= j < |orders| ensures |orders[j]| == Runs(config) {
      }
      OutputsLand(kind, config, inputs, files, orders);
    }
  }
}
