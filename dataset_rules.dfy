/**
 * The rules `prepare_local_dataset.py` follows when it turns FASTA/FASTQ files
 * into shuffled test/train splits: option checks, sorting the input files by
 * suffix, the output file name, sequence cleaning, the split index, Python's
 * slicing, and the files each split writes. The script's stateful steps are in
 * module PrepareLocalDataset and are proved against these functions.
 */
module DatasetRules {
  import opened Optional
  import opened PyText
  import opened FsPaths

  /** One record as the FASTA or FASTQ reader yields it. */
  datatype Entry =
    | FastaEntry(identifier: string, sequence: string)
    | FastqEntry(header: string, sequence: string, quality: string)

  datatype Kind = Fasta | Fastq

  /** A plain FASTA/FASTQ file, or a FASTA/FASTQ DB. */
  datatype Format = Text | Db

  /** One output written: its kind and format, where, and the entries in it, in order. */
  datatype Write = Write(kind: Kind, format: Format, path: Path, entries: seq<Entry>)

  /** The command line of the script. */
  datatype Config = Config(
    outputPath: Path,
    dataFiles: seq<Path>,
    testSplit: real,
    numSplits: int,
    cleanSequences: bool,
    outputDb: bool,
    outputFastaFastq: bool,
    compress: bool)

  /** The reasons `main` returns 1. */
  datatype Failure =
    | OutputParentMissing
    | SplitsWithoutTestSplit
    | NoOutputType
    | MissingFile(path: Path)
    | UnknownFileType(path: Path)

  function Min(a: int, b: int): int {
    if a < b then a else b
  }

  // ---------------------------------------------------------------- options

  /**
   * The option checks `main` makes before it looks at the data files, in
   * order: the output path's parent must exist, several splits need a
   * positive test split, and at least one output type must be selected.
   */
  function CheckOptions(config: Config, parentExists: bool): (r: Option<Failure>)
    ensures r.None? <==> parentExists && !(config.numSplits > 1 && config.testSplit == 0.0)
                         && (config.outputFastaFastq || config.outputDb)
    ensures r.Some? ==> r.value == OutputParentMissing || r.value == SplitsWithoutTestSplit || r.value == NoOutputType
    ensures r == Some(OutputParentMissing) <==> !parentExists
    ensures r == Some(SplitsWithoutTestSplit) <==> parentExists && config.numSplits > 1 && config.testSplit == 0.0
    ensures r == Some(NoOutputType) <==>
              parentExists && !(config.numSplits > 1 && config.testSplit == 0.0)
              && !config.outputFastaFastq && !config.outputDb
  {
    if !parentExists then Some(OutputParentMissing)
    else if config.numSplits > 1 && config.testSplit == 0.0 then Some(SplitsWithoutTestSplit)
    else if !config.outputFastaFastq && !config.outputDb then Some(NoOutputType)
    else None
  }

  // ---------------------------------------------------------------- sorting input files

  predicate IsFastaName(name: string) {
    EndsWith(name, ".fasta") || EndsWith(name, ".fasta.gz")
  }

  predicate IsFastqName(name: string) {
    EndsWith(name, ".fastq") || EndsWith(name, ".fastq.gz")
  }

  predicate IsFastaPath(f: Path) {
    IsFastaName(Name(f))
  }

  /** The `elif` branch: a FASTQ name that the FASTA test did not take. */
  predicate IsFastqPath(f: Path) {
    !IsFastaName(Name(f)) && IsFastqName(Name(f))
  }

  predicate Accepted(f: Path, existing: set<Path>) {
    f in existing && (IsFastaName(Name(f)) || IsFastqName(Name(f)))
  }

  /** The elements of `s` that satisfy `p`, in their order in `s`. */
  function Filter<T(!new)>(s: seq<T>, p: T -> bool): (r: seq<T>)
    ensures |r| <= |s|
    ensures forall x :: x in r <==> x in s && p(x)
  {
    if s == [] then [] else Filter(s[..|s| - 1], p) + (if p(s[|s| - 1]) then [s[|s| - 1]] else [])
  }

  datatype Sorting = Sorted(fastas: seq<Path>, fastqs: seq<Path>) | Rejected(failure: Failure)

  /**
   * The loop of `main` over the data files: each must exist and end in
   * `.fasta`, `.fasta.gz`, `.fastq` or `.fastq.gz`; the first file that does
   * not stops the loop with its reason.
   */
  function Classify(files: seq<Path>, existing: set<Path>): (r: Sorting)
    ensures r.Sorted? ==> |r.fastas| + |r.fastqs| == |files|
  {
    if files == [] then Sorted([], [])
    else
      var n := |files| - 1;
      var prev := Classify(files[..n], existing);
      var f := files[n];
      if prev.Rejected? then prev
      else if f !in existing then Rejected(MissingFile(f))
      else if IsFastaName(Name(f)) then Sorted(prev.fastas + [f], prev.fastqs)
      else if IsFastqName(Name(f)) then Sorted(prev.fastas, prev.fastqs + [f])
      else Rejected(UnknownFileType(f))
  }

  /** The index of the first data file that is missing or of an unknown type, if any. */
  ghost predicate FirstBad(files: seq<Path>, existing: set<Path>, k: int) {
    0 <= k < |files| && !Accepted(files[k], existing) && forall j :: 0 <= j < k ==> Accepted(files[j], existing)
  }

  /** Sorting succeeds exactly when every data file exists and has a known suffix. */
  lemma {:induction false} ClassifyAccepts(files: seq<Path>, existing: set<Path>)
    ensures Classify(files, existing).Sorted? <==> forall f :: f in files ==> Accepted(f, existing)
  {
    if files != [] {
      var n := |files| - 1;
      var prefix := files[..n];
      var f := files[n];
      ClassifyAccepts(prefix, existing);
      assert files == prefix + [f];
      if !Classify(prefix, existing).Sorted? {
        ClassifyRejectedStep(files, existing);
        var g :| g in prefix && !Accepted(g, existing);
        assert g in files;
      } else if !Accepted(f, existing) {
        assert f in files;
      } else {
        assert forall g :: g in files ==> g in prefix || g == f;
      }
    }
  }

  /** Sorting one more file: the step of the loop in `main`. */
  lemma ClassifySnoc(files: seq<Path>, existing: set<Path>, i: nat)
    requires i < |files|
    ensures var prev := Classify(files[..i], existing);
            var f := files[i];
            Classify(files[..i + 1], existing)
            == if prev.Rejected? then prev
               else if f !in existing then Rejected(MissingFile(f))
               else if IsFastaName(Name(f)) then Sorted(prev.fastas + [f], prev.fastqs)
               else if IsFastqName(Name(f)) then Sorted(prev.fastas, prev.fastqs + [f])
               else Rejected(UnknownFileType(f))
  {
    assert files[..i + 1][..i] == files[..i];
  }

  /** A rejected prefix stays rejected when one more file follows. */
  lemma ClassifyRejectedStep(files: seq<Path>, existing: set<Path>)
    requires files != [] && Classify(files[..|files| - 1], existing).Rejected?
    ensures Classify(files, existing) == Classify(files[..|files| - 1], existing)
  {
  }

  /** When sorting succeeds, FASTA names go to the first list and FASTQ names to the second, each in input order. */
  lemma {:induction false} ClassifyLists(files: seq<Path>, existing: set<Path>)
    requires Classify(files, existing).Sorted?
    ensures Classify(files, existing).fastas == Filter(files, IsFastaPath)
    ensures Classify(files, existing).fastqs == Filter(files, IsFastqPath)
  {
    if files != [] {
      var n := |files| - 1;
      ClassifyLists(files[..n], existing);
    }
  }

  /** Every file sorted into either list exists. */
  lemma {:induction false} ClassifySortedExist(files: seq<Path>, existing: set<Path>)
    requires Classify(files, existing).Sorted?
    ensures forall f :: f in Classify(files, existing).fastas ==> f in existing
    ensures forall f :: f in Classify(files, existing).fastqs ==> f in existing
  {
    if files != [] {
      ClassifySortedExist(files[..|files| - 1], existing);
    }
  }

  /** Otherwise the first bad file is reported: as missing if it does not exist, else as of unknown type. */
  lemma {:induction false} ClassifyFirstBad(files: seq<Path>, existing: set<Path>)
    requires Classify(files, existing).Rejected?
    ensures exists k :: FirstBad(files, existing, k)
                        && Classify(files, existing).failure == (if files[k] !in existing then MissingFile(files[k]) else UnknownFileType(files[k]))
  {
    var n := |files| - 1;
    var prefix := files[..n];
    var prev := Classify(prefix, existing);
    assert forall j :: 0 <= j < n ==> prefix[j] == files[j];
    if prev.Rejected? {
      ClassifyFirstBad(prefix, existing);
      var k :| FirstBad(prefix, existing, k)
        && prev.failure == (if prefix[k] !in existing then MissingFile(prefix[k]) else UnknownFileType(prefix[k]));
      assert files[k] == prefix[k];
      assert Classify(files, existing) == prev;
      assert FirstBad(files, existing, k);
    } else {
      ClassifyAccepts(prefix, existing);
      forall j | 0 <= j < n
        ensures Accepted(files[j], existing)
      {
        assert prefix[j] in prefix;
      }
      assert FirstBad(files, existing, n);
    }
  }

  // ---------------------------------------------------------------- output file name

  /** The characters `rstrip('.gz')` removes: a set, not a suffix. */
  const GzChars: set<char> := {'.', 'g', 'z'}

  /** `file.name.rstrip('.gz')` */
  function OutputFilename(name: string): string {
    RStrip(name, GzChars)
  }

  lemma EndsWithAt(s: string, suffix: string, j: nat)
    requires EndsWith(s, suffix) && j < |suffix|
    ensures s[|s| - |suffix| + j] == suffix[j]
  {
    assert s[|s| - |suffix|..][j] == s[|s| - |suffix| + j];
  }

  /** No name is both a FASTA and a FASTQ name, so the `elif` order does not matter. */
  lemma NamesExclusive(name: string)
    ensures !(IsFastaName(name) && IsFastqName(name))
  {
    if EndsWith(name, ".fasta") { EndsWithAt(name, ".fasta", 5); }
    if EndsWith(name, ".fastq") { EndsWithAt(name, ".fastq", 5); }
    if EndsWith(name, ".fasta.gz") { EndsWithAt(name, ".fasta.gz", 5); EndsWithAt(name, ".fasta.gz", 8); }
    if EndsWith(name, ".fastq.gz") { EndsWithAt(name, ".fastq.gz", 5); EndsWithAt(name, ".fastq.gz", 8); }
  }

  /**
   * For every name the script accepts, stripping the character set removes
   * exactly one trailing `.gz`, because the character before it is `a` or `q`.
   */
  lemma OutputFilenameOfAccepted(name: string)
    requires IsFastaName(name) || IsFastqName(name)
    ensures OutputFilename(name) == if EndsWith(name, ".gz") then name[..|name| - 3] else name
    ensures IsFastaName(name) ==> EndsWith(OutputFilename(name), ".fasta")
    ensures IsFastqName(name) ==> EndsWith(OutputFilename(name), ".fastq")
  {
    NamesExclusive(name);
    if EndsWith(name, ".fasta.gz") {
      StripsGz(name, ".fasta.gz");
    } else if EndsWith(name, ".fastq.gz") {
      StripsGz(name, ".fastq.gz");
    } else if EndsWith(name, ".fasta") {
      KeepsPlain(name, ".fasta");
    } else {
      KeepsPlain(name, ".fastq");
    }
  }

  /** A compressed name: exactly the `.gz` goes, since the character before it is not stripped. */
  lemma StripsGz(name: string, ext: string)
    requires EndsWith(name, ext) && |ext| == 9 && ext[6..] == ".gz" && ext[5] !in GzChars
    ensures EndsWith(name, ".gz")
    ensures OutputFilename(name) == name[..|name| - 3] && EndsWith(name[..|name| - 3], ext[..6])
  {
    var n := |name|;
    var r := OutputFilename(name);
    EndsWithAt(name, ext, 5);
    EndsWithAt(name, ext, 6);
    EndsWithAt(name, ext, 7);
    EndsWithAt(name, ext, 8);
    assert name[n - 3..] == ext[6..];
    assert |r| == n - 3;
    assert name[..n - 3][n - 9..] == name[n - 9..n - 3] == ext[..6];
  }

  /** An uncompressed name: it ends in a character that is not stripped, so it is kept whole. */
  lemma KeepsPlain(name: string, ext: string)
    requires EndsWith(name, ext) && |ext| == 6 && ext[5] !in GzChars && ext[5] != 'z'
    ensures !EndsWith(name, ".gz") && OutputFilename(name) == name
  {
    EndsWithAt(name, ext, 5);
    assert name[|name| - 1] !in GzChars;
  }

  /** On a name the script does not accept, `rstrip('.gz')` is not suffix removal: "log.gz" becomes "lo". */
  lemma OutputFilenameStripsCharacters()
    ensures OutputFilename("log.gz") == "lo"
  {
    assert "log.gz"[..5] == "log.g" && "log.g"[..4] == "log." && "log."[..3] == "log" && "log"[..2] == "lo";
  }

  // ---------------------------------------------------------------- cleaning

  /** `re.sub(f"[^{bases}]", '', s)`: removes every character outside the base alphabet `bases`. */
  function Clean(s: string, bases: set<char>): (r: string)
    ensures |r| <= |s|
    ensures forall i :: 0 <= i < |r| ==> r[i] in bases
  {
    if s == [] then [] else (if s[0] in bases then [s[0]] else []) + Clean(s[1..], bases)
  }

  /** Every base character of `s` survives cleaning, as often as it occurs in `s`. */
  lemma {:induction false} CleanKeepsEveryBase(s: string, bases: set<char>, c: char)
    requires c in bases
    ensures multiset(Clean(s, bases))[c] == multiset(s)[c]
  {
    if s != [] {
      assert s == [s[0]] + s[1..];
      CleanKeepsEveryBase(s[1..], bases, c);
    }
  }

  /** Cleaning works character by character, so it keeps the order of the characters it keeps. */
  lemma {:induction false} CleanAppend(a: string, b: string, bases: set<char>)
    ensures Clean(a + b, bases) == Clean(a, bases) + Clean(b, bases)
  {
    if a == [] {
      assert a + b == b;
    } else {
      assert (a + b)[0] == a[0] && (a + b)[1..] == a[1..] + b;
      CleanAppend(a[1..], b, bases);
      var h := if a[0] in bases then [a[0]] else [];
      calc {
        Clean(a + b, bases);
        h + Clean(a[1..] + b, bases);
        h + (Clean(a[1..], bases) + Clean(b, bases));
        (h + Clean(a[1..], bases)) + Clean(b, bases);
      }
    }
  }

  /** A sequence made only of bases is left as it is. */
  lemma {:induction false} CleanKeepsBases(s: string, bases: set<char>)
    requires forall i :: 0 <= i < |s| ==> s[i] in bases
    ensures Clean(s, bases) == s
  {
    if s != [] {
      CleanKeepsBases(s[1..], bases);
    }
  }

  /** Cleaning twice equals cleaning once. */
  lemma CleanIdempotent(s: string, bases: set<char>)
    ensures Clean(Clean(s, bases), bases) == Clean(s, bases)
  {
    CleanKeepsBases(Clean(s, bases), bases);
  }

  /** The cleaning loop's step on one entry: only the sequence changes. */
  function CleanEntry(e: Entry, bases: set<char>): Entry {
    e.(sequence := Clean(e.sequence, bases))
  }

  function CleanAll(es: seq<Entry>, bases: set<char>): (r: seq<Entry>)
    ensures |r| == |es|
  {
    seq(|es|, i requires 0 <= i < |es| => CleanEntry(es[i], bases))
  }

  /** After cleaning, every sequence holds bases only, and cleaning the entries again changes nothing. */
  lemma CleanAllIdempotent(es: seq<Entry>, bases: set<char>)
    ensures forall i, j :: 0 <= i < |es| && 0 <= j < |CleanAll(es, bases)[i].sequence| ==> CleanAll(es, bases)[i].sequence[j] in bases
    ensures CleanAll(CleanAll(es, bases), bases) == CleanAll(es, bases)
  {
    forall i | 0 <= i < |es| ensures CleanAll(CleanAll(es, bases), bases)[i] == CleanAll(es, bases)[i] {
      CleanIdempotent(es[i].sequence, bases);
    }
  }

  /** The entries a file contributes: cleaned when it is FASTA and cleaning was asked for. */
  function Prepared(kind: Kind, config: Config, bases: set<char>, entries: seq<Entry>): seq<Entry> {
    if kind == Fasta && config.cleanSequences then CleanAll(entries, bases) else entries
  }

  // ---------------------------------------------------------------- split index and slicing

  /** Python's `int(x)`: truncation toward zero. */
  function Trunc(x: real): (k: int)
    ensures 0.0 <= x ==> 0 <= k && k as real <= x < k as real + 1.0
    ensures x < 0.0 ==> k <= 0 && x <= k as real && (k as real) - 1.0 < x
  {
    if x >= 0.0 then x.Floor else -((-x).Floor)
  }

  /** `int(len(entries) * test_split)` */
  function SplitIndex(n: nat, testSplit: real): (k: int)
    ensures 0.0 <= testSplit <= 1.0 ==> 0 <= k <= n
    ensures testSplit == 0.0 ==> k == 0
    ensures testSplit == 1.0 ==> k == n
    ensures testSplit < 0.0 ==> k <= 0
  {
    Trunc(Scaled(n, testSplit))
  }

  /** `len(entries) * test_split` */
  function Scaled(n: nat, t: real): (x: real)
    ensures 0.0 <= t <= 1.0 ==> 0.0 <= x <= n as real
    ensures t == 0.0 ==> x == 0.0
    ensures t == 1.0 ==> x == n as real
    ensures t < 0.0 ==> x <= 0.0
  {
    ProductBounds(n as real, t);
    n as real * t
  }

  lemma ProductBounds(a: real, t: real)
    requires 0.0 <= a
    ensures 0.0 <= t <= 1.0 ==> 0.0 <= a * t <= a
    ensures t < 0.0 ==> a * t <= 0.0
  {
    if 0.0 <= t <= 1.0 {
      assert a * t + a * (1.0 - t) == a;
      assert 0.0 <= a * (1.0 - t);
    }
  }

  /** Where Python's slicing puts index `i` of a sequence of length `len`; negative indices count from the end. */
  function SliceBound(len: nat, i: int): (b: nat)
    ensures b <= len
  {
    if i < 0 then (if len + i < 0 then 0 else len + i) else if i < len then i else len
  }

  /** `s[:i]` */
  function Take<T>(s: seq<T>, i: int): seq<T> {
    s[..SliceBound(|s|, i)]
  }

  /** `s[i:]` */
  function Drop<T>(s: seq<T>, i: int): seq<T> {
    s[SliceBound(|s|, i)..]
  }

  /**
   * Python's slicing at one index splits a list in two: `s[:i] + s[i:] == s`.
   * A non-negative index keeps `min(i, len)` entries in front; a negative one
   * leaves `min(-i, len)` entries behind, counting from the end.
   */
  lemma SliceSplit<T>(s: seq<T>, i: int)
    ensures Take(s, i) + Drop(s, i) == s
    ensures 0 <= i ==> |Take(s, i)| == Min(i, |s|) && |Drop(s, i)| == |s| - Min(i, |s|)
    ensures i < 0 ==> |Drop(s, i)| == Min(-i, |s|) && |Take(s, i)| == |s| - Min(-i, |s|)
  {
    var b := SliceBound(|s|, i);
    assert s[..b] + s[b..] == s;
  }

  // ---------------------------------------------------------------- what one split writes

  /**
   * `output_fasta_file`, `output_fastq_file`, `output_fasta_db` and
   * `output_fastq_db`: with a positive test split, the prefix goes to
   * `dir/test/<filename>` and then the rest to `dir/train/<filename>`;
   * otherwise the whole of `order[k:]` goes to `dir/<filename>`.
   */
  function SplitWrites(kind: Kind, format: Format, testSplit: real, filename: string, order: seq<Entry>, k: int, dir: Path): seq<Write> {
    if testSplit > 0.0 then
      [Write(kind, format, dir + ["test", filename], Take(order, k)),
       Write(kind, format, dir + ["train", filename], Drop(order, k))]
    else
      [Write(kind, format, dir + [filename], Drop(order, k))]
  }

  /**
   * The partition: the test slice followed by the train slice is the
   * shuffled list, and the test slice holds `min(split_index, len)` entries;
   * with a zero test split, the single train output holds every entry.
   */
  lemma SplitPartition(kind: Kind, format: Format, testSplit: real, filename: string, order: seq<Entry>, dir: Path)
    requires 0.0 <= testSplit
    ensures var k := SplitIndex(|order|, testSplit);
            var ws := SplitWrites(kind, format, testSplit, filename, order, k, dir);
            && (testSplit > 0.0 ==>
                  |ws| == 2 && ws[0].entries + ws[1].entries == order
                  && |ws[0].entries| == Min(k, |order|)
                  && ws[0].path == dir + ["test", filename] && ws[1].path == dir + ["train", filename])
            && (testSplit <= 1.0 ==> |ws[0].entries| == k || testSplit == 0.0)
            && (testSplit == 0.0 ==> ws == [Write(kind, format, dir + [filename], order)])
  {
  }

  /**
   * A negative test split passes every check, and Python's negative slicing
   * then writes only the last `-split_index` entries to the train output.
   */
  lemma NegativeSplitKeepsTail(kind: Kind, format: Format, testSplit: real, filename: string, order: seq<Entry>, dir: Path)
    requires testSplit < 0.0
    ensures var k := SplitIndex(|order|, testSplit);
            var ws := SplitWrites(kind, format, testSplit, filename, order, k, dir);
            && |ws| == 1 && ws[0].path == dir + [filename]
            && |ws[0].entries| == (if k == 0 then |order| else Min(-k, |order|))
            && ws[0].entries == order[|order| - |ws[0].entries|..]
  {
  }

  /** `output_path / str(i)` when there is a test split, else `output_path` itself. */
  function SplitDir(config: Config, i: nat): (d: Path)
    ensures |config.outputPath| <= |d| && d[..|config.outputPath|] == config.outputPath
    ensures config.testSplit > 0.0 ==> Parent(d) == config.outputPath && Name(d) == Decimal(i)
    ensures config.testSplit <= 0.0 ==> d == config.outputPath
  {
    if config.testSplit > 0.0 then config.outputPath + [Decimal(i)] else config.outputPath
  }

  /** The outputs of split `i` of one file: the FASTA/FASTQ files first, then the DBs. */
  function SplitOutputs(kind: Kind, config: Config, filename: string, order: seq<Entry>, k: int, i: nat): seq<Write> {
    (if config.outputFastaFastq then SplitWrites(kind, Text, config.testSplit, filename, order, k, SplitDir(config, i)) else [])
    + (if config.outputDb then SplitWrites(kind, Db, config.testSplit, filename, order, k, SplitDir(config, i)) else [])
  }

  /**
   * With both output types selected, a split writes its DB to the very path
   * its FASTA/FASTQ file was written to: the test DB over the test file and
   * the train DB over the train file.
   */
  lemma TextAndDbSamePath(kind: Kind, config: Config, filename: string, order: seq<Entry>, k: int, i: nat)
    requires config.outputFastaFastq && config.outputDb
    ensures var ws := SplitOutputs(kind, config, filename, order, k, i);
            && (config.testSplit > 0.0 ==>
                  |ws| == 4 && ws[0].format == Text && ws[2].format == Db
                  && ws[2].path == ws[0].path && ws[3].path == ws[1].path && ws[0].path != ws[1].path)
            && (config.testSplit <= 0.0 ==>
                  |ws| == 2 && ws[0].format == Text && ws[1].format == Db && ws[1].path == ws[0].path)
  {
    var dir := SplitDir(config, i);
    if config.testSplit > 0.0 {
      var t := dir + ["test", filename];
      var r := dir + ["train", filename];
      assert t[|dir|] != r[|dir|];
    }
  }

  /** The outputs of one file over its splits; `orders[i]` is the entry list after the `i`-th shuffle. */
  function FileOutputs(kind: Kind, config: Config, filename: string, orders: seq<seq<Entry>>, k: int): seq<Write> {
    if orders == [] then []
    else
      var n := |orders| - 1;
      FileOutputs(kind, config, filename, orders[..n], k) + SplitOutputs(kind, config, filename, orders[n], k, n)
  }

  /** The outputs of `process_fasta_files` / `process_fastq_files`; `orders[j]` are the shuffles of `files[j]`. */
  function Outputs(kind: Kind, config: Config, files: seq<Path>, contents: map<Path, seq<Entry>>, orders: seq<seq<seq<Entry>>>): seq<Write>
    requires |orders| == |files|
    requires forall f :: f in files ==> f in contents
  {
    if files == [] then []
    else
      var n := |files| - 1;
      Outputs(kind, config, files[..n], contents, orders[..n])
      + FileOutputs(kind, config, OutputFilename(Name(files[n])), orders[n], SplitIndex(|contents[files[n]]|, config.testSplit))
  }

  /** `range(num_splits)` has this many elements. */
  function Runs(config: Config): nat {
    if config.numSplits < 0 then 0 else config.numSplits
  }

  // ---------------------------------------------------------------- shuffles

  /**
   * `orders` are the states of a list that starts as `start` and is shuffled
   * in place once per split: each is a permutation of the one before.
   */
  ghost predicate Shuffles(orders: seq<seq<Entry>>, start: seq<Entry>, runs: nat) {
    |orders| == runs
    && (|orders| > 0 ==> multiset(orders[0]) == multiset(start))
    && forall i, j :: 0 <= i && j == i + 1 && j < |orders| ==> multiset(orders[j]) == multiset(orders[i])
  }

  /** One more shuffle, a permutation of the latest order, extends the shuffles. */
  lemma ShufflesSnoc(orders: seq<seq<Entry>>, start: seq<Entry>, i: nat, x: seq<Entry>)
    requires Shuffles(orders, start, i)
    requires multiset(x) == multiset(if i == 0 then start else orders[i - 1])
    ensures Shuffles(orders + [x], start, i + 1)
  {
    var o := orders + [x];
    forall p, q | 0 <= p && q == p + 1 && q < |o|
      ensures multiset(o[q]) == multiset(o[p])
    {
      if q < i {
        assert o[q] == orders[q] && o[p] == orders[p];
      }
    }
  }

  /** Repeated shuffling only permutes: every split sees exactly the entries of the file. */
  lemma ShufflesKeepEntries(orders: seq<seq<Entry>>, start: seq<Entry>, runs: nat)
    requires Shuffles(orders, start, runs)
    ensures forall i :: 0 <= i < |orders| ==> multiset(orders[i]) == multiset(start) && |orders[i]| == |start|
  {
    forall i | 0 <= i < |orders| ensures multiset(orders[i]) == multiset(start) && |orders[i]| == |start| {
      ShuffleAt(orders, start, runs, i);
      assert |multiset(orders[i])| == |orders[i]|;
    }
  }

  lemma {:induction false} ShuffleAt(orders: seq<seq<Entry>>, start: seq<Entry>, runs: nat, i: nat)
    requires Shuffles(orders, start, runs) && i < |orders|
    ensures multiset(orders[i]) == multiset(start)
  {
    if i > 0 {
      assert multiset(orders[i]) == multiset(orders[i - 1]);
      ShuffleAt(orders, start, runs, i - 1);
    }
  }

  /** `orders[j]` are the shuffles of the entries of `inputs[j]`, for every input file. */
  ghost predicate FilesShuffled(kind: Kind, config: Config, bases: set<char>, inputs: seq<Path>, contents: map<Path, seq<Entry>>,
                                orders: seq<seq<seq<Entry>>>)
    decreases |inputs|
  {
    |orders| == |inputs|
    && (inputs != [] ==>
          var n := |inputs| - 1;
          && inputs[n] in contents
          && Shuffles(orders[n], Prepared(kind, config, bases, contents[inputs[n]]), Runs(config))
          && FilesShuffled(kind, config, bases, inputs[..n], contents, orders[..n]))
  }

  lemma FilesShuffledStep(kind: Kind, config: Config, bases: set<char>, inputs: seq<Path>, contents: map<Path, seq<Entry>>,
                          orders: seq<seq<seq<Entry>>>, j: nat, o: seq<seq<Entry>>)
    requires j < |inputs| && inputs[j] in contents
    requires FilesShuffled(kind, config, bases, inputs[..j], contents, orders)
    requires Shuffles(o, Prepared(kind, config, bases, contents[inputs[j]]), Runs(config))
    ensures FilesShuffled(kind, config, bases, inputs[..j + 1], contents, orders + [o])
  {
    assert inputs[..j + 1][..j] == inputs[..j];
    assert (orders + [o])[..j] == orders;
  }

  /** Every input file's shuffles, one by one. */
  lemma {:induction false} FilesShuffledEach(kind: Kind, config: Config, bases: set<char>, inputs: seq<Path>,
                                             contents: map<Path, seq<Entry>>, orders: seq<seq<seq<Entry>>>)
    requires FilesShuffled(kind, config, bases, inputs, contents, orders)
    ensures |orders| == |inputs|
    ensures forall j :: 0 <= j < |inputs| ==>
              inputs[j] in contents && Shuffles(orders[j], Prepared(kind, config, bases, contents[inputs[j]]), Runs(config))
    decreases |inputs|
  {
    if inputs != [] {
      var n := |inputs| - 1;
      FilesShuffledEach(kind, config, bases, inputs[..n], contents, orders[..n]);
    }
  }

  // ---------------------------------------------------------------- the returned file list

  /** The FASTA/FASTQ files among the outputs, in order: the list returned and later compressed. */
  function TextPaths(ws: seq<Write>): seq<Path> {
    if ws == [] then []
    else
      var n := |ws| - 1;
      TextPaths(ws[..n]) + (if ws[n].format == Text then [ws[n].path] else [])
  }

  lemma {:induction false} TextPathsAppend(a: seq<Write>, b: seq<Write>)
    ensures TextPaths(a + b) == TextPaths(a) + TextPaths(b)
    decreases |b|
  {
    if b == [] {
      assert a + b == a;
    } else {
      var n := |b| - 1;
      assert (a + b)[..|a| + n] == a + b[..n] && (a + b)[|a| + n] == b[n];
      TextPathsAppend(a, b[..n]);
    }
  }

  /** Files listed per file and split: two with a test split, one without, none when only DBs are written. */
  function PerSplit(config: Config): nat {
    if !config.outputFastaFastq then 0 else if config.testSplit > 0.0 then 2 else 1
  }

  lemma TextPathsOne(w: Write)
    ensures TextPaths([w]) == if w.format == Text then [w.path] else []
  {
    assert [w][..0] == [];
  }

  /** A FASTA/FASTQ file split lists its test file and then its train file; a DB split lists nothing. */
  lemma SplitWritesListed(kind: Kind, format: Format, testSplit: real, filename: string, order: seq<Entry>, k: int, dir: Path)
    ensures TextPaths(SplitWrites(kind, format, testSplit, filename, order, k, dir))
            == if format == Db then []
               else if testSplit > 0.0 then [dir + ["test", filename], dir + ["train", filename]]
               else [dir + [filename]]
  {
    var ws := SplitWrites(kind, format, testSplit, filename, order, k, dir);
    TextPathsOne(ws[0]);
    if testSplit > 0.0 {
      assert ws == [ws[0]] + [ws[1]];
      TextPathsAppend([ws[0]], [ws[1]]);
      TextPathsOne(ws[1]);
    }
  }

  /**
   * Split `i` lists `dir/test/<filename>` and then `dir/train/<filename>`
   * (only `dir/<filename>` without a test split); DB outputs add nothing.
   */
  lemma SplitListedFiles(kind: Kind, config: Config, filename: string, order: seq<Entry>, k: int, i: nat)
    ensures var dir := SplitDir(config, i);
            TextPaths(SplitOutputs(kind, config, filename, order, k, i))
            == if !config.outputFastaFastq then []
               else if config.testSplit > 0.0 then [dir + ["test", filename], dir + ["train", filename]]
               else [dir + [filename]]
  {
    var dir := SplitDir(config, i);
    var t := if config.outputFastaFastq then SplitWrites(kind, Text, config.testSplit, filename, order, k, dir) else [];
    var d := if config.outputDb then SplitWrites(kind, Db, config.testSplit, filename, order, k, dir) else [];
    TextPathsAppend(t, d);
    SplitWritesListed(kind, Text, config.testSplit, filename, order, k, dir);
    SplitWritesListed(kind, Db, config.testSplit, filename, order, k, dir);
  }

  lemma SplitListedCount(kind: Kind, config: Config, filename: string, order: seq<Entry>, k: int, i: nat)
    ensures |TextPaths(SplitOutputs(kind, config, filename, order, k, i))| == PerSplit(config)
  {
    SplitListedFiles(kind, config, filename, order, k, i);
  }

  /** One file lists `PerSplit` files per split. */
  lemma {:induction false} FileListedCount(kind: Kind, config: Config, filename: string, orders: seq<seq<Entry>>, k: int)
    ensures |TextPaths(FileOutputs(kind, config, filename, orders, k))| == |orders| * PerSplit(config)
  {
    if orders != [] {
      var n := |orders| - 1;
      var a := FileOutputs(kind, config, filename, orders[..n], k);
      var b := SplitOutputs(kind, config, filename, orders[n], k, n);
      assert FileOutputs(kind, config, filename, orders, k) == a + b;
      FileListedCount(kind, config, filename, orders[..n], k);
      TextPathsAppend(a, b);
      SplitListedCount(kind, config, filename, orders[n], k, n);
      MulStep(n, PerSplit(config));
    }
  }

  /** One more factor `n + 1` adds one more `p`. */
  lemma MulStep(n: nat, p: nat)
    ensures (n + 1) * p == n * p + p
  {
  }

  /** The list returned grows by `PerSplit` entries per input file per split. */
  lemma {:induction false} ListedCount(kind: Kind, config: Config, files: seq<Path>, contents: map<Path, seq<Entry>>, orders: seq<seq<seq<Entry>>>)
    requires |orders| == |files|
    requires forall f :: f in files ==> f in contents
    requires forall j :: 0 <= j < |orders| ==> |orders[j]| == Runs(config)
    ensures |TextPaths(Outputs(kind, config, files, contents, orders))| == |files| * (Runs(config) * PerSplit(config))
  {
    if files != [] {
      var n := |files| - 1;
      var perFile := Runs(config) * PerSplit(config);
      assert forall f :: f in files[..n] ==> f in files;
      var filename := OutputFilename(Name(files[n]));
      var k := SplitIndex(|contents[files[n]]|, config.testSplit);
      var a := Outputs(kind, config, files[..n], contents, orders[..n]);
      var b := FileOutputs(kind, config, filename, orders[n], k);
      assert Outputs(kind, config, files, contents, orders) == a + b;
      ListedCount(kind, config, files[..n], contents, orders[..n]);
      assert |TextPaths(a)| == n * perFile;
      TextPathsAppend(a, b);
      FileListedCount(kind, config, filename, orders[n], k);
      assert |TextPaths(b)| == perFile;
      MulStep(n, perFile);
    }
  }

  // ---------------------------------------------------------------- directory layout

  /** The directories `main` creates in iteration `i` of its loop. */
  function SplitDirsAt(config: Config, i: nat): set<Path> {
    if config.testSplit > 0.0 then Ancestors(SplitDir(config, i) + ["test"]) + Ancestors(SplitDir(config, i) + ["train"])
    else Ancestors(config.outputPath)
  }

  /** The directories `main` creates for splits `0 .. n-1`. */
  function SplitDirs(config: Config, n: nat): set<Path> {
    if n == 0 then {} else SplitDirs(config, n - 1) + SplitDirsAt(config, n - 1)
  }

  /** A directory created for split `i` is among those created for the first `i + 1` splits. */
  lemma InSplitDirsLast(config: Config, i: nat, d: Path)
    requires d in SplitDirsAt(config, i)
    ensures d in SplitDirs(config, i + 1)
  {
    assert d in SplitDirs(config, i) + SplitDirsAt(config, i);
  }

  /** The directories created for the first `m` splits are among those created for the first `n >= m`. */
  lemma {:induction false} SplitDirsGrow(config: Config, m: nat, n: nat, d: Path)
    requires m <= n && d in SplitDirs(config, m)
    ensures d in SplitDirs(config, n)
    decreases n - m
  {
    if m < n {
      assert d in SplitDirs(config, m) + SplitDirsAt(config, m);
      SplitDirsGrow(config, m + 1, n, d);
    }
  }

  /** A directory created for split `i` is among those created for the first `n > i` splits. */
  lemma InSplitDirs(config: Config, i: nat, n: nat, d: Path)
    requires i < n && d in SplitDirsAt(config, i)
    ensures d in SplitDirs(config, n)
  {
    InSplitDirsLast(config, i, d);
    SplitDirsGrow(config, i + 1, n, d);
  }

  /** Each output of split `i` goes into a directory created for split `i`. */
  lemma SplitWritesLand(kind: Kind, format: Format, config: Config, filename: string, order: seq<Entry>, k: int, i: nat)
    ensures forall w :: w in SplitWrites(kind, format, config.testSplit, filename, order, k, SplitDir(config, i)) ==> Parent(w.path) in SplitDirsAt(config, i)
  {
    var dir := SplitDir(config, i);
    if config.testSplit > 0.0 {
      assert Parent(dir + ["test", filename]) == dir + ["test"];
      assert Parent(dir + ["train", filename]) == dir + ["train"];
    } else {
      assert Parent(dir + [filename]) == dir;
    }
  }

  /** Every output of split `i < n` goes into a directory created for the first `n` splits. */
  lemma SplitOutputsLand(kind: Kind, config: Config, filename: string, order: seq<Entry>, k: int, i: nat, n: nat)
    requires i < n
    ensures forall w :: w in SplitOutputs(kind, config, filename, order, k, i) ==> Parent(w.path) in SplitDirs(config, n)
  {
    SplitWritesLand(kind, Text, config, filename, order, k, i);
    SplitWritesLand(kind, Db, config, filename, order, k, i);
    forall w | w in SplitOutputs(kind, config, filename, order, k, i)
      ensures Parent(w.path) in SplitDirs(config, n)
    {
      InSplitDirs(config, i, n, Parent(w.path));
    }
  }

  lemma {:induction false} FileOutputsLand(kind: Kind, config: Config, filename: string, orders: seq<seq<Entry>>, k: int, n: nat)
    requires |orders| <= n
    ensures forall w :: w in FileOutputs(kind, config, filename, orders, k) ==> Parent(w.path) in SplitDirs(config, n)
  {
    if orders != [] {
      var m := |orders| - 1;
      FileOutputsLand(kind, config, filename, orders[..m], k, n);
      SplitOutputsLand(kind, config, filename, orders[m], k, m, n);
    }
  }

  /** Everything a run writes lands in a directory that `main` created before processing. */
  lemma {:induction false} OutputsLand(kind: Kind, config: Config, files: seq<Path>, contents: map<Path, seq<Entry>>, orders: seq<seq<seq<Entry>>>)
    requires |orders| == |files|
    requires forall f :: f in files ==> f in contents
    requires forall j :: 0 <= j < |orders| ==> |orders[j]| == Runs(config)
    ensures forall w :: w in Outputs(kind, config, files, contents, orders) ==> Parent(w.path) in SplitDirs(config, Runs(config))
  {
    if files != [] {
      var n := |files| - 1;
      assert forall f :: f in files[..n] ==> f in files;
      OutputsLand(kind, config, files[..n], contents, orders[..n]);
      FileOutputsLand(kind, config, OutputFilename(Name(files[n])), orders[n], SplitIndex(|contents[files[n]]|, config.testSplit), Runs(config));
    }
  }

  // ---------------------------------------------------------------- one loop pass at a time

  /** Concatenation regroups freely. */
  lemma AppendAssoc<T>(a: seq<T>, b: seq<T>, c: seq<T>)
    ensures (a + b) + c == a + (b + c)
  {
  }

  /** One more split adds its outputs after those of the earlier splits. */
  lemma FileOutputsSnoc(kind: Kind, config: Config, filename: string, orders: seq<seq<Entry>>, x: seq<Entry>, k: int)
    ensures FileOutputs(kind, config, filename, orders + [x], k)
            == FileOutputs(kind, config, filename, orders, k) + SplitOutputs(kind, config, filename, x, k, |orders|)
  {
    assert (orders + [x])[..|orders|] == orders;
  }

  /** One more input file adds its outputs after those of the earlier files, and lists its text files after theirs. */
  lemma OutputsStep(kind: Kind, config: Config, inputs: seq<Path>, contents: map<Path, seq<Entry>>, orders: seq<seq<seq<Entry>>>,
                    j: nat, o: seq<seq<Entry>>, base: seq<Write>)
    requires j < |inputs| && |orders| == j
    requires forall g :: g in inputs ==> g in contents
    ensures base + Outputs(kind, config, inputs[..j + 1], contents, orders + [o])
            == (base + Outputs(kind, config, inputs[..j], contents, orders))
               + FileOutputs(kind, config, OutputFilename(Name(inputs[j])), o, SplitIndex(|contents[inputs[j]]|, config.testSplit))
    ensures TextPaths(Outputs(kind, config, inputs[..j + 1], contents, orders + [o]))
            == TextPaths(Outputs(kind, config, inputs[..j], contents, orders))
               + TextPaths(FileOutputs(kind, config, OutputFilename(Name(inputs[j])), o, SplitIndex(|contents[inputs[j]]|, config.testSplit)))
  {
    var files := inputs[..j];
    var f := inputs[j];
    assert inputs[..j + 1] == files + [f];
    assert (files + [f])[..j] == files;
    assert (orders + [o])[..j] == orders;
    var done := Outputs(kind, config, files, contents, orders);
    var fileOut := FileOutputs(kind, config, OutputFilename(Name(f)), o, SplitIndex(|contents[f]|, config.testSplit));
    AppendAssoc(base, done, fileOut);
    TextPathsAppend(done, fileOut);
  }

  /** The outcome of `main`'s checks: the first failing option check, else the first bad data file. */
  function Validate(config: Config, parentExists: bool, existing: set<Path>): Option<Failure> {
    match CheckOptions(config, parentExists)
    case Some(f) => Some(f)
    case None =>
      match Classify(config.dataFiles, existing)
      case Rejected(f) => Some(f)
      case Sorted(_, _) => None
  }
}
