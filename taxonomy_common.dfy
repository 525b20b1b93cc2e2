/**
 * The helpers the taxonomy scripts share (`scripts/taxonomy/_common.py`):
 * the `--distribution` choices, the input and output directory layout, the
 * filter that finds the FASTA files still lacking a `.tax.tsv` result, the
 * two-lines-per-record FASTA reader and the TSV writer.
 *
 * A file's content is a string and a directory's listing a set of names.
 */
module TaxonomyCommon {
  import opened Optional
  import opened PyText
  import opened FsPaths

  // ---------------------------------------------------------------- arguments and paths

  /** The two values `--distribution` accepts. */
  datatype Distribution = PresenceAbsence | Natural

  function DistributionName(d: Distribution): string {
    match d
    case PresenceAbsence => "presence-absence"
    case Natural => "natural"
  }

  /** argparse's `choices` check: any other value is refused. */
  function ParseDistribution(s: string): (r: Option<Distribution>)
    ensures r.Some? ==> DistributionName(r.value) == s
    ensures forall d :: s == DistributionName(d) ==> r == Some(d)
  {
    if s == "presence-absence" then Some(PresenceAbsence)
    else if s == "natural" then Some(Natural)
    else None
  }

  /** The directory `find_fastas_to_process` lists: `synthetic/dataset/classifier/test-<distribution>`. */
  function InputDir(syntheticDataPath: Path, dataset: string, syntheticClassifier: string, distribution: string): Path {
    syntheticDataPath + [dataset, syntheticClassifier, "test-" + distribution]
  }

  /** The directory `make_output_path` returns: `output/dataset/classifier/<distribution>`. */
  function OutputDir(outputPath: Path, dataset: string, syntheticClassifier: string, distribution: string): Path {
    outputPath + [dataset, syntheticClassifier, distribution]
  }

  /**
   * Whatever the two roots, the results never land in the directory the
   * FASTA files are read from: paths of equal length end in `test-<d>` and
   * `<d>`, which differ in length.
   */
  lemma InputAndOutputDiffer(syntheticDataPath: Path, outputPath: Path, dataset: string, syntheticClassifier: string, distribution: string)
    ensures InputDir(syntheticDataPath, dataset, syntheticClassifier, distribution) != OutputDir(outputPath, dataset, syntheticClassifier, distribution)
  {
    var i := InputDir(syntheticDataPath, dataset, syntheticClassifier, distribution);
    var o := OutputDir(outputPath, dataset, syntheticClassifier, distribution);
    if |i| == |o| {
      assert |i[|i| - 1]| != |o[|o| - 1]|;
    }
  }

  /**
   * The directories as `make_output_path` sees them. The current directory
   * (the empty path) always exists.
   */
  class DirTree {
    var dirs: set<Path>

    constructor (dirs: set<Path>)
      ensures this.dirs == dirs
    {
      this.dirs := dirs;
    }

    /**
     * `p.exists()` for a directory: a listed directory, any directory above
     * one, or the current directory.
     */
    predicate IsDir(p: Path)
      reads this
    {
      p == [] || p in dirs || exists d :: d in dirs && Below(p, d)
    }

    /** Whatever is a directory has every directory above it. */
    lemma IsDirAbove(q: Path)
      requires IsDir(q)
      ensures forall k :: 0 <= k <= |q| ==> IsDir(q[..k])
    {
      forall k | 0 <= k <= |q|
        ensures IsDir(q[..k])
      {
        if k < |q| && q != [] {
          if q in dirs {
            assert Below(q[..k], q);
          } else {
            var d :| d in dirs && Below(q, d);
            assert d[..k] == q[..k];
            assert Below(q[..k], d);
          }
        } else if k == |q| {
          assert q[..k] == q;
        }
      }
    }

    /**
     * `make_output_path`: `output_path.mkdir(exist_ok=True)` fails when the
     * parent of `output_path` does not exist; otherwise the output directory
     * is created with all its ancestors and returned.
     */
    method MakeOutputPath(outputPath: Path, dataset: string, syntheticClassifier: string, distribution: string) returns (r: Option<Path>)
      modifies this
      ensures r.Some? <==> old(IsDir(outputPath) || IsDir(Parent(outputPath)))
      ensures r.Some? ==> r.value == OutputDir(outputPath, dataset, syntheticClassifier, distribution)
                          && dirs == old(dirs) + Ancestors(r.value)
      ensures r.None? ==> dirs == old(dirs)
    {
      if !(IsDir(outputPath) || IsDir(Parent(outputPath))) {
        return None;
      }
      dirs := dirs + {outputPath};
      var out := outputPath + [dataset, syntheticClassifier, distribution];
      assert out[..|outputPath|] == outputPath;
      dirs := dirs + Ancestors(out);
      return Some(out);
    }
  }

  // ---------------------------------------------------------------- the pending-file filter

  /** `s.rfind(c)`: the index of the last occurrence of `c`, or -1. */
  function RFind(s: string, c: char): (i: int)
    ensures -1 <= i < |s|
    ensures 0 <= i ==> s[i] == c
    ensures forall j :: i < j < |s| ==> s[j] != c
  {
    if s == [] then -1 else if s[|s| - 1] == c then |s| - 1 else RFind(s[..|s| - 1], c)
  }

  /** pathlib's `suffix` of a name: from its last dot, unless that dot starts or ends the name. */
  function Suffix(name: string): (s: string)
    ensures s == [] || (s[0] == '.' && EndsWith(name, s) && |s| < |name|)
  {
    var i := RFind(name, '.');
    if 0 < i < |name| - 1 then name[i..] else ""
  }

  /** pathlib's `with_suffix(suffix).name`: the suffix replaced, or appended when there is none. */
  function WithSuffix(name: string, suffix: string): string {
    var current := Suffix(name);
    if current == [] then name + suffix else name[..|name| - |current|] + suffix
  }

  const FastaExt := ".fasta"
  const TaxTsvExt := ".tax.tsv"

  /** The result file that belongs to a FASTA file. */
  function Counterpart(name: string): string {
    WithSuffix(name, TaxTsvExt)
  }

  /**
   * For a FASTA name with a non-empty stem, `.fasta` is replaced by
   * `.tax.tsv`; the name `.fasta` alone has no suffix in pathlib's sense and
   * gets `.tax.tsv` appended.
   */
  lemma CounterpartOfFasta(name: string)
    requires EndsWith(name, FastaExt)
    ensures |name| > |FastaExt| ==> Counterpart(name) == name[..|name| - |FastaExt|] + TaxTsvExt
    ensures |name| == |FastaExt| ==> Counterpart(name) == FastaExt + TaxTsvExt
  {
    var n := |name|;
    var i := RFind(name, '.');
    assert name[n - 6] == '.';
    assert forall j :: n - 6 < j < n ==> name[j] == FastaExt[j - (n - 6)];
    assert i == n - 6;
  }

  /** Every counterpart is a `.tax.tsv` name. */
  lemma CounterpartIsTaxTsv(name: string)
    ensures EndsWith(Counterpart(name), TaxTsvExt)
  {
    var c := Counterpart(name);
    assert c[|c| - |TaxTsvExt|..] == TaxTsvExt;
  }

  /** Two FASTA files with non-empty stems never share a result file. */
  lemma CounterpartInjective(a: string, b: string)
    requires EndsWith(a, FastaExt) && |a| > |FastaExt|
    requires EndsWith(b, FastaExt) && |b| > |FastaExt|
    requires Counterpart(a) == Counterpart(b)
    ensures a == b
  {
    CounterpartOfFasta(a);
    CounterpartOfFasta(b);
    SameEnding(a[..|a| - |FastaExt|], b[..|b| - |FastaExt|], TaxTsvExt);
    StemAndExtension(a, FastaExt);
    StemAndExtension(b, FastaExt);
  }

  lemma StemAndExtension(s: string, ext: string)
    requires EndsWith(s, ext)
    ensures s == s[..|s| - |ext|] + ext
  {
  }

  lemma SameEnding(x: string, y: string, t: string)
    requires x + t == y + t
    ensures x == y
  {
    assert |x| == |y|;
    assert x == (x + t)[..|x|];
    assert y == (y + t)[..|y|];
  }

  /** Without the non-empty stem this fails: `.fasta` and `.fasta.fasta` share a result file. */
  lemma CounterpartCollision()
    ensures Counterpart(".fasta") == Counterpart(".fasta.fasta")
  {
    CounterpartOfFasta(".fasta");
    CounterpartOfFasta(".fasta.fasta");
    assert ".fasta.fasta"[..6] == ".fasta";
  }

  /** The names in the output listing that end in `.tax.tsv`. */
  function TaxTsvNames(outputNames: set<string>): set<string> {
    set n | n in outputNames && EndsWith(n, TaxTsvExt)
  }

  /**
   * The names `find_fastas_to_process` keeps: FASTA names whose result file
   * is not yet listed. Output names with other endings make no difference.
   */
  function PendingNames(inputNames: set<string>, outputNames: set<string>): (r: set<string>)
    ensures forall n :: n in r <==> n in inputNames && EndsWith(n, FastaExt) && Counterpart(n) !in outputNames
  {
    var existing := TaxTsvNames(outputNames);
    var r := set n | n in inputNames && EndsWith(n, FastaExt) && Counterpart(n) !in existing;
    forall n | n in inputNames
      ensures Counterpart(n) in existing <==> Counterpart(n) in outputNames
    {
      CounterpartIsTaxTsv(n);
    }
    r
  }

  /** `find_fastas_to_process`: the pending FASTA files, as paths inside the input directory. */
  function FindFastasToProcess(syntheticDataPath: Path, dataset: string, syntheticClassifier: string, distribution: string,
                               inputNames: set<string>, outputNames: set<string>): (r: set<Path>)
    ensures forall p :: p in r ==> p != [] && Parent(p) == InputDir(syntheticDataPath, dataset, syntheticClassifier, distribution)
    ensures forall n :: InputDir(syntheticDataPath, dataset, syntheticClassifier, distribution) + [n] in r
                        <==> n in PendingNames(inputNames, outputNames)
  {
    var dir := InputDir(syntheticDataPath, dataset, syntheticClassifier, distribution);
    var r := set n | n in PendingNames(inputNames, outputNames) :: dir + [n];
    assert forall n :: dir + [n] in r ==> n in PendingNames(inputNames, outputNames) by {
      forall n | dir + [n] in r ensures n in PendingNames(inputNames, outputNames) {
        var m :| m in PendingNames(inputNames, outputNames) && dir + [m] == dir + [n];
        assert (dir + [m])[|dir|] == m;
      }
    }
    r
  }

  /** Once the result of every pending FASTA file is written, no FASTA file is pending. */
  lemma NothingPendingAfterWriting(inputNames: set<string>, outputNames: set<string>)
    ensures PendingNames(inputNames, outputNames + set n | n in PendingNames(inputNames, outputNames) :: Counterpart(n)) == {}
  {
  }

  // ---------------------------------------------------------------- reading FASTA records

  datatype Record = Record(identifier: string, sequence: string)

  /** The records yielded, and whether reading stopped on a header without an identifier (an IndexError). */
  datatype Reading = Reading(records: seq<Record>, failed: bool)

  /** `s[1:]` */
  function Tail(s: string): string {
    if s == [] then [] else s[1..]
  }

  /**
   * What `read_fasta` takes from a line: read as a header, the first token
   * after its first character (none when there is no token); read as a
   * sequence line, the line stripped.
   */
  datatype LineView = LineView(identifier: Option<string>, stripped: string)

  function View(line: string): LineView {
    LineView(FirstToken(Tail(line)), Strip(line))
  }

  function Views(lines: seq<string>): (vs: seq<LineView>)
    ensures |vs| == |lines|
  {
    if lines == [] then [] else [View(lines[0])] + Views(lines[1..])
  }

  lemma {:induction false} ViewsAt(lines: seq<string>, k: nat)
    requires k < |lines|
    ensures Views(lines)[k] == View(lines[k])
  {
    if k > 0 {
      ViewsAt(lines[1..], k - 1);
    }
  }

  /**
   * What `read_fasta` yields from the lines of a file, as viewed: a header
   * gives the identifier, the next line the sequence; when the file ends
   * right after a header the sequence is empty, and a header without an
   * identifier stops reading with an error.
   */
  function ParseViews(vs: seq<LineView>): Reading
    decreases |vs|
  {
    if vs == [] then Reading([], false)
    else
      match vs[0].identifier
      case None => Reading([], true)
      case Some(identifier) =>
        var sequence := if |vs| > 1 then vs[1].stripped else "";
        var rest := ParseViews(if |vs| > 1 then vs[2..] else []);
        Reading([Record(identifier, sequence)] + rest.records, rest.failed)
  }

  /** `read_fasta` on a file whose `readline` results are `lines`. */
  function ParseFasta(lines: seq<string>): Reading {
    ParseViews(Views(lines))
  }

  /** The number of records: one per header read; on failure the bad header is the next one. */
  lemma {:induction false} ParseViewsCount(vs: seq<LineView>)
    ensures !ParseViews(vs).failed ==> |vs| <= 2 * |ParseViews(vs).records| <= |vs| + 1
    ensures ParseViews(vs).failed ==> 2 * |ParseViews(vs).records| < |vs| && vs[2 * |ParseViews(vs).records|].identifier.None?
    decreases |vs|
  {
    if vs != [] && vs[0].identifier.Some? && |vs| > 1 {
      ParseViewsCount(vs[2..]);
      var r := ParseViews(vs[2..]);
      if r.failed {
        assert vs[2 * (|r.records| + 1)] == vs[2..][2 * |r.records|];
      }
    }
  }

  /** Record `j` comes from views `2j` and `2j + 1`. */
  lemma {:induction false} ParseViewsRecord(vs: seq<LineView>, j: nat)
    requires j < |ParseViews(vs).records|
    ensures 2 * j < |vs|
    ensures vs[2 * j].identifier == Some(ParseViews(vs).records[j].identifier)
    ensures ParseViews(vs).records[j].sequence == if 2 * j + 1 < |vs| then vs[2 * j + 1].stripped else ""
    decreases |vs|
  {
    var r := ParseViews(vs);
    assert vs != [] && vs[0].identifier.Some?;
    var rest := ParseViews(if |vs| > 1 then vs[2..] else []);
    assert r.records == [Record(vs[0].identifier.value, if |vs| > 1 then vs[1].stripped else "")] + rest.records;
    if j > 0 {
      assert |vs| > 1;
      var tail := vs[2..];
      assert r.records[j] == rest.records[j - 1];
      ParseViewsRecord(tail, j - 1);
      assert vs[2 * j] == tail[2 * (j - 1)];
      assert 2 * j + 1 < |vs| ==> vs[2 * j + 1] == tail[2 * (j - 1) + 1];
    }
  }

  /**
   * Reading stops at end of file with one record per pair of lines (the
   * last line may be a lone header), or at the first header without an
   * identifier, which sits right after the records yielded.
   */
  lemma ParseFastaCount(lines: seq<string>)
    ensures !ParseFasta(lines).failed ==> |lines| <= 2 * |ParseFasta(lines).records| <= |lines| + 1
    ensures ParseFasta(lines).failed ==>
              2 * |ParseFasta(lines).records| < |lines| && AllSpace(Tail(lines[2 * |ParseFasta(lines).records|]))
  {
    ParseViewsCount(Views(lines));
    if ParseFasta(lines).failed {
      var k := 2 * |ParseFasta(lines).records|;
      ViewsAt(lines, k);
      FirstTokenIsFirstWord(Tail(lines[k]));
    }
  }

  /**
   * Record `j` is read from lines `2j` and `2j + 1`: the identifier is the
   * first token of the header after its first character, and the sequence is
   * the next line stripped, or empty when the header is the last line.
   */
  lemma ParseFastaRecord(lines: seq<string>, j: nat)
    requires j < |ParseFasta(lines).records|
    ensures 2 * j < |lines|
    ensures FirstToken(Tail(lines[2 * j])) == Some(ParseFasta(lines).records[j].identifier)
    ensures ParseFasta(lines).records[j].sequence == if 2 * j + 1 < |lines| then Strip(lines[2 * j + 1]) else ""
  {
    ParseViewsRecord(Views(lines), j);
    ViewsAt(lines, 2 * j);
    if 2 * j + 1 < |lines| {
      ViewsAt(lines, 2 * j + 1);
    }
  }

  /** Identifiers are non-empty and hold no whitespace, so neither a tab nor a newline. */
  lemma IdentifiersHaveNoSpace(lines: seq<string>)
    ensures forall j :: 0 <= j < |ParseFasta(lines).records| ==>
              ParseFasta(lines).records[j].identifier != [] && NoSpace(ParseFasta(lines).records[j].identifier)
  {
    forall j | 0 <= j < |ParseFasta(lines).records|
      ensures ParseFasta(lines).records[j].identifier != [] && NoSpace(ParseFasta(lines).records[j].identifier)
    {
      ParseFastaRecord(lines, j);
      FirstTokenIsFirstWord(Tail(lines[2 * j]));
    }
  }

  /** A file whose line count is odd and that reads cleanly ends with a record whose sequence is empty. */
  lemma OddTrailingHeader(lines: seq<string>)
    requires |lines| % 2 == 1 && !ParseFasta(lines).failed
    ensures ParseFasta(lines).records != []
    ensures ParseFasta(lines).records[|ParseFasta(lines).records| - 1].sequence == ""
  {
    var r := |ParseFasta(lines).records|;
    ParseFastaCount(lines);
    assert 2 * r == |lines| + 1;
    ParseFastaRecord(lines, r - 1);
  }

  /** A blank line where a header is expected stops reading with an error, whatever follows. */
  lemma BlankHeaderFails(rest: seq<string>)
    ensures ParseFasta(["\n"] + rest) == Reading([], true)
  {
    assert Tail("\n") == "";
    ViewsCons("\n", rest);
  }

  /** The views of a header followed by more lines. */
  lemma ViewsCons(header: string, rest: seq<string>)
    ensures Views([header] + rest) == [View(header)] + Views(rest)
  {
    assert ([header] + rest)[1..] == rest;
  }

  /** An open text file: its content and the position `readline` continues from. */
  class TextFile {
    const content: string
    var pos: nat

    constructor (content: string)
      ensures this.content == content && pos == 0
    {
      this.content := content;
      pos := 0;
    }

    predicate Valid()
      reads this
    {
      pos <= |content|
    }

    /** What is left to read. */
    function Rest(): string
      reads this
      requires Valid()
    {
      content[pos..]
    }

    /** `readline()`: the next line with its '\n', or "" at end of file. */
    method ReadLine() returns (line: string)
      requires Valid()
      modifies this
      ensures Valid()
      ensures line == [] <==> old(Rest()) == []
      ensures Lines(old(Rest())) == if line == [] then [] else [line] + Lines(Rest())
      ensures |old(Rest())| == |line| + |Rest()|
    {
      var s := content[pos..];
      var n := LineLength(s);
      line := s[..n];
      LinesStep(s);
      assert s[n..] == content[pos + n..];
      pos := pos + n;
    }
  }

  /** The records `ParseViews` has still to produce, following those already yielded. */
  function Continue(records: seq<Record>, r: Reading): Reading {
    Reading(records + r.records, r.failed)
  }

  /** The lines still to be parsed: the header just read, then the rest of the file. */
  function Remaining(header: string, rest: string): seq<string> {
    if header == [] then [] else [header] + Lines(rest)
  }

  /**
   * `read_fasta` on a file with content `content`: the records it yields, in
   * order, and whether it stopped on a header without an identifier.
   */
  method ReadFasta(content: string) returns (records: seq<Record>, failed: bool)
    ensures Reading(records, failed) == ParseFasta(Lines(content))
  {
    var f := new TextFile(content);
    records := [];
    failed := false;
    var header := f.ReadLine();
    while header != ""
      invariant f.Valid() && f.content == content
      invariant ParseFasta(Lines(content)) == Continue(records, ParseFasta(Remaining(header, f.Rest())))
      decreases |f.Rest()| + |header|
    {
      var token := FirstToken(header[1..]);
      if token.None? {
        ReadStops(records, header, f.Rest());
        return records, true;
      }
      ghost var rest0 := f.Rest();
      var line := f.ReadLine();
      ghost var rest1 := f.Rest();
      var sequence := Strip(line);
      var next := f.ReadLine();
      RemainingAfterPair(header, line, next, rest0, rest1, f.Rest());
      ReadContinues(records, header, token.value, line, Remaining(header, rest0), Remaining(next, f.Rest()));
      records := records + [Record(token.value, sequence)];
      header := next;
    }
    assert records + [] == records;
  }

  /** A header without an identifier ends the reading with an error after the records already yielded. */
  lemma ReadStops(records: seq<Record>, header: string, rest: string)
    requires header != [] && FirstToken(header[1..]).None?
    ensures Continue(records, ParseFasta(Remaining(header, rest))) == Reading(records, true)
  {
    ViewsCons(header, Lines(rest));
    assert records + [] == records;
  }

  /**
   * One pass of the reading loop: a header with an identifier, the line after
   * it (`line`, empty at end of file) and the next header yield one record.
   */
  lemma ReadContinues(records: seq<Record>, header: string, identifier: string, line: string,
                      remaining: seq<string>, remainingNext: seq<string>)
    requires header != [] && FirstToken(header[1..]) == Some(identifier)
    requires line == [] ==> remaining == [header] && remainingNext == []
    requires line != [] ==> remaining == [header] + ([line] + remainingNext)
    ensures Continue(records, ParseFasta(remaining))
            == Continue(records + [Record(identifier, Strip(line))], ParseFasta(remainingNext))
  {
    var next := ParseFasta(remainingNext);
    if line == [] {
      ReadLastHeader(header, identifier);
      assert Strip(line) == [];
      assert next == Reading([], false);
    } else {
      ReadPair(header, identifier, line, remainingNext);
    }
    assert (records + [Record(identifier, Strip(line))]) + next.records == records + ([Record(identifier, Strip(line))] + next.records);
  }

  /**
   * What is left to parse before and after one pass of the loop, given what
   * the two `readline` calls returned: `line`, then the next header.
   */
  lemma RemainingAfterPair(header: string, line: string, header': string, rest0: string, rest1: string, rest2: string)
    requires header != []
    requires line == [] <==> rest0 == []
    requires Lines(rest0) == if line == [] then [] else [line] + Lines(rest1)
    requires |rest0| == |line| + |rest1|
    requires header' == [] <==> rest1 == []
    requires Lines(rest1) == if header' == [] then [] else [header'] + Lines(rest2)
    ensures line == [] ==> Remaining(header, rest0) == [header] && Remaining(header', rest2) == []
    ensures line != [] ==> Remaining(header, rest0) == [header] + ([line] + Remaining(header', rest2))
  {
    if line == [] {
      assert rest1 == [];
      assert Lines(rest0) == [];
    } else {
      assert Lines(rest1) == Remaining(header', rest2);
    }
  }

  /** A header that is the last line gives one record with an empty sequence. */
  lemma ReadLastHeader(header: string, identifier: string)
    requires header != [] && FirstToken(header[1..]) == Some(identifier)
    ensures ParseFasta([header]) == Reading([Record(identifier, "")], false)
  {
    ViewsCons(header, []);
    assert [header] + [] == [header];
    assert Views([header]) == [View(header)];
    assert Tail(header) == header[1..];
    assert View(header).identifier == Some(identifier);
    var vs := [View(header)];
    assert ParseViews(vs) == Reading([Record(identifier, "")] + ParseViews([]).records, ParseViews([]).failed);
    assert [Record(identifier, "")] + [] == [Record(identifier, "")];
  }

  /** The same, on lines: a header with an identifier and the line after it, then the lines of the rest. */
  lemma ReadPair(header: string, identifier: string, line: string, rest: seq<string>)
    requires header != [] && FirstToken(header[1..]) == Some(identifier)
    ensures ParseFasta([header] + ([line] + rest)) == Continue([Record(identifier, Strip(line))], ParseFasta(rest))
  {
    ViewsCons(header, [line] + rest);
    ViewsCons(line, rest);
    ParseViewsPair(View(header), View(line), Views(rest), identifier);
  }

  /** A header with an identifier and the line after it give one record, followed by the records of the rest. */
  lemma ParseViewsPair(h: LineView, l: LineView, vs: seq<LineView>, identifier: string)
    requires h.identifier == Some(identifier)
    ensures ParseViews([h] + ([l] + vs)) == Continue([Record(identifier, l.stripped)], ParseViews(vs))
  {
    assert ([h] + ([l] + vs))[2..] == vs;
  }

  // ---------------------------------------------------------------- writing the TSV file

  /** An identifier and its label, as `write_tax_tsv` receives them. */
  datatype Labelled = Labelled(identifier: string, taxLabel: string)

  /** The line written for one entry. */
  function TsvLine(e: Labelled): string {
    e.identifier + "\t" + e.taxLabel + "\n"
  }

  /** The whole file: one line per entry, in order. */
  function TsvText(entries: seq<Labelled>): string {
    if entries == [] then [] else TsvLine(entries[0]) + TsvText(entries[1..])
  }

  lemma {:induction false} TsvTextSnoc(entries: seq<Labelled>, e: Labelled)
    ensures TsvText(entries + [e]) == TsvText(entries) + TsvLine(e)
  {
    if entries == [] {
      assert [] + [e] == [e];
      assert [e][1..] == [];
    } else {
      assert (entries + [e])[1..] == entries[1..] + [e];
      TsvTextSnoc(entries[1..], e);
    }
  }

  /** `write_tax_tsv`: the content of the file it writes. */
  method WriteTaxTsv(entries: seq<Labelled>) returns (content: string)
    ensures content == TsvText(entries)
  {
    content := "";
    for i := 0 to |entries|
      invariant content == TsvText(entries[..i])
    {
      assert entries[..i + 1] == entries[..i] + [entries[i]];
      TsvTextSnoc(entries[..i], entries[i]);
      content := content + TsvLine(entries[i]);
    }
    assert entries[..|entries|] == entries;
  }

  /** The entries the file format can carry back: no tab or newline in the identifier, no newline in the label. */
  predicate TsvSafe(e: Labelled) {
    '\t' !in e.identifier && '\n' !in e.identifier && '\n' !in e.taxLabel
  }

  /** The index of the first tab of `s`, or `|s|`. */
  function FirstTab(s: string): (i: nat)
    ensures i <= |s| && '\t' !in s[..i]
    ensures i < |s| ==> s[i] == '\t'
  {
    if s == [] || s[0] == '\t' then 0 else 1 + FirstTab(s[1..])
  }

  /** The first tab after a tab-free prefix is the one that follows it. */
  lemma {:induction false} FirstTabAfter(x: string, y: string)
    requires '\t' !in x
    ensures FirstTab(x + "\t" + y) == |x|
  {
    if x != [] {
      assert (x + "\t" + y)[1..] == x[1..] + "\t" + y;
      FirstTabAfter(x[1..], y);
    }
  }

  /** A line without its trailing newline. */
  function Chomp(line: string): string {
    if line != [] && line[|line| - 1] == '\n' then line[..|line| - 1] else line
  }

  /** A line read back: split at its first tab. */
  function ParseTsvLine(line: string): Labelled {
    var body := Chomp(line);
    var i := FirstTab(body);
    Labelled(body[..i], if i < |body| then body[i + 1..] else "")
  }

  /** A TSV file read back line by line. */
  function ParseTsv(content: string): seq<Labelled> {
    var ls := Lines(content);
    seq(|ls|, i requires 0 <= i < |ls| => ParseTsvLine(ls[i]))
  }

  /** A safe entry's line is a single line and reads back as the entry. */
  lemma TsvLineRoundTrip(e: Labelled)
    requires TsvSafe(e)
    ensures IsLine(TsvLine(e)) && TsvLine(e)[|TsvLine(e)| - 1] == '\n'
    ensures ParseTsvLine(TsvLine(e)) == e
  {
    var line := TsvLine(e);
    var body := e.identifier + "\t" + e.taxLabel;
    assert line == body + "\n";
    assert Chomp(line) == body;
    forall i | 0 <= i < |line| - 1 ensures line[i] != '\n' {
      if i < |e.identifier| {
        assert line[i] == e.identifier[i];
      } else if i > |e.identifier| {
        assert line[i] == e.taxLabel[i - |e.identifier| - 1];
      }
    }
    assert body[..|e.identifier|] == e.identifier;
    FirstTabAfter(e.identifier, e.taxLabel);
    assert body[|e.identifier| + 1..] == e.taxLabel;
  }

  /** The file has exactly one line per entry, in entry order. */
  lemma {:induction false} TsvLines(entries: seq<Labelled>)
    requires forall j :: 0 <= j < |entries| ==> TsvSafe(entries[j])
    ensures |Lines(TsvText(entries))| == |entries|
    ensures forall j :: 0 <= j < |entries| ==> Lines(TsvText(entries))[j] == TsvLine(entries[j])
  {
    if entries != [] {
      var first := TsvLine(entries[0]);
      var rest := entries[1..];
      assert TsvText(entries) == first + TsvText(rest);
      TsvLineRoundTrip(entries[0]);
      LinesOfLine(first, TsvText(rest));
      TsvLines(rest);
      var ls := Lines(TsvText(entries));
      var restLines := Lines(TsvText(rest));
      assert ls == [first] + restLines;
      forall j | 0 <= j < |entries|
        ensures ls[j] == TsvLine(entries[j])
      {
        if j > 0 {
          assert ls[j] == restLines[j - 1];
          assert rest[j - 1] == entries[j];
        }
      }
    }
  }

  /** Reading the written file back recovers the entries, in order. */
  lemma TsvRoundTrip(entries: seq<Labelled>)
    requires forall j :: 0 <= j < |entries| ==> TsvSafe(entries[j])
    ensures ParseTsv(TsvText(entries)) == entries
  {
    TsvLines(entries);
    forall j | 0 <= j < |entries| ensures ParseTsv(TsvText(entries))[j] == entries[j] {
      TsvLineRoundTrip(entries[j]);
    }
  }

  /**
   * A tab inside an identifier is read back as the end of the identifier:
   * what follows it moves into the label.
   */
  lemma TabInIdentifierBreaksRoundTrip(x: string, y: string, taxLabel: string)
    requires '\t' !in x
    ensures ParseTsvLine(TsvLine(Labelled(x + "\t" + y, taxLabel))) == Labelled(x, y + "\t" + taxLabel)
  {
    var line := TsvLine(Labelled(x + "\t" + y, taxLabel));
    var body := x + "\t" + (y + "\t" + taxLabel);
    assert line == body + "\n";
    assert Chomp(line) == body;
    FirstTabAfter(x, y + "\t" + taxLabel);
    assert body[..|x|] == x;
    assert body[|x| + 1..] == y + "\t" + taxLabel;
  }

  /** Identifiers read from a FASTA file can always be written to a TSV file and read back. */
  lemma ReadIdentifiersAreTsvSafe(lines: seq<string>, labels: seq<string>)
    requires |labels| == |ParseFasta(lines).records|
    requires forall j :: 0 <= j < |labels| ==> '\n' !in labels[j]
    ensures var rs := ParseFasta(lines).records;
            var es := seq(|rs|, j requires 0 <= j < |rs| => Labelled(rs[j].identifier, labels[j]));
            ParseTsv(TsvText(es)) == es
  {
    var rs := ParseFasta(lines).records;
    var es := seq(|rs|, j requires 0 <= j < |rs| => Labelled(rs[j].identifier, labels[j]));
    IdentifiersHaveNoSpace(lines);
    assert forall j :: 0 <= j < |es| ==> NoSpace(es[j].identifier);
    TsvRoundTrip(es);
  }
}
