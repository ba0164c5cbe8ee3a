/**
  Secondary-structure and disorder annotation (secStructureAnno.py): the two
  parsers of the predictors' tables, the per-sequence job list, the scratch
  FASTA file, the `.structure` output layout and the output base name.
  The predictors themselves are not modelled: what they exit with and what
  they leave in their output files are parameters.
 */
module StructureAnno {
  import opened Wrappers
  import opened Text
  import opened Numerals

  // ---------------------------------------------------------------------------
  // Parsing the predictors' tables
  // ---------------------------------------------------------------------------

  /** Why a predictor's table was rejected, with the index of the offending line. */
  datatype ParseError =
    | EmptyLine(line: nat)                        // `line[0]` of an empty line: IndexError
    | MissingField(line: nat)                     // `line.split()[2]` on fewer than three fields: IndexError
    | UnexpectedSymbol(line: nat, symbol: string) // a disorder mark other than `*` or `.`

  predicate IsComment(line: string) {
    |line| > 0 && line[0] == '#'
  }

  predicate HasThirdField(line: string) {
    |Words(line)| >= 3
  }

  /** `line.split()[2]`: the label column of a table row. */
  function ThirdField(line: string): string
    requires HasThirdField(line)
  {
    Words(line)[2]
  }

  /** A line both parsers get past without an IndexError: a comment, or a row with a third field. */
  predicate RowReadable(line: string) {
    line != [] && (IsComment(line) || HasThirdField(line))
  }

  /** The error for a line that is not `RowReadable`. */
  function RowError(line: string, i: nat): ParseError {
    if line == [] then EmptyLine(i) else MissingField(i)
  }

  /** The table rows of a file: its lines not starting with `#`, in file order. */
  function DataLines(lines: seq<string>): (rows: seq<string>)
    ensures |rows| <= |lines|
    ensures forall j :: 0 <= j < |rows| ==> !IsComment(rows[j])
  {
    if lines == [] then []
    else
      var n := |lines| - 1;
      DataLines(lines[..n]) + (if IsComment(lines[n]) then [] else [lines[n]])
  }

  predicate AllLabelled(rows: seq<string>) {
    forall j :: 0 <= j < |rows| ==> HasThirdField(rows[j])
  }

  lemma {:induction false} DataLinesReadable(lines: seq<string>)
    requires forall i :: 0 <= i < |lines| ==> RowReadable(lines[i])
    ensures AllLabelled(DataLines(lines))
    decreases |lines|
  {
    if lines != [] {
      DataLinesReadable(lines[..|lines| - 1]);
    }
  }

  lemma DataLinesSnoc(lines: seq<string>)
    requires lines != []
    ensures var n := |lines| - 1;
      DataLines(lines) == DataLines(lines[..n]) + (if IsComment(lines[n]) then [] else [lines[n]])
  {
  }

  /** The label column of a sequence of rows. */
  function Thirds(rows: seq<string>): (labels: seq<string>)
    requires AllLabelled(rows)
    ensures |labels| == |rows|
  {
    seq(|rows|, j requires 0 <= j < |rows| => ThirdField(rows[j]))
  }

  predicate AllReadable(lines: seq<string>) {
    forall i :: 0 <= i < |lines| ==> RowReadable(lines[i])
  }

  /** `i` is the first line of `lines` that stops `parse_porter`. */
  predicate FirstUnreadable(lines: seq<string>, i: int) {
    && 0 <= i < |lines|
    && !RowReadable(lines[i])
    && forall j :: 0 <= j < i ==> RowReadable(lines[j])
  }

  /** How readability of a file relates to readability of all its lines but the last. */
  lemma ReadablePrefix(lines: seq<string>)
    requires lines != []
    ensures var n := |lines| - 1;
      && (AllReadable(lines) <==> AllReadable(lines[..n]) && RowReadable(lines[n]))
      && (forall i :: FirstUnreadable(lines[..n], i) ==> FirstUnreadable(lines, i))
      && (AllReadable(lines[..n]) && !RowReadable(lines[n]) ==> FirstUnreadable(lines, n))
  {
    var n := |lines| - 1;
    assert forall i :: 0 <= i < n ==> lines[..n][i] == lines[i];
  }

  /**
    `parse_porter`: the third field of every non-comment line, concatenated in
    file order; the first empty line or row with fewer than three fields raises.
   */
  function ParsePorter(lines: seq<string>): Result<string, ParseError>
    decreases |lines|
  {
    if lines == [] then Success("")
    else
      var n := |lines| - 1;
      match ParsePorter(lines[..n])
      case Failure(e) => Failure(e)
      case Success(prev) =>
        var line := lines[n];
        if line == [] then Failure(EmptyLine(n))
        else if IsComment(line) then Success(prev)
        else if !HasThirdField(line) then Failure(MissingField(n))
        else Success(prev + ThirdField(line))
  }

  /**
    `parse_porter` succeeds exactly when every line is a comment or a row with
    a third field, and then returns the third fields of the non-comment lines,
    concatenated in file order; otherwise it reports the first line that is
    neither, and returns nothing else.
   */
  lemma {:induction false} ParsePorterSpec(lines: seq<string>)
    ensures var r := ParsePorter(lines);
      && (r.Success? <==> AllReadable(lines))
      && (r.Success? ==> AllLabelled(DataLines(lines)) && r.value == Concat(Thirds(DataLines(lines))))
      && (r.Failure? ==> FirstUnreadable(lines, r.error.line) && r.error == RowError(lines[r.error.line], r.error.line))
    decreases |lines|
  {
    if lines == [] {
      assert Thirds([]) == [];
    } else {
      var n := |lines| - 1;
      ParsePorterSpec(lines[..n]);
      ReadablePrefix(lines);
      DataLinesSnoc(lines);
      var line := lines[n];
      if ParsePorter(lines[..n]).Success? && RowReadable(line) {
        var prev := ParsePorter(lines[..n]).value;
        if IsComment(line) {
          assert DataLines(lines) == DataLines(lines[..n]) + [];
          assert DataLines(lines) == DataLines(lines[..n]);
          assert Thirds(DataLines(lines)) == Thirds(DataLines(lines[..n]));
          assert ParsePorter(lines) == Success(prev);
        } else {
          ThirdsSnoc(DataLines(lines[..n]), line);
          assert DataLines(lines) == DataLines(lines[..n]) + [line];
          assert ParsePorter(lines) == Success(prev + ThirdField(line));
        }
      }
    }
  }

  /** One row more adds its third field to the label column. */
  lemma ThirdsSnoc(rows: seq<string>, row: string)
    requires AllLabelled(rows) && HasThirdField(row)
    ensures AllLabelled(rows + [row])
    ensures Concat(Thirds(rows + [row])) == Concat(Thirds(rows)) + ThirdField(row)
  {
    assert Thirds(rows + [row]) == Thirds(rows) + [ThirdField(row)];
    ConcatSnoc(Thirds(rows), ThirdField(row));
  }

  /** A line `parse_aucpred` accepts: a comment, or a row whose third field is `*` or `.`. */
  predicate DisorderRowOk(line: string) {
    RowReadable(line) && (IsComment(line) || ThirdField(line) == "*" || ThirdField(line) == ".")
  }

  predicate AllDisorderRowsOk(lines: seq<string>) {
    forall i :: 0 <= i < |lines| ==> DisorderRowOk(lines[i])
  }

  /** The error for a line that is not `DisorderRowOk`. */
  function DisorderRowError(line: string, i: nat): ParseError
    requires !DisorderRowOk(line)
  {
    if !RowReadable(line) then RowError(line, i) else UnexpectedSymbol(i, ThirdField(line))
  }

  /** `i` is the first line of `lines` that stops `parse_aucpred`. */
  predicate FirstDisorderError(lines: seq<string>, i: int) {
    && 0 <= i < |lines|
    && !DisorderRowOk(lines[i])
    && forall j :: 0 <= j < i ==> DisorderRowOk(lines[j])
  }

  lemma DisorderPrefix(lines: seq<string>)
    requires lines != []
    ensures var n := |lines| - 1;
      && (AllDisorderRowsOk(lines) <==> AllDisorderRowsOk(lines[..n]) && DisorderRowOk(lines[n]))
      && (forall i :: FirstDisorderError(lines[..n], i) ==> FirstDisorderError(lines, i))
      && (AllDisorderRowsOk(lines[..n]) && !DisorderRowOk(lines[n]) ==> FirstDisorderError(lines, n))
  {
    var n := |lines| - 1;
    assert forall i :: 0 <= i < n ==> lines[..n][i] == lines[i];
  }

  /** The binary mark of one disorder row: `1` for `*` (disordered), `0` for `.`. */
  function DisorderMark(row: string): char
    requires HasThirdField(row)
  {
    if ThirdField(row) == "*" then '1' else '0'
  }

  /** `marks` holds one binary digit per row, `1` exactly where the row's third field is `*`, `0` where it is `.`. */
  predicate MarksRows(marks: string, rows: seq<string>) {
    && |marks| == |rows|
    && AllLabelled(rows)
    && forall k :: 0 <= k < |rows| ==>
         && (ThirdField(rows[k]) == "*" || ThirdField(rows[k]) == ".")
         && marks[k] == DisorderMark(rows[k])
  }

  lemma MarksRowsSnoc(marks: string, rows: seq<string>, row: string)
    requires MarksRows(marks, rows)
    requires HasThirdField(row) && (ThirdField(row) == "*" || ThirdField(row) == ".")
    ensures MarksRows(marks + [DisorderMark(row)], rows + [row])
  {
    var m, rs := marks + [DisorderMark(row)], rows + [row];
    forall k | 0 <= k < |rs|
      ensures HasThirdField(rs[k])
      ensures ThirdField(rs[k]) == "*" || ThirdField(rs[k]) == "."
      ensures m[k] == DisorderMark(rs[k])
    {
      if k < |rows| {
        assert rs[k] == rows[k] && m[k] == marks[k];
      }
    }
  }

  /**
    `parse_aucpred`: one character per non-comment line, `1` where the third
    field is `*` and `0` where it is `.`; any other mark, an empty line or a
    short row raises.
   */
  function ParseAucpred(lines: seq<string>): Result<string, ParseError>
    decreases |lines|
  {
    if lines == [] then Success("")
    else
      var n := |lines| - 1;
      match ParseAucpred(lines[..n])
      case Failure(e) => Failure(e)
      case Success(prev) =>
        var line := lines[n];
        if line == [] then Failure(EmptyLine(n))
        else if IsComment(line) then Success(prev)
        else if !HasThirdField(line) then Failure(MissingField(n))
        else if ThirdField(line) == "*" then Success(prev + "1")
        else if ThirdField(line) == "." then Success(prev + "0")
        else Failure(UnexpectedSymbol(n, ThirdField(line)))
  }

  /**
    `parse_aucpred` succeeds exactly when every line is a comment or a row
    marked `*` or `.`, and then returns one binary digit per row in file order;
    otherwise it reports the first offending line, and no partial string.
   */
  lemma {:induction false} ParseAucpredSpec(lines: seq<string>)
    ensures var r := ParseAucpred(lines);
      && (r.Success? <==> AllDisorderRowsOk(lines))
      && (r.Success? ==> MarksRows(r.value, DataLines(lines)))
      && (r.Failure? ==> FirstDisorderError(lines, r.error.line) && r.error == DisorderRowError(lines[r.error.line], r.error.line))
    decreases |lines|
  {
    if lines != [] {
      var n := |lines| - 1;
      ParseAucpredSpec(lines[..n]);
      DisorderPrefix(lines);
      DataLinesSnoc(lines);
      var line := lines[n];
      if ParseAucpred(lines[..n]).Success? && DisorderRowOk(line) && !IsComment(line) {
        MarksRowsSnoc(ParseAucpred(lines[..n]).value, DataLines(lines[..n]), line);
      }
    }
  }

  /** A predictor table: one row per residue, columns joined by the whitespace character `sep`, newline-terminated. */
  function TableLines(rows: seq<seq<string>>, sep: char): (lines: seq<string>)
    ensures |lines| == |rows|
  {
    seq(|rows|, i requires 0 <= i < |rows| => Join(rows[i], [sep]) + "\n")
  }

  /** Column `k` of every row that has one. */
  function Column(rows: seq<seq<string>>, k: nat): seq<string>
    requires forall i :: 0 <= i < |rows| ==> k < |rows[i]|
  {
    seq(|rows|, i requires 0 <= i < |rows| => rows[i][k])
  }

  /** A well-formed predictor table: at least three whitespace-free columns per row, no row taken for a comment. */
  predicate IsTable(rows: seq<seq<string>>) {
    forall i :: 0 <= i < |rows| ==>
      && |rows[i]| >= 3
      && (forall j :: 0 <= j < |rows[i]| ==> IsWord(rows[i][j]))
      && rows[i][0][0] != '#'
  }

  lemma TableRows(rows: seq<seq<string>>, sep: char)
    requires IsSpace(sep) && IsTable(rows)
    ensures DataLines(TableLines(rows, sep)) == TableLines(rows, sep)
    ensures forall i :: 0 <= i < |rows| ==> Words(TableLines(rows, sep)[i]) == rows[i]
    ensures forall i :: 0 <= i < |rows| ==> RowReadable(TableLines(rows, sep)[i])
    ensures forall i :: 0 <= i < |rows| ==> ThirdField(TableLines(rows, sep)[i]) == rows[i][2]
  {
    var lines := TableLines(rows, sep);
    forall i | 0 <= i < |rows|
      ensures Words(lines[i]) == rows[i] && !IsComment(lines[i])
    {
      WordsOfJoin(rows[i], sep, "\n");
      JoinHead(rows[i], [sep]);
    }
    DataLinesAllRows(lines);
  }

  lemma {:induction false} JoinHead(parts: seq<string>, sep: string)
    requires |parts| >= 1 && parts[0] != []
    ensures Join(parts, sep) != [] && Join(parts, sep)[0] == parts[0][0]
  {
  }

  lemma {:induction false} DataLinesAllRows(lines: seq<string>)
    requires forall i :: 0 <= i < |lines| ==> !IsComment(lines[i])
    ensures DataLines(lines) == lines
    decreases |lines|
  {
    if lines != [] {
      DataLinesAllRows(lines[..|lines| - 1]);
    }
  }

  /** Read from a Porter table, the structure string is the table's label column, one label per residue row. */
  lemma ParsePorterOfTable(rows: seq<seq<string>>, sep: char)
    requires IsSpace(sep) && IsTable(rows)
    ensures ParsePorter(TableLines(rows, sep)) == Success(Concat(Column(rows, 2)))
  {
    var lines := TableLines(rows, sep);
    ThirdsOfTable(rows, sep);
    ParsePorterSpec(lines);
  }

  /** The label column of a table's lines is its third column. */
  lemma ThirdsOfTable(rows: seq<seq<string>>, sep: char)
    requires IsSpace(sep) && IsTable(rows)
    ensures AllReadable(TableLines(rows, sep)) && AllLabelled(DataLines(TableLines(rows, sep)))
    ensures Thirds(DataLines(TableLines(rows, sep))) == Column(rows, 2)
  {
    var lines := TableLines(rows, sep);
    TableRows(rows, sep);
    assert DataLines(lines) == lines;
    var thirds := Thirds(lines);
    forall i | 0 <= i < |rows|
      ensures thirds[i] == rows[i][2]
    {
      assert thirds[i] == ThirdField(lines[i]);
    }
  }

  /** Read from an AUCpreD table marked with `*` and `.`, the disorder string has one binary digit per row, `1` exactly on `*` rows. */
  lemma ParseAucpredOfTable(rows: seq<seq<string>>, sep: char)
    requires IsSpace(sep) && IsTable(rows)
    requires forall i :: 0 <= i < |rows| ==> rows[i][2] == "*" || rows[i][2] == "."
    ensures ParseAucpred(TableLines(rows, sep)).Success?
    ensures var d := ParseAucpred(TableLines(rows, sep)).value;
      |d| == |rows| && forall i :: 0 <= i < |rows| ==> (d[i] == '1' <==> rows[i][2] == "*")
  {
    TableRows(rows, sep);
    ParseAucpredSpec(TableLines(rows, sep));
  }

  // ---------------------------------------------------------------------------
  // Jobs and their results
  // ---------------------------------------------------------------------------

  /** A record as the FASTA reader yields it: identifier and residues. */
  datatype SeqRecord = SeqRecord(id: string, sequence: string)

  /** One annotation job, the list `[id, seq, tmppath, porterpath, str(cpus), aucpred]`; either tool path may be None. */
  datatype Job = Job(id: string, sequence: string, tmpPath: string, porter: Option<string>, cpus: string, aucpred: Option<string>)

  /** `prepare_annojobs`: one job per record, in record order, with the CPU count as decimal text. */
  function PrepareAnnojobs(records: seq<SeqRecord>, tmpPath: string, porter: Option<string>, cpus: int, aucpred: Option<string>): (jobs: seq<Job>)
    ensures |jobs| == |records|
    ensures forall i :: 0 <= i < |jobs| ==>
      && jobs[i].id == records[i].id
      && jobs[i].sequence == records[i].sequence
      && jobs[i].tmpPath == tmpPath && jobs[i].porter == porter && jobs[i].aucpred == aucpred
      && jobs[i].cpus == IntToString(cpus) && IntValue(jobs[i].cpus) == Some(cpus)
  {
    IntValueOfIntToString(cpus);
    seq(|records|, i requires 0 <= i < |records| =>
      Job(records[i].id, records[i].sequence, tmpPath, porter, IntToString(cpus), aucpred))
  }

  /** A file the scripts write: where, and what text. */
  datatype TextFile = TextFile(path: string, content: string)

  /** `make_tmp_fasta`: a one-record FASTA file `<path>/<header>.fasta` with no final newline. */
  function MakeTmpFasta(header: string, sequence: string, path: string): TextFile {
    TextFile(path + "/" + header + ".fasta", ">" + header + "\n" + sequence)
  }

  /** The scratch FASTA reads back as one header line and, for a non-empty sequence, one unterminated sequence line. */
  lemma TmpFastaLines(header: string, sequence: string, path: string)
    requires '\n' !in header && '\r' !in header && '\n' !in sequence && '\r' !in sequence
    ensures var f := MakeTmpFasta(header, sequence, path);
      && ReadLines(f.content) == [">" + header + "\n"] + (if sequence == [] then [] else [sequence])
      && f.path == path + "/" + header + ".fasta"
  {
    var content := ">" + header + "\n" + sequence;
    var h := ">" + header;
    assert content == h + ['\n'] + sequence;
    assert '\n' !in h;
    IndexOfPrefix(h, '\n', sequence);
    assert content[..|h| + 1] == ">" + header + "\n";
    assert content[|h| + 1..] == sequence;
  }

  /** The predictors an annotation job calls. */
  datatype Tool = Porter | AUCpreD

  /** Why an annotation job produced no result. */
  datatype AnnoError =
    | ToolMissing(tool: Tool)                       // the tool path is None: building its command raises TypeError
    | ToolFailed(tool: Tool, status: int)           // non-zero exit status: CalledProcessError
    | FaultyOutput(suffix: string, cause: ParseError)

  /** What a Porter run left behind: its exit status and the lines of its `.ss3` and `.ss8` files. */
  datatype PorterRun = PorterRun(status: int, ss3: seq<string>, ss8: seq<string>)

  /** What an AUCpreD run left behind: its exit status and the lines of its `.diso_noprof` file. */
  datatype AucpredRun = AucpredRun(status: int, diso: seq<string>)

  /** The tuple `(header, ss3, ss8, disorder)` an annotation job returns. */
  datatype Annotation = Annotation(id: string, ss3: string, ss8: string, disorder: string)

  /**
    `run_anno_single` with the predictors' behaviour given: Porter runs and
    both of its tables are parsed, then AUCpreD runs and its table is parsed.
    The first failure ends the job and no partial result is returned.
   */
  function RunAnnoSingle(job: Job, porter: PorterRun, aucpred: AucpredRun): (r: Result<Annotation, AnnoError>)
    ensures r.Success? <==>
      && job.porter.Some? && porter.status == 0
      && ParsePorter(porter.ss3).Success? && ParsePorter(porter.ss8).Success?
      && job.aucpred.Some? && aucpred.status == 0
      && ParseAucpred(aucpred.diso).Success?
    ensures job.porter.None? ==> r == Failure(ToolMissing(Porter))
    ensures job.porter.Some? && porter.status != 0 ==> r == Failure(ToolFailed(Porter, porter.status))
    ensures job.porter.Some? && porter.status == 0 && ParsePorter(porter.ss3).Success? && ParsePorter(porter.ss8).Success? ==>
      && (job.aucpred.None? ==> r == Failure(ToolMissing(AUCpreD)))
      && (job.aucpred.Some? && aucpred.status != 0 ==> r == Failure(ToolFailed(AUCpreD, aucpred.status)))
    ensures r.Success? ==>
      && r.value.id == job.id
      && MarksRows(r.value.disorder, DataLines(aucpred.diso))
      && AllLabelled(DataLines(porter.ss3)) && r.value.ss3 == Concat(Thirds(DataLines(porter.ss3)))
      && AllLabelled(DataLines(porter.ss8)) && r.value.ss8 == Concat(Thirds(DataLines(porter.ss8)))
  {
    ParsePorterSpec(porter.ss3);
    ParsePorterSpec(porter.ss8);
    ParseAucpredSpec(aucpred.diso);
    if job.porter.None? then Failure(ToolMissing(Porter))
    else if porter.status != 0 then Failure(ToolFailed(Porter, porter.status))
    else if ParsePorter(porter.ss3).Failure? then Failure(FaultyOutput(".fasta.ss3", ParsePorter(porter.ss3).error))
    else if ParsePorter(porter.ss8).Failure? then Failure(FaultyOutput(".fasta.ss8", ParsePorter(porter.ss8).error))
    else if job.aucpred.None? then Failure(ToolMissing(AUCpreD))
    else if aucpred.status != 0 then Failure(ToolFailed(AUCpreD, aucpred.status))
    else if ParseAucpred(aucpred.diso).Failure? then Failure(FaultyOutput(".diso_noprof", ParseAucpred(aucpred.diso).error))
    else Success(Annotation(job.id, ParsePorter(porter.ss3).value, ParsePorter(porter.ss8).value, ParseAucpred(aucpred.diso).value))
  }

  // ---------------------------------------------------------------------------
  // The `.structure` output and its name
  // ---------------------------------------------------------------------------

  /** The four lines `write_output` emits for one result. */
  function RecordLines(a: Annotation): seq<string> {
    [">" + a.id + "\n", a.ss3 + "\n", a.ss8 + "\n", a.disorder + "\n"]
  }

  function StructureText(out: seq<Annotation>): string
    decreases |out|
  {
    if out == [] then ""
    else
      var a := out[0];
      ">" + a.id + "\n" + a.ss3 + "\n" + a.ss8 + "\n" + a.disorder + "\n" + StructureText(out[1..])
  }

  /** `write_output`: the results, four lines each, in list order, into `<outpath>.structure`. */
  function WriteOutput(out: seq<Annotation>, outpath: string): TextFile {
    TextFile(outpath + ".structure", StructureText(out))
  }

  /** Reads a `.structure` file back: groups of four lines, the first of each starting with `>`. */
  function DecodeStructure(lines: seq<string>): Option<seq<Annotation>>
    decreases |lines|
  {
    if lines == [] then Some([])
    else if |lines| < 4 || !(forall k :: 0 <= k < 4 ==> IsLine(lines[k])) || lines[0][0] != '>' then None
    else
      match DecodeStructure(lines[4..])
      case None => None
      case Some(rest) =>
        var h, l1, l2, l3 := lines[0], lines[1], lines[2], lines[3];
        Some([Annotation(h[1..|h| - 1], l1[..|l1| - 1], l2[..|l2| - 1], l3[..|l3| - 1])] + rest)
  }

  /** No field of a result contains a line break (`\n` or `\r`). */
  predicate SingleLine(a: Annotation) {
    && '\n' !in a.id && '\n' !in a.ss3 && '\n' !in a.ss8 && '\n' !in a.disorder
    && '\r' !in a.id && '\r' !in a.ss3 && '\r' !in a.ss8 && '\r' !in a.disorder
  }

  function AllRecordLines(out: seq<Annotation>): (ls: seq<string>)
    ensures |ls| == 4 * |out|
    decreases |out|
  {
    if out == [] then [] else RecordLines(out[0]) + AllRecordLines(out[1..])
  }

  lemma {:induction false} StructureTextLines(out: seq<Annotation>)
    ensures StructureText(out) == Concat(AllRecordLines(out))
    decreases |out|
  {
    if out != [] {
      var a := out[0];
      StructureTextLines(out[1..]);
      ConcatAppend(RecordLines(a), AllRecordLines(out[1..]));
      ConcatFour(">" + a.id + "\n", a.ss3 + "\n", a.ss8 + "\n", a.disorder + "\n");
    }
  }

  lemma ConcatFour(a: string, b: string, c: string, d: string)
    ensures Concat([a, b, c, d]) == a + b + c + d
  {
    assert [a, b, c, d][1..] == [b, c, d];
    assert [b, c, d][1..] == [c, d];
    assert [c, d][1..] == [d];
    assert Concat([d]) == d + "" == d;
    assert Concat([c, d]) == c + d;
    assert Concat([b, c, d]) == b + (c + d);
    assert a + (b + (c + d)) == a + b + c + d;
  }

  lemma AnnotationLines(a: Annotation)
    requires SingleLine(a)
    ensures forall k :: 0 <= k < 4 ==> IsLine(RecordLines(a)[k])
  {
    var ls := RecordLines(a);
    assert ls[0][..|ls[0]| - 1] == ">" + a.id;
    assert ls[1][..|ls[1]| - 1] == a.ss3;
    assert ls[2][..|ls[2]| - 1] == a.ss8;
    assert ls[3][..|ls[3]| - 1] == a.disorder;
  }

  lemma {:induction false} DecodeRecordLines(out: seq<Annotation>)
    requires forall i :: 0 <= i < |out| ==> SingleLine(out[i])
    ensures DecodeStructure(AllRecordLines(out)) == Some(out)
    ensures forall k :: 0 <= k < |AllRecordLines(out)| ==> IsLine(AllRecordLines(out)[k])
    decreases |out|
  {
    if out != [] {
      var a := out[0];
      var ls := AllRecordLines(out);
      DecodeRecordLines(out[1..]);
      AnnotationLines(a);
      assert ls[..4] == RecordLines(a);
      assert ls[4..] == AllRecordLines(out[1..]);
      assert ls[0][1..|ls[0]| - 1] == a.id;
      assert [a] + out[1..] == out;
      forall k | 0 <= k < |ls|
        ensures IsLine(ls[k])
      {
        if k >= 4 {
          assert ls[k] == AllRecordLines(out[1..])[k - 4];
        }
      }
    }
  }

  /**
    Splitting a `.structure` file into 4-line groups gives back every result,
    in list order, when no field contains a newline.
   */
  lemma WriteOutputRoundTrip(out: seq<Annotation>, outpath: string)
    requires forall i :: 0 <= i < |out| ==> SingleLine(out[i])
    ensures var f := WriteOutput(out, outpath);
      && f.path == outpath + ".structure"
      && |ReadLines(f.content)| == 4 * |out|
      && DecodeStructure(ReadLines(f.content)) == Some(out)
  {
    StructureTextLines(out);
    DecodeRecordLines(out);
    ReadLinesOfConcat(AllRecordLines(out));
  }

  /**
    The base name `run_anno` gives its outputs: the input path's last `/`
    component, split at its dots, with the last piece (the extension) dropped
    and the rest joined without separator.
   */
  function OutputName(inpath: string): string {
    var parts := Split(BaseName(inpath), '.');
    Concat(parts[..|parts| - 1])
  }

  /** For an input `dir/stem.ext`, the name is the stem with its dots deleted: `a.b.fa` gives `ab`. */
  lemma OutputNameOfStem(dir: string, stem: string, ext: string)
    requires '/' !in stem && '/' !in ext && '.' !in ext
    ensures OutputName(dir + "/" + stem + "." + ext) == Without(stem, '.')
    ensures OutputName(stem + "." + ext) == Without(stem, '.')
  {
    var base := stem + "." + ext;
    BaseNameOf(dir, base);
    PathOfParts(dir, stem, ext);
    StemOfBase(stem, ext);
  }

  lemma PathOfParts(dir: string, stem: string, ext: string)
    ensures dir + "/" + stem + "." + ext == dir + "/" + (stem + "." + ext)
  {
    var p := dir + "/";
    assert p + stem + "." + ext == p + (stem + "." + ext) by {
      assert p + stem + "." == p + (stem + ".");
    }
  }

  lemma StemOfBase(stem: string, ext: string)
    requires '.' !in ext
    ensures var parts := Split(stem + "." + ext, '.'); Concat(parts[..|parts| - 1]) == Without(stem, '.')
  {
    var parts := Split(stem + "." + ext, '.');
    SplitSnoc(stem, '.', ext);
    assert parts[..|parts| - 1] == Split(stem, '.');
    ConcatOfSplit(stem, '.');
  }

  /** A base name without any dot yields the empty name, so the output lands in `<outpath>/.structure`. */
  lemma OutputNameWithoutDot(dir: string, base: string, outpath: string)
    requires '/' !in base && '.' !in base
    ensures OutputName(dir + "/" + base) == ""
    ensures WriteOutput([], outpath + "/" + OutputName(dir + "/" + base)).path == outpath + "/.structure"
  {
    BaseNameOf(dir, base);
  }

  /** Two dot-free parts before the extension are joined: `a.b.fa` gives `ab`. */
  lemma OutputNameOfTwoParts(dir: string, x: string, y: string, ext: string)
    requires '/' !in x && '/' !in y && '/' !in ext
    requires '.' !in x && '.' !in y && '.' !in ext
    ensures OutputName(dir + "/" + x + "." + y + "." + ext) == x + y
  {
    var stem := x + "." + y;
    assert '/' !in stem by {
      assert forall k :: 0 <= k < |stem| ==> stem[k] == (if k < |x| then x[k] else if k == |x| then '.' else y[k - |x| - 1]);
    }
    assert dir + "/" + x + "." + y + "." + ext == dir + "/" + stem + "." + ext;
    OutputNameOfStem(dir, stem, ext);
    WithoutAround(x, '.', y);
    WithoutAbsent(y, '.');
  }
}
