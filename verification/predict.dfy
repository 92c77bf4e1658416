/** CasavaSampleSheet.predict_output: the project directories, sample
    directories and output name prefixes CASAVA will produce for a sheet. */
module Prediction {
  import opened Wrappers
  import opened Text
  import opened Numbers
  import opened SampleSheet
  import Fastq

  /** project directory -> sample directory -> name prefixes. */
  type Prediction = map<string, map<string, seq<string>>>

  function ProjectDir(r: Row): string {
    "Project_" + r.sampleProject
  }

  function SampleDir(r: Row): string {
    "Sample_" + r.sampleId
  }

  /** The Index value, or NoIndex when it is blank. */
  function IndexTag(index: string): string {
    if Trim(index, Whitespace) == "" then Fastq.NoIndex else index
  }

  /** "%s_%s_L%03d" % (SampleID, index, Lane). */
  function OutputName(r: Row): string {
    r.sampleId + "_" + IndexTag(r.index) + "_L" + PadInt(r.lane, 3)
  }

  /** Records one row. */
  function AddRow(pr: Prediction, r: Row): Prediction {
    var project := ProjectDir(r);
    var sample := SampleDir(r);
    var samples := if project in pr then pr[project] else map[];
    var names := if sample in samples then samples[sample] else [];
    pr[project := samples[sample := names + [OutputName(r)]]]
  }

  /** predict_output: the rows recorded in order. */
  function PredictOutput(rows: seq<Row>): Prediction {
    if |rows| == 0 then map[]
    else AddRow(PredictOutput(rows[..|rows| - 1]), rows[|rows| - 1])
  }

  /** The output names of the rows that belong to project directory p and
      sample directory s, in row order. */
  function NamesFor(rows: seq<Row>, p: string, s: string): seq<string> {
    if |rows| == 0 then []
    else
      var r := rows[|rows| - 1];
      NamesFor(rows[..|rows| - 1], p, s) + (if ProjectDir(r) == p && SampleDir(r) == s then [OutputName(r)] else [])
  }

  /** Some row belongs to project directory p. */
  predicate HasProject(rows: seq<Row>, p: string) {
    exists i :: 0 <= i < |rows| && ProjectDir(rows[i]) == p
  }

  /** Some row belongs to project directory p and sample directory s. */
  predicate HasSample(rows: seq<Row>, p: string, s: string) {
    exists i :: 0 <= i < |rows| && ProjectDir(rows[i]) == p && SampleDir(rows[i]) == s
  }

  /** The rows before the last one are still the rows of a prefix. */
  lemma LastRow(rows: seq<Row>, p: string, s: string)
    requires |rows| > 0
    ensures var init, r := rows[..|rows| - 1], rows[|rows| - 1];
      && (HasProject(rows, p) <==> HasProject(init, p) || ProjectDir(r) == p)
      && (HasSample(rows, p, s) <==> HasSample(init, p, s) || (ProjectDir(r) == p && SampleDir(r) == s))
  {
    var init, r := rows[..|rows| - 1], rows[|rows| - 1];
    if HasProject(rows, p) && ProjectDir(r) != p {
      var i :| 0 <= i < |rows| && ProjectDir(rows[i]) == p;
      assert init[i] == rows[i];
    }
    if HasProject(init, p) {
      var i :| 0 <= i < |init| && ProjectDir(init[i]) == p;
      assert rows[i] == init[i];
    }
    if HasSample(rows, p, s) && !(ProjectDir(r) == p && SampleDir(r) == s) {
      var i :| 0 <= i < |rows| && ProjectDir(rows[i]) == p && SampleDir(rows[i]) == s;
      assert init[i] == rows[i];
    }
    if HasSample(init, p, s) {
      var i :| 0 <= i < |init| && ProjectDir(init[i]) == p && SampleDir(init[i]) == s;
      assert rows[i] == init[i];
    }
  }

  /** The prediction for one project and sample directory: the project is
      present exactly when some row names it, the sample under it exactly
      when some row names both, and it holds the output names of exactly
      those rows, in row order. */
  lemma {:induction false} PredictOutputAt(rows: seq<Row>, p: string, s: string)
    ensures var pr := PredictOutput(rows);
      && (p in pr <==> HasProject(rows, p))
      && (p in pr && s in pr[p] <==> HasSample(rows, p, s))
      && (p in pr && s in pr[p] ==> pr[p][s] == NamesFor(rows, p, s))
      && (!(p in pr && s in pr[p]) ==> NamesFor(rows, p, s) == [])
  {
    if |rows| > 0 {
      PredictOutputAt(rows[..|rows| - 1], p, s);
      LastRow(rows, p, s);
    }
  }

  /** PredictOutputAt for every project and sample directory at once. */
  lemma PredictOutputSpec(rows: seq<Row>)
    ensures var pr := PredictOutput(rows);
      && (forall p :: p in pr <==> HasProject(rows, p))
      && (forall p, s :: p in pr ==> (s in pr[p] <==> HasSample(rows, p, s)))
      && (forall p, s :: p in pr && s in pr[p] ==> pr[p][s] == NamesFor(rows, p, s))
  {
    forall p, s {
      PredictOutputAt(rows, p, s);
    }
  }

  /** Directory names keep rows of different projects (samples) apart. */
  lemma DirsDistinguish(a: Row, b: Row)
    ensures ProjectDir(a) == ProjectDir(b) <==> a.sampleProject == b.sampleProject
    ensures SampleDir(a) == SampleDir(b) <==> a.sampleId == b.sampleId
  {
    if ProjectDir(a) == ProjectDir(b) {
      assert a.sampleProject == ProjectDir(a)[8..];
      assert b.sampleProject == ProjectDir(b)[8..];
    }
    if SampleDir(a) == SampleDir(b) {
      assert a.sampleId == SampleDir(a)[7..];
      assert b.sampleId == SampleDir(b)[7..];
    }
  }

  /** The barcode a fastq name carries for a row's Index. */
  function BarcodeOf(index: string): Option<string> {
    if Trim(index, Whitespace) == "" then None else Some(index)
  }

  /** The five fields of a fastq name joined with underscores. */
  lemma JoinFive(name: string, tag: string, lane: string, read: string, setNumber: string)
    ensures Join([name, tag, "L" + lane, "R" + read, setNumber], '_')
         == name + "_" + tag + "_L" + lane + "_R" + read + "_" + setNumber
  {
    var parts := [name, tag, "L" + lane, "R" + read, setNumber];
    assert parts[1..][1..][1..] == ["R" + read, setNumber];
    assert parts[1..][1..] == ["L" + lane, "R" + read, setNumber];
    assert parts[1..] == [tag, "L" + lane, "R" + read, setNumber];
    assert Join(parts[1..][1..][1..], '_') == "R" + read + "_" + setNumber;
    assert Join(parts[1..][1..], '_') == "L" + lane + "_" + "R" + read + "_" + setNumber;
    assert Join(parts[1..], '_') == tag + "_" + "L" + lane + "_" + "R" + read + "_" + setNumber;
  }

  /** A predicted name is the start of the fastq file names CASAVA writes
      for the row: the fastq name for any read and set number is the
      prediction followed by "_R<read>_<set>". */
  lemma OutputNameStartsFastqName(r: Row, read: int, setNumber: int)
    ensures Fastq.Format(Fastq.FastqName(r.sampleId, BarcodeOf(r.index), r.lane, read, setNumber))
         == OutputName(r) + "_R" + PadInt(read, 0) + "_" + PadInt(setNumber, 3)
  {
    var f := Fastq.FastqName(r.sampleId, BarcodeOf(r.index), r.lane, read, setNumber);
    assert Fastq.BarcodeToken(f.barcode) == IndexTag(r.index);
    JoinFive(r.sampleId, IndexTag(r.index), PadInt(r.lane, 3), PadInt(read, 0), PadInt(setNumber, 3));
  }
}
