/** get_casava_sample_sheet: recognises which of the two sample sheet
    dialects a file is written in and converts its rows to CASAVA rows.

    The file is a sequence of lines without their terminators. Splitting a
    line into cells and reading a header-led table into column -> value
    maps belong to TabFile, which is not part of this model; both arrive
    as function parameters, as do the integer conversion of Lane and
    bcf_utils.extract_initials. */
module Converter {
  import opened Wrappers
  import opened Text
  import opened SampleSheet
  import opened Seqs

  /** The two dialects, with the lines each goes on to read. */
  datatype Dialect =
    | Sectioned(data: seq<string>)
    | Flat(columns: seq<string>, data: seq<string>)

  datatype ConvertError =
    | NotRecognised
    | NoDataSection
    | MissingColumn(row: nat, column: string)
    | FlatFieldCount(row: nat, count: nat)

  /** The first line, or "" for an empty file (what readline returns). */
  function FirstLine(lines: seq<string>): string {
    if |lines| > 0 then lines[0] else ""
  }

  /** Index of the first line starting with "[Data]" at or after from. */
  function FindData(lines: seq<string>, from: nat): (r: Option<nat>)
    ensures r.Some? ==> from <= r.value < |lines| && StartsWith(lines[r.value], "[Data]")
    decreases |lines| - from
  {
    if from >= |lines| then None
    else if StartsWith(lines[from], "[Data]") then Some(from)
    else FindData(lines, from + 1)
  }

  lemma {:induction false} FindDataSpec(lines: seq<string>, from: nat)
    ensures FindData(lines, from).Some? ==>
      var j := FindData(lines, from).value;
      from <= j < |lines| && StartsWith(lines[j], "[Data]")
      && forall k :: from <= k < j ==> !StartsWith(lines[k], "[Data]")
    ensures FindData(lines, from).None? <==> forall k :: from <= k < |lines| ==> !StartsWith(lines[k], "[Data]")
    decreases |lines| - from
  {
    if from < |lines| && !StartsWith(lines[from], "[Data]") {
      FindDataSpec(lines, from + 1);
    }
  }

  /** The dialect test on the first line: "[Header]" opens the sectioned
      dialect, whose table starts after the first "[Data]" line; otherwise
      a first line holding a comma is the flat dialect's header. */
  function Sniff(lines: seq<string>): Result<Dialect, ConvertError> {
    var first := FirstLine(lines);
    if StartsWith(first, "[Header]") then
      match FindData(lines, 0)
      case None => Err(NoDataSection)
      case Some(j) => Ok(Sectioned(lines[j + 1..]))
    else if ',' in first then Ok(Flat(Split(first, ','), lines[1..]))
    else Err(NotRecognised)
  }

  /** The three-way rule, with what each dialect goes on to read. */
  lemma SniffSpec(lines: seq<string>)
    ensures var first := FirstLine(lines);
      && (Sniff(lines).Ok? && Sniff(lines).value.Sectioned? <==>
            StartsWith(first, "[Header]") && exists j :: 0 <= j < |lines| && StartsWith(lines[j], "[Data]"))
      && (Sniff(lines) == Err(NoDataSection) <==>
            StartsWith(first, "[Header]") && forall j :: 0 <= j < |lines| ==> !StartsWith(lines[j], "[Data]"))
      && (Sniff(lines).Ok? && Sniff(lines).value.Flat? <==> !StartsWith(first, "[Header]") && ',' in first)
      && (Sniff(lines) == Err(NotRecognised) <==> !StartsWith(first, "[Header]") && ',' !in first)
  {
    FindDataSpec(lines, 0);
  }

  /** The sectioned table is everything after the first "[Data]" line. */
  lemma SectionedData(lines: seq<string>, j: nat)
    requires StartsWith(FirstLine(lines), "[Header]")
    requires j < |lines| && StartsWith(lines[j], "[Data]")
    requires forall k :: 0 <= k < j ==> !StartsWith(lines[k], "[Data]")
    ensures Sniff(lines) == Ok(Sectioned(lines[j + 1..]))
  {
    FindDataSpec(lines, 0);
  }

  /** The flat dialect's header is the first line split at commas and its
      data is every later line. */
  lemma FlatData(lines: seq<string>)
    requires !StartsWith(FirstLine(lines), "[Header]") && ',' in FirstLine(lines)
    ensures |lines| > 0
    ensures Sniff(lines) == Ok(Flat(Split(lines[0], ','), lines[1..]))
    ensures Join(Sniff(lines).value.columns, ',') == lines[0]
  {
    JoinSplit(lines[0], ',');
  }

  // ---------------------------------------------------------------------
  // The source's skip-to-[Data] loop

  /** readline on a file of these lines after k calls: "" once the lines
      are used up. */
  function ReadLine(lines: seq<string>, k: nat): string {
    if k < |lines| then lines[k] else ""
  }

  /** The loop re-reads while the line does not start with "[Data]": on a
      sectioned file without a "[Data]" line its guard holds at every step,
      so it never stops. */
  lemma SkipNeverFindsData(lines: seq<string>, k: nat)
    requires StartsWith(FirstLine(lines), "[Header]")
    requires forall j :: 0 <= j < |lines| ==> !StartsWith(lines[j], "[Data]")
    ensures !StartsWith(ReadLine(lines, k), "[Data]")
  {
  }

  /** The smallest such file: the header line alone. */
  lemma HeaderOnlyNeverFindsData(k: nat)
    ensures !StartsWith(ReadLine(["[Header]"], k), "[Data]")
    ensures Sniff(["[Header]"]) == Err(NoDataSection)
  {
    assert StartsWith("[Header]", "[Header]");
    assert !StartsWith("[Header]", "[Data]") by {
      assert "[Header]"[..6] != "[Data]" by {
        assert "[Header]"[1] == 'H';
      }
    }
    SkipNeverFindsData(["[Header]"], k);
  }

  // ---------------------------------------------------------------------
  // Sectioned rows

  /** str(value).strip('"') applied to every column. */
  function StripQuotes(m: map<string, string>): (r: map<string, string>)
    ensures r.Keys == m.Keys
  {
    map k | k in m :: Unquote(m[k])
  }

  /** The Index column: "index-index2" when both columns exist, index
      alone when only it exists, "" otherwise. */
  function IndexOf(m: map<string, string>): string {
    if "index" in m && "index2" in m then m["index"] + "-" + m["index2"]
    else if "index" in m then m["index"]
    else ""
  }

  /** One sectioned row (quotes already stripped) as a CASAVA row.
      Sample_ID, Description and Sample_Project are looked up in that
      order and a missing one is an error; a missing Lane is lane 1. */
  function MapRow(m: map<string, string>, row: nat, fcid: string,
                  laneOf: string -> int, initials: string -> string): Result<Row, ConvertError>
  {
    var lane := if "Lane" in m then laneOf(m["Lane"]) else 1;
    if "Sample_ID" !in m then Err(MissingColumn(row, "Sample_ID"))
    else if "Description" !in m then Err(MissingColumn(row, "Description"))
    else if "Sample_Project" !in m then Err(MissingColumn(row, "Sample_Project"))
    else
      var project := if m["Sample_Project"] == "" then initials(m["Sample_ID"]) else m["Sample_Project"];
      Ok(Row(fcid, lane, m["Sample_ID"], "", IndexOf(m), m["Description"], "", "", "", project))
  }

  /** The columns a sectioned row is built from. */
  const UsedColumns: set<string> := {"Lane", "index", "index2", "Sample_ID", "Description", "Sample_Project"}

  /** The columns a sectioned row cannot do without. */
  predicate Required(m: map<string, string>) {
    "Sample_ID" in m && "Description" in m && "Sample_Project" in m
  }

  /** Whether a row converts, and the FCID it then carries. */
  lemma MapRowOk(m: map<string, string>, row: nat, fcid: string, laneOf: string -> int, initials: string -> string)
    ensures var r := MapRow(m, row, fcid, laneOf, initials);
      (r.Ok? <==> Required(m)) && (r.Ok? ==> r.value.fcid == fcid)
  {
  }

  /** Two column maps agree on the columns cols: each has such a column
      exactly when the other does, with the same value. */
  predicate AgreeOn(a: map<string, string>, b: map<string, string>, cols: set<string>) {
    forall c :: c in cols ==> (c in a <==> c in b) && (c in a ==> a[c] == b[c])
  }

  /** A row depends on nothing but the columns it reads: two source rows
      that agree on those columns give the same CASAVA row. */
  lemma MapRowReadsUsedColumns(m1: map<string, string>, m2: map<string, string>, row: nat, fcid: string,
                               laneOf: string -> int, initials: string -> string)
    requires AgreeOn(m1, m2, UsedColumns)
    ensures MapRow(m1, row, fcid, laneOf, initials) == MapRow(m2, row, fcid, laneOf, initials)
  {
    assert "Lane" in UsedColumns && "index" in UsedColumns && "index2" in UsedColumns;
    assert "Sample_ID" in UsedColumns && "Description" in UsedColumns && "Sample_Project" in UsedColumns;
  }

  /** Index columns the Index field preserves: neither half holds a '-',
      index2 comes only with index, and a lone index is not empty. */
  predicate IndexRecoverable(m: map<string, string>) {
    && ("index" in m ==> '-' !in m["index"])
    && ("index2" in m ==> "index" in m && '-' !in m["index2"])
    && ("index" in m && "index2" !in m ==> m["index"] != "")
  }

  /** Reads an Index field back as index columns: two '-'-separated halves
      are index and index2, an empty field is no index, anything else a
      lone index. */
  function IndexColumns(tag: string): map<string, string> {
    var parts := Split(tag, '-');
    if |parts| == 2 then map["index" := parts[0], "index2" := parts[1]]
    else if tag == "" then map[]
    else map["index" := tag]
  }

  /** Reads a CASAVA row back as the sectioned columns it came from. */
  function Columns(r: Row): map<string, string> {
    IndexColumns(r.index)["Sample_ID" := r.sampleId]["Description" := r.description]["Sample_Project" := r.sampleProject]
  }

  /** The three forms of the Index field are told apart: a dual index, a
      lone index and no index each read back as the index columns they
      came from, and only a missing (or empty lone) index gives "". */
  lemma IndexOfReadsBack(m: map<string, string>)
    ensures IndexRecoverable(m) ==> AgreeOn(IndexColumns(IndexOf(m)), m, {"index", "index2"})
    ensures IndexOf(m) == "" <==> "index" !in m || ("index2" !in m && m["index"] == "")
  {
    if IndexRecoverable(m) {
      var back := IndexColumns(IndexOf(m));
      if "index" in m && "index2" in m {
        var parts := [m["index"], m["index2"]];
        assert parts[1..] == [m["index2"]];
        assert Join(parts, '-') == IndexOf(m);
        SplitJoin(parts, '-');
        assert back == map["index" := m["index"], "index2" := m["index2"]];
      } else if "index" in m {
        SplitJoin([m["index"]], '-');
        assert back == map["index" := m["index"]];
      } else {
        assert back == map[];
      }
    }
  }

  /** Reading a converted row back gives the sectioned columns it was made
      from: Sample_ID and Description always, Sample_Project unless it was
      empty (then the initials of the sample ID stand in), and the index
      columns whenever the Index field preserves them. Lane is converted
      and cannot be read back as text; the row converts exactly when the
      required columns are there, and a missing one is named. */
  lemma MapRowRoundTrip(m: map<string, string>, row: nat, fcid: string, laneOf: string -> int, initials: string -> string)
    ensures var r := MapRow(m, row, fcid, laneOf, initials);
      && (r.Ok? <==> Required(m))
      && (r.Err? ==> r.error.MissingColumn? && r.error.row == row && r.error.column in UsedColumns && r.error.column !in m)
      && (r.Ok? ==> r.value.fcid == fcid && r.value.lane == (if "Lane" in m then laneOf(m["Lane"]) else 1))
      && (r.Ok? ==> AgreeOn(Columns(r.value), m, {"Sample_ID", "Description"}))
      && (r.Ok? ==> Columns(r.value)["Sample_Project"] ==
                      (if m["Sample_Project"] == "" then initials(m["Sample_ID"]) else m["Sample_Project"]))
      && (r.Ok? && IndexRecoverable(m) ==> AgreeOn(Columns(r.value), m, {"index", "index2"}))
      && (r.Ok? ==> r.value.sampleRef == r.value.control == r.value.recipe == r.value.operator == "")
  {
    var r := MapRow(m, row, fcid, laneOf, initials);
    if r.Ok? {
      IndexOfReadsBack(m);
      var back := Columns(r.value);
      var ix := IndexColumns(IndexOf(m));
      assert forall c :: c in {"index", "index2"} ==> (c in back <==> c in ix) && (c in ix ==> back[c] == ix[c]);
    }
  }

  /** Converts every sectioned row, stopping at the first that lacks a
      required column. */
  function ConvertSectioned(records: seq<map<string, string>>, first: nat, fcid: string,
                            laneOf: string -> int, initials: string -> string): Result<seq<Row>, ConvertError>
    decreases |records|
  {
    if |records| == 0 then Ok([])
    else
      var r :- MapRow(StripQuotes(records[0]), first, fcid, laneOf, initials);
      var rest :- ConvertSectioned(records[1..], first + 1, fcid, laneOf, initials);
      Ok([r] + rest)
  }

  /** Every row of the table has the columns a CASAVA row needs. */
  predicate HasRequiredColumns(records: seq<map<string, string>>) {
    forall k :: 0 <= k < |records| ==> Required(records[k])
  }

  lemma HasRequiredColumnsCons(records: seq<map<string, string>>)
    requires |records| > 0
    ensures HasRequiredColumns(records) <==> Required(records[0]) && HasRequiredColumns(records[1..])
  {
    if Required(records[0]) && HasRequiredColumns(records[1..]) {
      forall k | 0 <= k < |records| ensures Required(records[k]) {
        if k > 0 {
          assert records[k] == records[1..][k - 1];
        }
      }
    }
  }

  /** The conversion succeeds exactly when every row has the required
      columns. */
  lemma {:induction false} ConvertSectionedOk(records: seq<map<string, string>>, first: nat, fcid: string,
                                              laneOf: string -> int, initials: string -> string)
    ensures ConvertSectioned(records, first, fcid, laneOf, initials).Ok? <==> HasRequiredColumns(records)
    decreases |records|
  {
    if |records| > 0 {
      ConvertSectionedOk(records[1..], first + 1, fcid, laneOf, initials);
      MapRowOk(StripQuotes(records[0]), first, fcid, laneOf, initials);
      HasRequiredColumnsCons(records);
    }
  }

  /** A successful conversion converts the rows one for one, in order. */
  lemma {:induction false} ConvertSectionedRows(records: seq<map<string, string>>, first: nat, fcid: string,
                                                laneOf: string -> int, initials: string -> string)
    ensures var r := ConvertSectioned(records, first, fcid, laneOf, initials);
      && (r.Ok? ==> |r.value| == |records|)
      && (r.Ok? ==> forall k :: 0 <= k < |records| ==>
            Ok(r.value[k]) == MapRow(StripQuotes(records[k]), first + k, fcid, laneOf, initials))
    decreases |records|
  {
    if |records| > 0 {
      var rest := records[1..];
      ConvertSectionedRows(rest, first + 1, fcid, laneOf, initials);
      var r := ConvertSectioned(records, first, fcid, laneOf, initials);
      if r.Ok? {
        var h := MapRow(StripQuotes(records[0]), first, fcid, laneOf, initials);
        var t := ConvertSectioned(rest, first + 1, fcid, laneOf, initials);
        assert h.Ok? && t.Ok? && r.value == [h.value] + t.value;
        forall k | 0 <= k < |records|
          ensures Ok(r.value[k]) == MapRow(StripQuotes(records[k]), first + k, fcid, laneOf, initials)
        {
          if k > 0 {
            assert records[k] == rest[k - 1] && r.value[k] == t.value[k - 1];
          }
        }
      }
    }
  }

  // ---------------------------------------------------------------------
  // Flat rows

  /** Quotes stripped from every cell. */
  function StripCells(cells: seq<string>): (r: seq<string>)
    ensures |r| == |cells|
  {
    seq(|cells|, k requires 0 <= k < |cells| => Unquote(cells[k]))
  }

  /** A flat line the converter skips: its first cell starts with '#', or
      the whole line is blank. */
  predicate Skipped(cells: seq<string>) {
    (|cells| > 0 && StartsWith(cells[0], "#")) || Trim(Join(cells, ','), Whitespace) == ""
  }

  /** The flat dialect is copied through row for row, skipping commented
      and blank lines; a kept line must have the ten CASAVA columns. */
  function ConvertFlat(lines: seq<seq<string>>, first: nat, laneOf: string -> int): Result<seq<Row>, ConvertError>
    decreases |lines|
  {
    if |lines| == 0 then Ok([])
    else
      var cells := StripCells(lines[0]);
      if Skipped(cells) then ConvertFlat(lines[1..], first + 1, laneOf)
      else if |cells| != ColumnCount then Err(FlatFieldCount(first, |cells|))
      else
        var rest :- ConvertFlat(lines[1..], first + 1, laneOf);
        Ok([RowOf(cells, laneOf)] + rest)
  }

  /** The flat lines that are kept, with quotes stripped. */
  function Kept(lines: seq<seq<string>>): seq<seq<string>>
    decreases |lines|
  {
    if |lines| == 0 then []
    else
      var cells := StripCells(lines[0]);
      (if Skipped(cells) then [] else [cells]) + Kept(lines[1..])
  }

  /** Every kept line has the ten CASAVA columns. */
  predicate AllComplete(kept: seq<seq<string>>) {
    forall k :: 0 <= k < |kept| ==> |kept[k]| == ColumnCount
  }

  lemma AllCompleteCons(cells: seq<string>, rest: seq<seq<string>>)
    ensures AllComplete([cells] + rest) <==> |cells| == ColumnCount && AllComplete(rest)
  {
    var kept := [cells] + rest;
    if AllComplete(kept) {
      assert kept[0] == cells;
      forall k | 0 <= k < |rest| ensures |rest[k]| == ColumnCount {
        assert rest[k] == kept[k + 1];
      }
    }
    if |cells| == ColumnCount && AllComplete(rest) {
      forall k | 0 <= k < |kept| ensures |kept[k]| == ColumnCount {
        if k > 0 {
          assert kept[k] == rest[k - 1];
        }
      }
    }
  }

  /** The flat conversion succeeds exactly when every kept line has ten
      cells. */
  lemma {:induction false} ConvertFlatOk(lines: seq<seq<string>>, first: nat, laneOf: string -> int)
    ensures ConvertFlat(lines, first, laneOf).Ok? <==> AllComplete(Kept(lines))
    decreases |lines|
  {
    if |lines| > 0 {
      ConvertFlatOk(lines[1..], first + 1, laneOf);
      var cells := StripCells(lines[0]);
      if !Skipped(cells) {
        AllCompleteCons(cells, Kept(lines[1..]));
      } else {
        assert Kept(lines) == Kept(lines[1..]);
      }
    }
  }

  /** One step of the flat conversion: a skipped line adds nothing, a kept
      one adds its row in front. */
  lemma ConvertFlatStep(lines: seq<seq<string>>, first: nat, laneOf: string -> int)
    requires |lines| > 0
    ensures var cells := StripCells(lines[0]);
      var r := ConvertFlat(lines, first, laneOf);
      var t := ConvertFlat(lines[1..], first + 1, laneOf);
      && (Skipped(cells) ==> Kept(lines) == Kept(lines[1..]) && r == t)
      && (!Skipped(cells) ==> Kept(lines) == [cells] + Kept(lines[1..]))
      && (!Skipped(cells) && r.Ok? ==> |cells| == ColumnCount && t.Ok? && r.value == [RowOf(cells, laneOf)] + t.value)
  {
  }

  /** A successful flat conversion yields one row per kept line, in
      order. */
  lemma {:induction false} ConvertFlatRows(lines: seq<seq<string>>, first: nat, laneOf: string -> int)
    ensures var r := ConvertFlat(lines, first, laneOf);
      var kept := Kept(lines);
      && |kept| <= |lines|
      && (r.Ok? ==> |r.value| == |kept|)
      && (r.Ok? ==> forall k :: 0 <= k < |kept| ==> |kept[k]| == ColumnCount && r.value[k] == RowOf(kept[k], laneOf))
    decreases |lines|
  {
    if |lines| > 0 {
      var cells := StripCells(lines[0]);
      ConvertFlatRows(lines[1..], first + 1, laneOf);
      ConvertFlatStep(lines, first, laneOf);
      var kept := Kept(lines);
      var rest := Kept(lines[1..]);
      var r := ConvertFlat(lines, first, laneOf);
      var t := ConvertFlat(lines[1..], first + 1, laneOf);
      if !Skipped(cells) && r.Ok? {
        forall k | 0 <= k < |kept|
          ensures |kept[k]| == ColumnCount && r.value[k] == RowOf(kept[k], laneOf)
        {
          if k > 0 {
            assert kept[k] == rest[k - 1] && r.value[k] == t.value[k - 1];
          }
        }
      }
    }
  }

  /** Every cell is already free of surrounding quotes. */
  predicate Stripped(cells: seq<string>) {
    forall j :: 0 <= j < |cells| ==> Unquote(cells[j]) == cells[j]
  }

  /** Every flat line, with quotes stripped. */
  function StripAll(lines: seq<seq<string>>): (r: seq<seq<string>>)
    ensures |r| == |lines| && forall k :: 0 <= k < |lines| ==> r[k] == StripCells(lines[k])
  {
    seq(|lines|, k requires 0 <= k < |lines| => StripCells(lines[k]))
  }

  /** idx lists, in order, exactly the positions of the lines the
      converter does not skip. */
  predicate KeptAt(lines: seq<seq<string>>, idx: seq<nat>) {
    && IncreasingBelow(idx, |lines|)
    && forall k :: 0 <= k < |lines| ==> (k in idx <==> !Skipped(StripCells(lines[k])))
  }

  /** The positions kept from the lines after the first. */
  lemma KeptAtTail(lines: seq<seq<string>>, idx: seq<nat>)
    requires |lines| > 0 && KeptAt(lines, idx)
    ensures KeptAt(lines[1..], Later(idx, |lines| - 1))
  {
    var n := |lines| - 1;
    var rest := lines[1..];
    LaterMembers(idx, n);
    forall k | 0 <= k < n ensures k in Later(idx, n) <==> !Skipped(StripCells(rest[k])) {
      assert rest[k] == lines[k + 1];
    }
  }

  /** The kept lines are the stripped lines at exactly the positions not
      skipped, in file order. */
  lemma {:induction false} KeptInOrder(lines: seq<seq<string>>, idx: seq<nat>)
    requires KeptAt(lines, idx)
    ensures Kept(lines) == Pick(StripAll(lines), idx)
    decreases |lines|
  {
    if |lines| == 0 {
      IncreasingBelowLength(idx, 0);
    } else {
      var rest := lines[1..];
      KeptAtTail(lines, idx);
      KeptInOrder(rest, Later(idx, |lines| - 1));
      ZeroFirst(idx);
      PickLater(StripAll(lines), idx);
      assert StripAll(lines)[1..] == StripAll(rest);
    }
  }

  /** The kept lines are stripped and are not lines the converter skips. */
  lemma {:induction false} KeptNotSkipped(lines: seq<seq<string>>)
    ensures forall k :: 0 <= k < |Kept(lines)| ==> !Skipped(Kept(lines)[k]) && Stripped(Kept(lines)[k])
    decreases |lines|
  {
    if |lines| > 0 {
      KeptNotSkipped(lines[1..]);
      var cells := StripCells(lines[0]);
      var rest := Kept(lines[1..]);
      forall j | 0 <= j < |cells| ensures Unquote(cells[j]) == cells[j] {
        TrimIdempotent(lines[0][j], Quote);
      }
      if !Skipped(cells) {
        assert Kept(lines) == [cells] + rest;
        assert forall k :: 1 <= k < |Kept(lines)| ==> Kept(lines)[k] == rest[k - 1];
      }
    }
  }

  /** The kept lines are stripped and are not lines the converter skips;
      conversely every line that is not skipped is kept, in file order:
      the kept lines are the stripped lines at the positions not skipped. */
  lemma KeptSpec(lines: seq<seq<string>>)
    ensures forall k :: 0 <= k < |Kept(lines)| ==> !Skipped(Kept(lines)[k]) && Stripped(Kept(lines)[k])
    ensures exists idx :: KeptAt(lines, idx)
    ensures forall idx :: KeptAt(lines, idx) ==> Kept(lines) == Pick(StripAll(lines), idx)
  {
    KeptNotSkipped(lines);
    var all := Enumeration(|lines|, (k: nat) => k < |lines| && !Skipped(StripCells(lines[k])));
    assert KeptAt(lines, all);
    forall idx | KeptAt(lines, idx) ensures Kept(lines) == Pick(StripAll(lines), idx) {
      KeptInOrder(lines, idx);
    }
  }

  /** A kept line does not become a commented row. */
  lemma FlatRowNotComment(cells: seq<string>, laneOf: string -> int)
    requires |cells| == ColumnCount && !Skipped(cells) && Stripped(cells)
    ensures !IsComment(RowOf(cells, laneOf))
  {
  }

  /** No row of a successful flat conversion is a comment. */
  lemma ConvertFlatNoComments(lines: seq<seq<string>>, first: nat, laneOf: string -> int)
    ensures var r := ConvertFlat(lines, first, laneOf);
      r.Ok? ==> forall k :: 0 <= k < |r.value| ==> !IsComment(r.value[k])
  {
    ConvertFlatRows(lines, first, laneOf);
    KeptNotSkipped(lines);
    var r := ConvertFlat(lines, first, laneOf);
    if r.Ok? {
      forall k | 0 <= k < |r.value| ensures !IsComment(r.value[k]) {
        FlatRowNotComment(Kept(lines)[k], laneOf);
      }
    }
  }

  // ---------------------------------------------------------------------
  // The whole conversion

  /** get_casava_sample_sheet on the lines of a file. table reads the
      sectioned dialect's header-led table into column -> value maps and
      cells splits one flat line. */
  function GetCasavaSampleSheet(lines: seq<string>, fcid: string,
                                table: seq<string> -> seq<map<string, string>>,
                                cells: string -> seq<string>,
                                laneOf: string -> int, initials: string -> string): Result<seq<Row>, ConvertError>
  {
    var dialect :- Sniff(lines);
    match dialect
    case Sectioned(data) => ConvertSectioned(table(data), 0, fcid, laneOf, initials)
    case Flat(_, data) => ConvertFlat(seq(|data|, k requires 0 <= k < |data| => cells(data[k])), 0, laneOf)
  }

  /** A sectioned file converts exactly when its table has the required
      columns in every row; each row then carries the supplied FCID. */
  lemma SectionedSheet(lines: seq<string>, fcid: string,
                       table: seq<string> -> seq<map<string, string>>, cells: string -> seq<string>,
                       laneOf: string -> int, initials: string -> string)
    requires Sniff(lines).Ok? && Sniff(lines).value.Sectioned?
    ensures var r := GetCasavaSampleSheet(lines, fcid, table, cells, laneOf, initials);
      var t := table(Sniff(lines).value.data);
      && (r.Ok? <==> HasRequiredColumns(t))
      && (r.Ok? ==> |r.value| == |t| && forall k :: 0 <= k < |r.value| ==> r.value[k].fcid == fcid)
  {
    var t := table(Sniff(lines).value.data);
    ConvertSectionedOk(t, 0, fcid, laneOf, initials);
    ConvertSectionedRows(t, 0, fcid, laneOf, initials);
    var r := ConvertSectioned(t, 0, fcid, laneOf, initials);
    if r.Ok? {
      forall k | 0 <= k < |r.value| ensures r.value[k].fcid == fcid {
        MapRowOk(StripQuotes(t[k]), k, fcid, laneOf, initials);
      }
    }
  }

  /** The first row of the single-index example sheet: no Lane column, so
      lane 1, and its own Sample_Project. */
  lemma SingleIndexExample(fcid: string, laneOf: string -> int, initials: string -> string)
    ensures MapRow(map["Sample_ID" := "PB1", "Sample_Name" := "", "Sample_Plate" := "PB", "Sample_Well" := "A01",
                       "I7_Index_ID" := "A001", "index" := "ATCACG", "Sample_Project" := "PB", "Description" := ""],
                   0, fcid, laneOf, initials)
         == Ok(Row(fcid, 1, "PB1", "", "ATCACG", "", "", "", "", "PB"))
  {
  }

  /** The first row of the dual-index example sheet: the two indexes are
      joined with '-', and the empty Sample_Project is filled with the
      initials of the sample ID. */
  lemma DualIndexExample(fcid: string, laneOf: string -> int, initials: string -> string)
    ensures MapRow(map["Sample_ID" := "PB1", "Sample_Name" := "", "Sample_Plate" := "PB", "Sample_Well" := "A01",
                       "I7_Index_ID" := "N701", "index" := "TAAGGCGA", "I5_Index_ID" := "N501", "index2" := "TAGATCGC",
                       "Sample_Project" := "", "Description" := "", "GenomeFolder" := ""],
                   0, fcid, laneOf, initials)
         == Ok(Row(fcid, 1, "PB1", "", "TAAGGCGA-TAGATCGC", "", "", "", "", initials("PB1")))
  {
    var m := map["Sample_ID" := "PB1", "Sample_Name" := "", "Sample_Plate" := "PB", "Sample_Well" := "A01",
                 "I7_Index_ID" := "N701", "index" := "TAAGGCGA", "I5_Index_ID" := "N501", "index2" := "TAGATCGC",
                 "Sample_Project" := "", "Description" := "", "GenomeFolder" := ""];
    assert m["index"] == "TAAGGCGA" && m["index2"] == "TAGATCGC";
    assert IndexOf(m) == "TAAGGCGA-TAGATCGC";
  }
}
