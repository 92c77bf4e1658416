/** The CASAVA sample sheet table (class CasavaSampleSheet): ten columns
    per row, loaded from comma-separated records with the double quotes
    around each value removed and commented rows dropped. */
module SampleSheet {
  import opened Wrappers
  import opened Text
  import opened Seqs

  /** One line of the sheet, in column order
      FCID,Lane,SampleID,SampleRef,Index,Description,Control,Recipe,Operator,SampleProject. */
  datatype Row = Row(
    fcid: string,
    lane: int,
    sampleId: string,
    sampleRef: string,
    index: string,
    description: string,
    control: string,
    recipe: string,
    operator: string,
    sampleProject: string)

  const ColumnCount: nat := 10

  /** A record whose field count is not ColumnCount; line counts data
      records from 0. */
  datatype SheetError = WrongFieldCount(line: nat, count: nat)

  const Quote: set<char> := {'"'}

  /** str(value).strip('"'). */
  function Unquote(s: string): string {
    Trim(s, Quote)
  }

  /** A row built from ten raw fields. The integer conversion the table
      applies to the Lane column is the parameter laneOf. */
  function RowOf(fields: seq<string>, laneOf: string -> int): Row
    requires |fields| == ColumnCount
  {
    Row(Unquote(fields[0]), laneOf(Unquote(fields[1])), Unquote(fields[2]),
        Unquote(fields[3]), Unquote(fields[4]), Unquote(fields[5]),
        Unquote(fields[6]), Unquote(fields[7]), Unquote(fields[8]),
        Unquote(fields[9]))
  }

  /** The text fields of a row. */
  function TextFields(r: Row): seq<string> {
    [r.fcid, r.sampleId, r.sampleRef, r.index, r.description,
     r.control, r.recipe, r.operator, r.sampleProject]
  }

  /** Neither begins nor ends with a double quote. */
  predicate QuoteFree(s: string) {
    |s| > 0 ==> s[0] != '"' && s[|s| - 1] != '"'
  }

  /** No text field begins or ends with a double quote. */
  predicate Unquoted(r: Row) {
    forall i :: 0 <= i < |TextFields(r)| ==> QuoteFree(TextFields(r)[i])
  }

  /** The rendered line starts with '#' exactly when the FCID does. */
  predicate IsComment(r: Row) {
    StartsWith(r.fcid, "#")
  }

  /** Converts every record, failing on the first one that does not have
      ten fields. */
  function RowsOf(records: seq<seq<string>>, laneOf: string -> int, first: nat): (r: Result<seq<Row>, SheetError>)
    ensures r.Ok? ==> |r.value| == |records|
    ensures r.Ok? <==> forall i :: 0 <= i < |records| ==> |records[i]| == ColumnCount
    ensures r.Ok? ==> forall i :: 0 <= i < |records| ==> r.value[i] == RowOf(records[i], laneOf)
    decreases |records|
  {
    if |records| == 0 then Ok([])
    else if |records[0]| != ColumnCount then Err(WrongFieldCount(first, |records[0]|))
    else
      match RowsOf(records[1..], laneOf, first + 1)
      case Err(e) => Err(e)
      case Ok(rest) =>
        assert forall i :: 1 <= i < |records| ==> records[i] == records[1..][i - 1];
        Ok([RowOf(records[0], laneOf)] + rest)
  }

  // ---------------------------------------------------------------------
  // Comment removal

  /** The rows that are not comments, in order. */
  function DropComments(rows: seq<Row>): seq<Row>
  {
    if |rows| == 0 then []
    else (if IsComment(rows[0]) then [] else [rows[0]]) + DropComments(rows[1..])
  }

  /** idx lists, in order, exactly the positions of the rows that are not
      comments. */
  predicate PlainAt(rows: seq<Row>, idx: seq<nat>) {
    && IncreasingBelow(idx, |rows|)
    && forall k :: 0 <= k < |rows| ==> (k in idx <==> !IsComment(rows[k]))
  }

  /** The plain positions of the rows after the first. */
  lemma PlainAtTail(rows: seq<Row>, idx: seq<nat>)
    requires |rows| > 0 && PlainAt(rows, idx)
    ensures PlainAt(rows[1..], Later(idx, |rows| - 1))
  {
    var n := |rows| - 1;
    var rest := rows[1..];
    LaterMembers(idx, n);
    forall k | 0 <= k < n ensures k in Later(idx, n) <==> !IsComment(rest[k]) {
      assert rest[k] == rows[k + 1];
    }
  }

  /** Dropping comments keeps the rows at exactly the plain positions, in
      order and each once per position. */
  lemma {:induction false} DropCommentsInOrder(rows: seq<Row>, idx: seq<nat>)
    requires PlainAt(rows, idx)
    ensures DropComments(rows) == Pick(rows, idx)
    decreases |rows|
  {
    if |rows| == 0 {
      IncreasingBelowLength(idx, 0);
    } else {
      PlainAtTail(rows, idx);
      DropCommentsInOrder(rows[1..], Later(idx, |rows| - 1));
      ZeroFirst(idx);
      PickLater(rows, idx);
    }
  }

  /** Every row list has its list of plain positions. */
  lemma PlainPositions(rows: seq<Row>)
    ensures exists idx :: PlainAt(rows, idx)
  {
    var idx := Enumeration(|rows|, (k: nat) => k < |rows| && !IsComment(rows[k]));
    assert PlainAt(rows, idx);
  }

  /** Dropping comments keeps exactly the plain rows, in their order and
      with their repeats: the rows at the plain positions. */
  lemma {:induction false} DropCommentsSpec(rows: seq<Row>)
    ensures forall r :: r in DropComments(rows) <==> r in rows && !IsComment(r)
    ensures |DropComments(rows)| <= |rows|
    ensures (forall i :: 0 <= i < |rows| ==> !IsComment(rows[i])) ==> DropComments(rows) == rows
    ensures exists idx :: PlainAt(rows, idx)
    ensures forall idx :: PlainAt(rows, idx) ==> DropComments(rows) == Pick(rows, idx)
  {
    PlainPositions(rows);
    forall idx | PlainAt(rows, idx) ensures DropComments(rows) == Pick(rows, idx) {
      DropCommentsInOrder(rows, idx);
    }
    DropCommentsMembers(rows);
  }

  lemma {:induction false} DropCommentsMembers(rows: seq<Row>)
    ensures forall r :: r in DropComments(rows) <==> r in rows && !IsComment(r)
    ensures |DropComments(rows)| <= |rows|
    ensures (forall i :: 0 <= i < |rows| ==> !IsComment(rows[i])) ==> DropComments(rows) == rows
    decreases |rows|
  {
    if |rows| > 0 {
      DropCommentsMembers(rows[1..]);
      assert rows == [rows[0]] + rows[1..];
      if forall i :: 0 <= i < |rows| ==> !IsComment(rows[i]) {
        assert forall i :: 0 <= i < |rows[1..]| ==> !IsComment(rows[1..][i]) by {
          forall i | 0 <= i < |rows[1..]| ensures !IsComment(rows[1..][i]) {
            assert rows[1..][i] == rows[i + 1];
          }
        }
      }
    }
  }

  lemma {:induction false} DropCommentsAppend(a: seq<Row>, b: seq<Row>)
    ensures DropComments(a + b) == DropComments(a) + DropComments(b)
    decreases |a|
  {
    if |a| == 0 {
      assert a + b == b;
    } else {
      assert (a + b)[1..] == a[1..] + b;
      DropCommentsAppend(a[1..], b);
    }
  }

  /** The removal loop as written: enumerate the list by index while
      deleting from it, so the row that moves into a deleted row's place is
      never looked at. */
  function DropCommentsFrom(rows: seq<Row>, i: nat): seq<Row>
    decreases |rows|, |rows| - i
  {
    if i >= |rows| then rows
    else if IsComment(rows[i]) then DropCommentsFrom(rows[..i] + rows[i + 1..], i + 1)
    else DropCommentsFrom(rows, i + 1)
  }

  function DropCommentsAsWritten(rows: seq<Row>): seq<Row> {
    DropCommentsFrom(rows, 0)
  }

  /** No two neighbouring rows are both comments. */
  predicate NoAdjacentComments(rows: seq<Row>) {
    forall i :: 0 <= i < |rows| - 1 ==> !(IsComment(rows[i]) && IsComment(rows[i + 1]))
  }

  /** Deleting a row keeps neighbouring comments apart: the rows that
      become neighbours were two apart, and the row between was the deleted
      comment. */
  lemma DeleteKeepsApart(rows: seq<Row>, i: nat)
    requires i < |rows| && IsComment(rows[i]) && NoAdjacentComments(rows)
    ensures NoAdjacentComments(rows[..i] + rows[i + 1..])
  {
    var rows' := rows[..i] + rows[i + 1..];
    forall j | 0 <= j < |rows'| - 1
      ensures !(IsComment(rows'[j]) && IsComment(rows'[j + 1]))
    {
      if j + 1 < i {
        assert rows'[j] == rows[j] && rows'[j + 1] == rows[j + 1];
      } else if j + 1 == i {
        assert rows'[j + 1] == rows[i + 1];
        assert !IsComment(rows[i + 1]);
      } else {
        assert rows'[j] == rows[j + 1] && rows'[j + 1] == rows[j + 2];
      }
    }
  }

  /** A comment followed by a plain row leaves the plain row. */
  lemma DropCommentThenRow(a: Row, b: Row)
    requires IsComment(a) && !IsComment(b)
    ensures DropComments([a, b]) == [b]
  {
    assert [a, b][1..] == [b];
    assert [b][1..] == [];
    assert DropComments([b]) == [b] + DropComments([]);
    assert DropComments([a, b]) == [] + DropComments([b]);
  }

  /** The deleting step of the loop as written, given what the rest of the
      loop does to the shortened list. */
  lemma DropCommentStep(rows: seq<Row>, i: nat)
    requires i + 1 < |rows| && IsComment(rows[i]) && !IsComment(rows[i + 1])
    requires var rows' := rows[..i] + rows[i + 1..];
      DropCommentsFrom(rows', i + 1) == rows'[..i + 1] + DropComments(rows'[i + 1..])
    ensures DropCommentsFrom(rows, i) == rows[..i] + DropComments(rows[i..])
  {
    var rows' := rows[..i] + rows[i + 1..];
    var tail := rows[i + 2..];
    assert DropCommentsFrom(rows, i) == DropCommentsFrom(rows', i + 1);
    assert rows'[..i + 1] == rows[..i] + [rows[i + 1]];
    assert rows'[i + 1..] == tail;
    assert rows[i..] == [rows[i], rows[i + 1]] + tail;
    DropCommentsAppend([rows[i], rows[i + 1]], tail);
    DropCommentThenRow(rows[i], rows[i + 1]);
    assert DropComments(rows[i..]) == [rows[i + 1]] + DropComments(tail);
  }

  lemma {:induction false} DropCommentsFromFilter(rows: seq<Row>, i: nat)
    requires i <= |rows|
    requires forall j :: 0 <= j < i ==> !IsComment(rows[j])
    requires NoAdjacentComments(rows)
    ensures DropCommentsFrom(rows, i) == rows[..i] + DropComments(rows[i..])
    decreases |rows|, |rows| - i
  {
    if i == |rows| {
      assert rows[..i] == rows;
    } else if IsComment(rows[i]) {
      var rows' := rows[..i] + rows[i + 1..];
      if i + 1 == |rows| {
        assert rows' == rows[..i];
        assert rows[i..] == [rows[i]];
        assert DropComments(rows[i..]) == [] + DropComments([]);
      } else {
        assert !IsComment(rows[i + 1]);
        assert rows'[..i + 1] == rows[..i] + [rows[i + 1]];
        DeleteKeepsApart(rows, i);
        DropCommentsFromFilter(rows', i + 1);
        DropCommentStep(rows, i);
      }
    } else {
      DropCommentsFromFilter(rows, i + 1);
      assert rows[..i + 1] == rows[..i] + [rows[i]];
      assert rows[i..] == [rows[i]] + rows[i + 1..];
    }
  }

  /** The loop as written removes exactly the comments whenever no two
      comments are neighbours, which covers the single commented row. */
  lemma DropCommentsAsWrittenAgrees(rows: seq<Row>)
    requires NoAdjacentComments(rows)
    ensures DropCommentsAsWritten(rows) == DropComments(rows)
  {
    DropCommentsFromFilter(rows, 0);
    assert rows[0..] == rows;
  }

  /** Two commented rows in a row: the loop as written keeps the second. */
  lemma TwoCommentsAsWritten(a: Row, b: Row)
    requires IsComment(a) && IsComment(b)
    ensures DropCommentsAsWritten([a, b]) == [b]
    ensures DropComments([a, b]) == []
  {
    var rows := [a, b];
    assert rows[..0] + rows[1..] == [b];
    assert DropCommentsFrom(rows, 0) == DropCommentsFrom([b], 1);
    assert rows[1..] == [b];
    assert [b][1..] == [];
    assert DropComments([b]) == [] + DropComments([]);
  }

  // ---------------------------------------------------------------------
  // Loading

  /** CasavaSampleSheet(fp): the first record is the header line and is
      skipped; the rest become rows with their quotes removed, and
      commented rows are dropped. */
  function Load(records: seq<seq<string>>, laneOf: string -> int): (r: Result<seq<Row>, SheetError>)
  {
    var data := if |records| == 0 then [] else records[1..];
    match RowsOf(data, laneOf, 0)
    case Err(e) => Err(e)
    case Ok(rows) => Ok(DropComments(rows))
  }

  /** A stripped value has no double quote at either end. */
  lemma UnquoteEnds(s: string)
    ensures QuoteFree(Unquote(s))
  {
  }

  /** A row is unquoted when each of its text fields is. */
  lemma UnquotedFields(r: Row)
    requires QuoteFree(r.fcid) && QuoteFree(r.sampleId) && QuoteFree(r.sampleRef)
    requires QuoteFree(r.index) && QuoteFree(r.description) && QuoteFree(r.control)
    requires QuoteFree(r.recipe) && QuoteFree(r.operator) && QuoteFree(r.sampleProject)
    ensures Unquoted(r)
  {
    var t := TextFields(r);
    forall i | 0 <= i < |t| ensures QuoteFree(t[i]) {
    }
  }

  /** Every field of a loaded row is stripped of its quotes. */
  lemma UnquotedRowOf(fields: seq<string>, laneOf: string -> int)
    requires |fields| == ColumnCount
    ensures Unquoted(RowOf(fields, laneOf))
  {
    UnquoteEnds(fields[0]);
    UnquoteEnds(fields[2]);
    UnquoteEnds(fields[3]);
    UnquoteEnds(fields[4]);
    UnquoteEnds(fields[5]);
    UnquoteEnds(fields[6]);
    UnquoteEnds(fields[7]);
    UnquoteEnds(fields[8]);
    UnquoteEnds(fields[9]);
    UnquotedFields(RowOf(fields, laneOf));
  }

  /** What loading promises: it fails exactly when some data record does
      not have ten fields; otherwise every row is unquoted, none is a
      comment, and the loaded rows are the rows of exactly the records that
      are not comments, in file order and with their repeats. */
  lemma {:induction false} LoadSpec(records: seq<seq<string>>, laneOf: string -> int)
    ensures var data := if |records| == 0 then [] else records[1..];
      Load(records, laneOf).Ok? <==> forall i :: 0 <= i < |data| ==> |data[i]| == ColumnCount
    ensures Load(records, laneOf).Ok? ==>
      var rows := Load(records, laneOf).value;
      var data := if |records| == 0 then [] else records[1..];
      && (forall i :: 0 <= i < |rows| ==> Unquoted(rows[i]) && !IsComment(rows[i]))
      && (forall k :: 0 <= k < |data| && !IsComment(RowOf(data[k], laneOf)) ==> RowOf(data[k], laneOf) in rows)
      && |rows| <= |records|
    ensures Load(records, laneOf).Ok? ==>
      var data := if |records| == 0 then [] else records[1..];
      var all := RowsOf(data, laneOf, 0).value;
      && (exists idx :: PlainAt(all, idx))
      && forall idx :: PlainAt(all, idx) ==> Load(records, laneOf).value == Pick(all, idx)
  {
    var data := if |records| == 0 then [] else records[1..];
    var res := RowsOf(data, laneOf, 0);
    if res.Ok? {
      LoadedRows(data, laneOf);
      DropCommentsSpec(res.value);
      assert Load(records, laneOf).value == DropComments(res.value);
    }
  }

  /** The rows of well-formed records, once comments are dropped, are
      unquoted and not comments, and every plain row survives. */
  lemma LoadedRows(data: seq<seq<string>>, laneOf: string -> int)
    requires RowsOf(data, laneOf, 0).Ok?
    ensures var rows := DropComments(RowsOf(data, laneOf, 0).value);
      && (forall i :: 0 <= i < |rows| ==> Unquoted(rows[i]) && !IsComment(rows[i]))
      && (forall k :: 0 <= k < |data| && !IsComment(RowOf(data[k], laneOf)) ==> RowOf(data[k], laneOf) in rows)
      && |rows| <= |data|
  {
    var all := RowsOf(data, laneOf, 0).value;
    DropCommentsMembers(all);
    var rows := DropComments(all);
    forall i | 0 <= i < |rows| ensures Unquoted(rows[i]) && !IsComment(rows[i]) {
      assert rows[i] in rows;
      var k :| 0 <= k < |all| && all[k] == rows[i];
      UnquotedRowOf(data[k], laneOf);
    }
    forall k | 0 <= k < |data| && !IsComment(RowOf(data[k], laneOf)) ensures RowOf(data[k], laneOf) in rows {
      assert all[k] in all;
    }
  }

  // ---------------------------------------------------------------------
  // Selecting rows

  /** The indices of the rows satisfying p, in increasing order: how the
      checks report the lines they find. */
  function Where(rows: seq<Row>, p: Row -> bool): seq<nat>
  {
    if |rows| == 0 then []
    else Where(rows[..|rows| - 1], p) + (if p(rows[|rows| - 1]) then [|rows| - 1] else [])
  }

  lemma {:induction false} WhereSpec(rows: seq<Row>, p: Row -> bool)
    ensures var w := Where(rows, p);
      && (forall a, b :: 0 <= a < b < |w| ==> w[a] < w[b])
      && (forall a :: 0 <= a < |w| ==> w[a] < |rows|)
      && (forall i :: 0 <= i < |rows| ==> (i in w <==> p(rows[i])))
  {
    if |rows| > 0 {
      var init := rows[..|rows| - 1];
      WhereSpec(init, p);
      forall i | 0 <= i < |init| ensures rows[i] == init[i] { }
    }
  }

  lemma {:induction false} WhereNone(rows: seq<Row>, p: Row -> bool)
    requires forall i :: 0 <= i < |rows| ==> !p(rows[i])
    ensures Where(rows, p) == []
  {
    if |rows| > 0 {
      var init := rows[..|rows| - 1];
      assert forall i :: 0 <= i < |init| ==> init[i] == rows[i];
      WhereNone(init, p);
    }
  }
}
