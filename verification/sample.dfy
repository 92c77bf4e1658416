/** IlluminaSample: the fastq files of one sample directory, whether the
    sample is paired end, and the selection of its files by read number. */
module Samples {
  import opened Wrappers
  import opened Ordering
  import opened Fastq
  import opened Seqs

  /** A sample: its name, directory, file names (kept sorted) and whether
      a read-2 file has been seen. */
  datatype Sample = Sample(name: string, dirn: string, fastqs: seq<string>, pairedEnd: bool)

  /** The sample after add_fastq, and the exception it raised, if any. The
      list has already changed when the name fails to parse. */
  datatype Added = Added(sample: Sample, error: Option<NameError>)

  /** add_fastq: the name joins the list, which is sorted again; while the
      sample is not yet known to be paired the name is parsed, and a read
      number of 2 makes it paired. */
  function AddFastq(s: Sample, fastq: string, parse: Parser): Added {
    var grown := s.(fastqs := Sort(s.fastqs + [fastq]));
    if s.pairedEnd then Added(grown, None)
    else match parse(fastq)
      case Err(e) => Added(grown, Some(e))
      case Ok(f) => Added(grown.(pairedEnd := f.read == 2), None)
  }

  /** A name whose read number is 2. */
  predicate ReadTwo(fastq: string, parse: Parser) {
    parse(fastq).Ok? && parse(fastq).value.read == 2
  }

  /** add_fastq keeps the list sorted and adds exactly the one name; the
      sample becomes paired exactly when it was or the name is a read-2
      name, and it raises exactly when it had to parse a name that does not
      parse. */
  lemma AddFastqSpec(s: Sample, fastq: string, parse: Parser)
    ensures var a := AddFastq(s, fastq, parse);
      && Sorted(a.sample.fastqs)
      && multiset(a.sample.fastqs) == multiset(s.fastqs) + multiset{fastq}
      && a.sample.name == s.name && a.sample.dirn == s.dirn
      && (a.error.None? ==> (a.sample.pairedEnd <==> s.pairedEnd || ReadTwo(fastq, parse)))
      && (a.error.Some? <==> !s.pairedEnd && parse(fastq).Err?)
  {
    SortSpec(s.fastqs + [fastq]);
  }

  /** Two names that parse can be added in either order. */
  lemma AddFastqCommutes(s: Sample, a: string, b: string, parse: Parser)
    requires parse(a).Ok? && parse(b).Ok?
    ensures var ab := AddFastq(AddFastq(s, a, parse).sample, b, parse);
            var ba := AddFastq(AddFastq(s, b, parse).sample, a, parse);
      ab == ba && ab.error.None?
  {
    var sa := AddFastq(s, a, parse).sample;
    var sb := AddFastq(s, b, parse).sample;
    AddFastqSpec(s, a, parse);
    AddFastqSpec(s, b, parse);
    AddFastqSpec(sa, b, parse);
    AddFastqSpec(sb, a, parse);
    SortPermutation(sa.fastqs + [b], sb.fastqs + [a]);
  }

  /** Names added one after another, as the constructor adds the fastq.gz
      files of its directory; the first exception ends it. */
  function AddAll(s: Sample, files: seq<string>, parse: Parser): Result<Sample, NameError>
    decreases |files|
  {
    if |files| == 0 then Ok(s)
    else
      var a := AddFastq(s, files[0], parse);
      if a.error.Some? then Err(a.error.value)
      else AddAll(a.sample, files[1..], parse)
  }

  /** The tail of a list of names that all parse. */
  lemma TailParses(files: seq<string>, parse: Parser)
    requires |files| > 0
    requires forall k :: 0 <= k < |files| ==> parse(files[k]).Ok?
    ensures forall k :: 0 <= k < |files[1..]| ==> parse(files[1..][k]).Ok?
  {
    forall k | 0 <= k < |files[1..]| ensures parse(files[1..][k]).Ok? {
      assert files[1..][k] == files[k + 1];
    }
  }

  /** Adding files that all parse raises nothing, and the list ends up
      sorted, holding the old names and the new ones. */
  lemma {:induction false} AddAllSpec(s: Sample, files: seq<string>, parse: Parser)
    requires forall k :: 0 <= k < |files| ==> parse(files[k]).Ok?
    ensures AddAll(s, files, parse).Ok?
    ensures Sorted(s.fastqs) || |files| > 0 ==> Sorted(AddAll(s, files, parse).value.fastqs)
    ensures multiset(AddAll(s, files, parse).value.fastqs) == multiset(s.fastqs) + multiset(files)
    decreases |files|
  {
    if |files| > 0 {
      var a := AddFastq(s, files[0], parse);
      AddFastqSpec(s, files[0], parse);
      TailParses(files, parse);
      AddAllSpec(a.sample, files[1..], parse);
      assert files == [files[0]] + files[1..];
    }
  }

  /** Adding files that all parse makes the sample paired exactly when it
      was or some new name is a read-2 name. */
  lemma {:induction false} AddAllPaired(s: Sample, files: seq<string>, parse: Parser)
    requires forall k :: 0 <= k < |files| ==> parse(files[k]).Ok?
    ensures AddAll(s, files, parse).Ok?
    ensures AddAll(s, files, parse).value.pairedEnd <==>
      s.pairedEnd || exists k :: 0 <= k < |files| && ReadTwo(files[k], parse)
    decreases |files|
  {
    AddAllSpec(s, files, parse);
    if |files| > 0 {
      var a := AddFastq(s, files[0], parse);
      AddFastqSpec(s, files[0], parse);
      var rest := files[1..];
      TailParses(files, parse);
      AddAllPaired(a.sample, rest, parse);
      if exists k :: 0 <= k < |files| && ReadTwo(files[k], parse) {
        var k :| 0 <= k < |files| && ReadTwo(files[k], parse);
        if k > 0 {
          assert ReadTwo(rest[k - 1], parse);
        }
      }
      if exists k :: 0 <= k < |rest| && ReadTwo(rest[k], parse) {
        var k :| 0 <= k < |rest| && ReadTwo(rest[k], parse);
        assert ReadTwo(files[k + 1], parse);
      }
    }
  }

  /** Adding names that all parse to a new, empty sample: the list is the
      names sorted, whatever order they came in, and the sample is paired
      exactly when one of them is a read-2 name. */
  lemma AddAllFromEmpty(name: string, dirn: string, files: seq<string>, parse: Parser)
    requires forall k :: 0 <= k < |files| ==> parse(files[k]).Ok?
    ensures AddAll(Sample(name, dirn, [], false), files, parse).Ok?
    ensures var s := AddAll(Sample(name, dirn, [], false), files, parse).value;
      && s.fastqs == Sort(files)
      && s.name == name && s.dirn == dirn
      && (s.pairedEnd <==> exists k :: 0 <= k < |files| && ReadTwo(files[k], parse))
  {
    var s0 := Sample(name, dirn, [], false);
    AddAllSpec(s0, files, parse);
    AddAllPaired(s0, files, parse);
    AddAllNames(s0, files, parse);
    var s := AddAll(s0, files, parse).value;
    SortSpec(files);
    SortedUnique(s.fastqs, Sort(files));
  }

  /** One name added to a paired sample. */
  lemma PairedStep(s: Sample, fastq: string, parse: Parser)
    requires s.pairedEnd
    ensures var a := AddFastq(s, fastq, parse);
      && a.error.None? && a.sample.pairedEnd && Sorted(a.sample.fastqs)
      && multiset(a.sample.fastqs) == multiset(s.fastqs) + multiset{fastq}
  {
    SortSpec(s.fastqs + [fastq]);
  }

  /** A paired sample no longer parses the names added to it: any names,
      including ones that would not parse, are taken without an exception,
      and the sample stays paired. */
  lemma {:induction false} PairedStays(s: Sample, files: seq<string>, parse: Parser)
    requires s.pairedEnd
    ensures AddAll(s, files, parse).Ok?
    ensures AddAll(s, files, parse).value.pairedEnd
    ensures multiset(AddAll(s, files, parse).value.fastqs) == multiset(s.fastqs) + multiset(files)
    ensures Sorted(s.fastqs) || |files| > 0 ==> Sorted(AddAll(s, files, parse).value.fastqs)
    decreases |files|
  {
    if |files| > 0 {
      var a := AddFastq(s, files[0], parse);
      PairedStep(s, files[0], parse);
      PairedStays(a.sample, files[1..], parse);
      assert files == [files[0]] + files[1..];
    }
  }

  /** Adding files never changes the name or directory. */
  lemma {:induction false} AddAllNames(s: Sample, files: seq<string>, parse: Parser)
    requires AddAll(s, files, parse).Ok?
    ensures AddAll(s, files, parse).value.name == s.name
    ensures AddAll(s, files, parse).value.dirn == s.dirn
    decreases |files|
  {
    if |files| > 0 {
      AddAllNames(AddFastq(s, files[0], parse).sample, files[1..], parse);
    }
  }

  // ---------------------------------------------------------------------
  // fastq_subset

  /** os.path.join(dirn, name) for one name: an absolute name replaces the
      directory; otherwise a '/' goes between them unless the directory is
      empty or already ends in one. */
  function PathJoin(dirn: string, name: string): string {
    if |name| > 0 && name[0] == '/' then name
    else if |dirn| == 0 || dirn[|dirn| - 1] == '/' then dirn + name
    else dirn + "/" + name
  }

  /** The names whose read number is the one asked for, in list order; a
      name that does not parse raises. None, the default, matches no read
      number. */
  function Selected(fastqs: seq<string>, readNumber: Option<int>, parse: Parser): Result<seq<string>, NameError>
    decreases |fastqs|
  {
    if |fastqs| == 0 then Ok([])
    else match parse(fastqs[0])
      case Err(e) => Err(e)
      case Ok(f) =>
        var rest :- Selected(fastqs[1..], readNumber, parse);
        Ok((if readNumber == Some(f.read) then [fastqs[0]] else []) + rest)
  }

  /** How a selected name is returned: with or without the directory. */
  function Shown(s: Sample, fastq: string, fullPath: bool): string {
    if fullPath then PathJoin(s.dirn, fastq) else fastq
  }

  /** Every name of a list, shown. */
  function ShowAll(s: Sample, names: seq<string>, fullPath: bool): (r: seq<string>)
    ensures |r| == |names| && forall i :: 0 <= i < |names| ==> r[i] == Shown(s, names[i], fullPath)
  {
    seq(|names|, i requires 0 <= i < |names| => Shown(s, names[i], fullPath))
  }

  /** fastq_subset: the selected names, shown, in dictionary order. */
  function FastqSubset(s: Sample, readNumber: Option<int>, fullPath: bool, parse: Parser): Result<seq<string>, NameError> {
    var picked :- Selected(s.fastqs, readNumber, parse);
    Ok(Sort(ShowAll(s, picked, fullPath)))
  }

  /** A name of the list with the read number asked for. */
  predicate Wanted(fastqs: seq<string>, k: int, readNumber: Option<int>, parse: Parser)
    requires 0 <= k < |fastqs|
  {
    parse(fastqs[k]).Ok? && readNumber == Some(parse(fastqs[k]).value.read)
  }

  /** idx lists, in order, exactly the positions of the wanted names. */
  predicate WantedAt(fastqs: seq<string>, idx: seq<nat>, readNumber: Option<int>, parse: Parser) {
    && IncreasingBelow(idx, |fastqs|)
    && forall k :: 0 <= k < |fastqs| ==> (k in idx <==> Wanted(fastqs, k, readNumber, parse))
  }

  /** Every list of names has the list of positions of its wanted names. */
  lemma WantedPositions(fastqs: seq<string>, readNumber: Option<int>, parse: Parser)
    ensures exists idx :: WantedAt(fastqs, idx, readNumber, parse)
  {
    var idx := Enumeration(|fastqs|, (k: nat) => k < |fastqs| && Wanted(fastqs, k, readNumber, parse));
    assert WantedAt(fastqs, idx, readNumber, parse);
  }

  /** When every name parses, the selection is the wanted names at their
      positions in the list: in list order, each as often as it occurs. */
  lemma {:induction false} SelectedInOrder(fastqs: seq<string>, readNumber: Option<int>, parse: Parser, idx: seq<nat>)
    requires forall k :: 0 <= k < |fastqs| ==> parse(fastqs[k]).Ok?
    requires WantedAt(fastqs, idx, readNumber, parse)
    ensures Selected(fastqs, readNumber, parse) == Ok(Pick(fastqs, idx))
    decreases |fastqs|
  {
    if |fastqs| == 0 {
      IncreasingBelowLength(idx, 0);
    } else {
      var n := |fastqs| - 1;
      var rest := fastqs[1..];
      var later := Later(idx, n);
      LaterMembers(idx, n);
      ZeroFirst(idx);
      forall k | 0 <= k < n ensures k in later <==> Wanted(rest, k, readNumber, parse) {
        assert rest[k] == fastqs[k + 1];
      }
      TailParses(fastqs, parse);
      SelectedInOrder(rest, readNumber, parse, later);
      PickLater(fastqs, idx);
    }
  }

  /** Selection succeeds exactly when every name parses, and then keeps
      exactly the wanted names, in list order and with their repetitions. */
  lemma {:induction false} SelectedSpec(fastqs: seq<string>, readNumber: Option<int>, parse: Parser)
    ensures Selected(fastqs, readNumber, parse).Ok? <==> forall k :: 0 <= k < |fastqs| ==> parse(fastqs[k]).Ok?
    ensures Selected(fastqs, readNumber, parse).Ok? ==>
      forall x :: x in Selected(fastqs, readNumber, parse).value <==>
        exists k :: 0 <= k < |fastqs| && fastqs[k] == x && Wanted(fastqs, k, readNumber, parse)
    ensures Selected(fastqs, readNumber, parse).Ok? ==>
      forall idx :: WantedAt(fastqs, idx, readNumber, parse) ==>
        Selected(fastqs, readNumber, parse).value == Pick(fastqs, idx)
    decreases |fastqs|
  {
    if forall k :: 0 <= k < |fastqs| ==> parse(fastqs[k]).Ok? {
      forall idx | WantedAt(fastqs, idx, readNumber, parse)
        ensures Selected(fastqs, readNumber, parse) == Ok(Pick(fastqs, idx))
      {
        SelectedInOrder(fastqs, readNumber, parse, idx);
      }
    }
    if |fastqs| > 0 {
      var rest := fastqs[1..];
      SelectedSpec(rest, readNumber, parse);
      if forall k :: 0 <= k < |fastqs| ==> parse(fastqs[k]).Ok? {
        assert forall k :: 0 <= k < |rest| ==> parse(rest[k]).Ok? by {
          forall k | 0 <= k < |rest| ensures parse(rest[k]).Ok? {
            assert rest[k] == fastqs[k + 1];
          }
        }
        var r := Selected(fastqs, readNumber, parse).value;
        forall x ensures x in r <==> exists k :: 0 <= k < |fastqs| && fastqs[k] == x && Wanted(fastqs, k, readNumber, parse) {
          if exists k :: 0 <= k < |fastqs| && fastqs[k] == x && Wanted(fastqs, k, readNumber, parse) {
            var k :| 0 <= k < |fastqs| && fastqs[k] == x && Wanted(fastqs, k, readNumber, parse);
            if k > 0 {
              assert rest[k - 1] == x && Wanted(rest, k - 1, readNumber, parse);
            }
          }
          if x in r && x !in Selected(rest, readNumber, parse).value {
            assert Wanted(fastqs, 0, readNumber, parse);
          }
          if x in Selected(rest, readNumber, parse).value {
            var k :| 0 <= k < |rest| && rest[k] == x && Wanted(rest, k, readNumber, parse);
            assert fastqs[k + 1] == x && Wanted(fastqs, k + 1, readNumber, parse);
          }
        }
      } else {
        var k :| 0 <= k < |fastqs| && parse(fastqs[k]).Err?;
        if k > 0 {
          assert rest[k - 1] == fastqs[k];
        }
      }
    }
  }

  /** fastq_subset raises exactly when a name of the sample does not parse;
      otherwise it returns, in dictionary order, exactly the shown names of
      the files with the read number asked for, each as often as the list
      holds it. */
  lemma FastqSubsetSpec(s: Sample, readNumber: Option<int>, fullPath: bool, parse: Parser)
    ensures FastqSubset(s, readNumber, fullPath, parse).Ok? <==> forall k :: 0 <= k < |s.fastqs| ==> parse(s.fastqs[k]).Ok?
    ensures FastqSubset(s, readNumber, fullPath, parse).Ok? ==>
      var r := FastqSubset(s, readNumber, fullPath, parse).value;
      && Sorted(r)
      && (forall y :: y in r <==>
           exists k :: 0 <= k < |s.fastqs| && Shown(s, s.fastqs[k], fullPath) == y && Wanted(s.fastqs, k, readNumber, parse))
      && forall idx :: WantedAt(s.fastqs, idx, readNumber, parse) ==>
           multiset(r) == multiset(ShowAll(s, Pick(s.fastqs, idx), fullPath))
  {
    SelectedSpec(s.fastqs, readNumber, parse);
    if FastqSubset(s, readNumber, fullPath, parse).Ok? {
      var picked := Selected(s.fastqs, readNumber, parse).value;
      var shown := ShowAll(s, picked, fullPath);
      var r := Sort(shown);
      SortSpec(shown);
      assert multiset(r) == multiset(shown);
      forall y ensures y in r <==>
          exists k :: 0 <= k < |s.fastqs| && Shown(s, s.fastqs[k], fullPath) == y && Wanted(s.fastqs, k, readNumber, parse) {
        assert y in r <==> y in multiset(shown);
        if y in shown {
          var i :| 0 <= i < |shown| && shown[i] == y;
          assert picked[i] in picked;
        }
        if exists k :: 0 <= k < |s.fastqs| && Shown(s, s.fastqs[k], fullPath) == y && Wanted(s.fastqs, k, readNumber, parse) {
          var k :| 0 <= k < |s.fastqs| && Shown(s, s.fastqs[k], fullPath) == y && Wanted(s.fastqs, k, readNumber, parse);
          assert s.fastqs[k] in picked;
          var i :| 0 <= i < |picked| && picked[i] == s.fastqs[k];
          assert shown[i] == y;
        }
      }
    }
  }

  lemma {:induction false} SelectedNone(fastqs: seq<string>, parse: Parser)
    requires forall k :: 0 <= k < |fastqs| ==> parse(fastqs[k]).Ok?
    ensures Selected(fastqs, None, parse).Ok? && Selected(fastqs, None, parse).value == []
    decreases |fastqs|
  {
    if |fastqs| > 0 {
      TailParses(fastqs, parse);
      SelectedNone(fastqs[1..], parse);
    }
  }

  /** The default read number selects nothing. */
  lemma NoReadNumber(s: Sample, fullPath: bool, parse: Parser)
    requires forall k :: 0 <= k < |s.fastqs| ==> parse(s.fastqs[k]).Ok?
    ensures FastqSubset(s, None, fullPath, parse) == Ok([])
  {
    SelectedNone(s.fastqs, parse);
    assert ShowAll(s, [], fullPath) == [];
    assert Sort([]) == [];
    assert FastqSubset(s, None, fullPath, parse) == Ok(Sort(ShowAll(s, [], fullPath)));
  }

  /** When every read number is 1 or 2, every name of the sample shows up
      in the read-1 or the read-2 subset. */
  lemma ReadSubsetsSplit(s: Sample, fullPath: bool, parse: Parser, k: nat)
    requires forall j :: 0 <= j < |s.fastqs| ==> parse(s.fastqs[j]).Ok? && parse(s.fastqs[j]).value.read in {1, 2}
    requires k < |s.fastqs|
    ensures FastqSubset(s, Some(1), fullPath, parse).Ok? && FastqSubset(s, Some(2), fullPath, parse).Ok?
    ensures FastqSubset(s, Some(1), fullPath, parse).Ok? && FastqSubset(s, Some(2), fullPath, parse).Ok? &&
      var y := Shown(s, s.fastqs[k], fullPath);
      y in FastqSubset(s, Some(1), fullPath, parse).value || y in FastqSubset(s, Some(2), fullPath, parse).value
  {
    FastqSubsetSpec(s, Some(1), fullPath, parse);
    FastqSubsetSpec(s, Some(2), fullPath, parse);
    if parse(s.fastqs[k]).value.read == 1 {
      assert Wanted(s.fastqs, k, Some(1), parse);
    } else {
      assert Wanted(s.fastqs, k, Some(2), parse);
    }
  }
}
