/** IlluminaRunInfo.bases_mask: the bases mask handed to bclToFastq,
    built from the reads a RunInfo.xml file lists. */
module RunInfo {
  import opened Wrappers
  import opened Text
  import opened Numbers
  import Fastq

  /** The attributes of one <Read> element, as the strings in the file. */
  datatype Read = Read(number: string, numCycles: string, isIndexedRead: string)

  /** int() refusing NumCycles, or an IsIndexedRead other than "Y"/"N". */
  datatype MaskError = BadCycles(value: string) | UnrecognisedIndexFlag(value: string)

  /** A read's entry: "y<cycles>" for a data read, "I<cycles>" for an index
      read; the cycle count is converted before the flag is looked at. */
  function ReadMask(r: Read): Result<string, MaskError> {
    match ParseInt(r.numCycles)
    case None => Err(BadCycles(r.numCycles))
    case Some(n) =>
      if r.isIndexedRead == "N" then Ok("y" + PadInt(n, 0))
      else if r.isIndexedRead == "Y" then Ok("I" + PadInt(n, 0))
      else Err(UnrecognisedIndexFlag(r.isIndexedRead))
  }

  /** The entries of the reads in order; the first bad read stops it. */
  function Masks(rs: seq<Read>): Result<seq<string>, MaskError> {
    if |rs| == 0 then Ok([])
    else
      var m :- ReadMask(rs[0]);
      var rest :- Masks(rs[1..]);
      Ok([m] + rest)
  }

  /** bases_mask: the entries joined with ','. */
  function BasesMask(rs: seq<Read>): Result<string, MaskError> {
    var ms :- Masks(rs);
    Ok(Join(ms, ','))
  }

  /** A read bases_mask accepts. */
  predicate ValidRead(r: Read) {
    ParseInt(r.numCycles).Some? && (r.isIndexedRead == "N" || r.isIndexedRead == "Y")
  }

  /** What an entry of a bases mask says: whether the read is an index
      read, and its cycle count. */
  function ReadEntry(e: string): Option<(bool, int)> {
    if |e| == 0 || (e[0] != 'y' && e[0] != 'I') then None
    else match ParseInt(e[1..])
      case None => None
      case Some(n) => Some((e[0] == 'I', n))
  }

  /** What a valid read contributes. */
  function Described(r: Read): (bool, int)
    requires ValidRead(r)
  {
    (r.isIndexedRead == "Y", ParseInt(r.numCycles).value)
  }

  lemma ReadMaskOk(r: Read)
    ensures ReadMask(r).Ok? <==> ValidRead(r)
  {
  }

  /** An entry reads back as the read it was made from, and holds no ','. */
  lemma ReadMaskReadsBack(r: Read)
    ensures ReadMask(r).Ok? <==> ValidRead(r)
    ensures ReadMask(r).Ok? ==> ReadEntry(ReadMask(r).value) == Some(Described(r)) && ',' !in ReadMask(r).value
  {
    if ValidRead(r) {
      var n := ParseInt(r.numCycles).value;
      var e := ReadMask(r).value;
      assert e[1..] == PadInt(n, 0);
      ParsePadInt(n, 0);
      Fastq.PadIntChars(n, 0);
    }
  }

  /** The entries exist exactly when every read is valid, and then there is
      one per read, the i-th made from the i-th read. */
  lemma {:induction false} MasksSpec(rs: seq<Read>)
    ensures Masks(rs).Ok? <==> forall i :: 0 <= i < |rs| ==> ValidRead(rs[i])
    ensures Masks(rs).Ok? ==> |Masks(rs).value| == |rs|
    ensures Masks(rs).Ok? ==> forall i :: 0 <= i < |rs| ==> ReadMask(rs[i]) == Ok(Masks(rs).value[i])
    decreases |rs|
  {
    if |rs| > 0 {
      MasksSpec(rs[1..]);
      ReadMaskOk(rs[0]);
      if forall i :: 0 <= i < |rs| ==> ValidRead(rs[i]) {
        assert forall i :: 0 <= i < |rs[1..]| ==> ValidRead(rs[1..][i]) by {
          forall i | 0 <= i < |rs[1..]| ensures ValidRead(rs[1..][i]) {
            assert rs[1..][i] == rs[i + 1];
          }
        }
        var ms := Masks(rs).value;
        forall i | 0 <= i < |rs| ensures ReadMask(rs[i]) == Ok(ms[i]) {
          if i > 0 {
            assert rs[i] == rs[1..][i - 1];
          }
        }
      } else {
        var i :| 0 <= i < |rs| && !ValidRead(rs[i]);
        if i > 0 {
          assert rs[1..][i - 1] == rs[i];
        }
      }
    }
  }

  lemma {:induction false} MasksFirstError(rs: seq<Read>, i: nat)
    requires i < |rs| && !ValidRead(rs[i])
    requires forall j :: 0 <= j < i ==> ValidRead(rs[j])
    ensures Masks(rs) == Err(ReadMask(rs[i]).error)
    decreases i
  {
    ReadMaskOk(rs[0]);
    if i == 0 {
      assert ReadMask(rs[0]).Err?;
    } else {
      var tail := rs[1..];
      assert tail[i - 1] == rs[i];
      forall j | 0 <= j < i - 1 ensures ValidRead(tail[j]) {
        assert tail[j] == rs[j + 1];
      }
      MasksFirstError(tail, i - 1);
      assert ReadMask(rs[0]).Ok?;
      assert Masks(tail).Err?;
    }
  }

  /** The first read bases_mask refuses decides the error. */
  lemma BasesMaskFirstError(rs: seq<Read>, i: nat)
    requires i < |rs| && !ValidRead(rs[i])
    requires forall j :: 0 <= j < i ==> ValidRead(rs[j])
    ensures BasesMask(rs) == Err(ReadMask(rs[i]).error)
  {
    MasksFirstError(rs, i);
  }

  /** bases_mask succeeds exactly when every read is valid; then splitting
      the mask at ',' gives one entry per read, in read order, and each
      entry reads back as the kind and cycle count of its read. */
  lemma BasesMaskSpec(rs: seq<Read>)
    ensures BasesMask(rs).Ok? <==> forall i :: 0 <= i < |rs| ==> ValidRead(rs[i])
    ensures BasesMask(rs).Ok? && |rs| > 0 ==>
      var entries := Split(BasesMask(rs).value, ',');
      && |entries| == |rs|
      && forall i :: 0 <= i < |rs| ==> ReadEntry(entries[i]) == Some(Described(rs[i]))
  {
    MasksSpec(rs);
    if BasesMask(rs).Ok? && |rs| > 0 {
      var ms := Masks(rs).value;
      forall i | 0 <= i < |ms| ensures ',' !in ms[i] && ReadEntry(ms[i]) == Some(Described(rs[i])) {
        ReadMaskReadsBack(rs[i]);
      }
      SplitJoin(ms, ',');
    }
  }
}
