/** The CASAVA fastq file naming convention
      <sample_name>_<barcode>_L<lane>_R<read>_<set>.fastq.gz
    (class IlluminaFastq): parsing a file name into its fields and
    printing the fields back. */
module Fastq {
  import opened Wrappers
  import opened Text
  import opened Numbers

  /** The fields of a fastq name; barcode None stands for "NoIndex". */
  datatype FastqName = FastqName(
    sampleName: string,
    barcode: Option<string>,
    lane: int,
    read: int,
    setNumber: int)

  /** Python raises IndexError when a field is missing and ValueError when
      int() refuses a numeric field. */
  datatype NameError = MissingField | NotANumber(token: string)

  const NoIndex: string := "NoIndex"

  /** The file name without leading directory and from the first '.' on. */
  function Stem(path: string): string {
    BeforeFirst(Basename(path), '.')
  }

  /** The '_'-separated fields of the stem. */
  function Tokens(path: string): seq<string> {
    Split(Stem(path), '_')
  }

  /** s[1:] in Python: empty for the empty string. */
  function DropFirst(s: string): string {
    if |s| == 0 then "" else s[1..]
  }

  /** What the name must look like for IlluminaFastq() not to raise:
      at least four fields, the last an integer, the second to last with an
      integer digit at position 1, the third to last an integer after its
      first character. */
  predicate Conforms(t: seq<string>) {
    var n := |t|;
    && n >= 4
    && ParseInt(t[n - 1]).Some?
    && |t[n - 2]| >= 2 && ParseInt([t[n - 2][1]]).Some?
    && ParseInt(DropFirst(t[n - 3])).Some?
  }

  /** IlluminaFastq(fastq): the fields are read from the end, in the order
      set, read, lane, barcode; whatever precedes them is the sample name. */
  function Parse(path: string): (r: Result<FastqName, NameError>)
    ensures r.Ok? <==> Conforms(Tokens(path))
  {
    ParseTokens(Tokens(path))
  }

  function ParseTokens(t: seq<string>): (r: Result<FastqName, NameError>)
    requires |t| >= 1
    ensures r.Ok? <==> Conforms(t)
  {
    var n := |t|;
    match ParseInt(t[n - 1])
    case None => Err(NotANumber(t[n - 1]))
    case Some(setNumber) =>
      if n < 2 || |t[n - 2]| < 2 then Err(MissingField)
      else match ParseInt([t[n - 2][1]])
      case None => Err(NotANumber([t[n - 2][1]]))
      case Some(read) =>
        if n < 3 then Err(MissingField)
        else match ParseInt(DropFirst(t[n - 3]))
        case None => Err(NotANumber(DropFirst(t[n - 3])))
        case Some(lane) =>
          if n < 4 then Err(MissingField)
          else
            var barcode := if t[n - 4] == NoIndex then None else Some(t[n - 4]);
            Ok(FastqName(Join(t[..n - 4], '_'), barcode, lane, read, setNumber))
  }

  /** A name parser. Code that only needs some parser for file names takes
      one as a parameter, so that its facts hold of any parser; Parse is
      the one the source uses. */
  type Parser = string -> Result<FastqName, NameError>

  function BarcodeToken(barcode: Option<string>): string {
    match barcode
    case None => NoIndex
    case Some(b) => b
  }

  /** The fixed fields of a printed name: barcode (or NoIndex), "L%03d",
      "R%d" and "%03d". */
  function TailTokens(f: FastqName): seq<string> {
    [BarcodeToken(f.barcode), "L" + PadInt(f.lane, 3), "R" + PadInt(f.read, 0), PadInt(f.setNumber, 3)]
  }

  /** IlluminaFastq.__repr__: "%s_%s_L%03d_R%d_%03d", the five fields
      joined by '_'. */
  function Format(f: FastqName): string {
    Join([f.sampleName] + TailTokens(f), '_')
  }

  // ---------------------------------------------------------------------
  // Round trips

  /** Field values that survive printing and parsing: the sample name and
      barcode hold no '.', '/', and the barcode no '_'; a present barcode is
      not the literal NoIndex; the read number is one digit. */
  predicate WellFormed(f: FastqName) {
    && '.' !in f.sampleName && '/' !in f.sampleName
    && (f.barcode.Some? ==>
          && f.barcode.value != NoIndex
          && '_' !in f.barcode.value && '.' !in f.barcode.value && '/' !in f.barcode.value)
    && 0 <= f.read <= 9
  }

  lemma {:induction false} PadIntChars(n: int, w: nat)
    ensures forall c :: c in PadInt(n, w) ==> IsDigit(c) || c == '-'
  {
    var m := if n < 0 then -n else n;
    var w' := if n < 0 && w > 0 then w - 1 else w;
    ValueZeroPad(Digits(m), w');
    var body := ZeroPad(Digits(m), w');
    assert forall c :: c in body ==> IsDigit(c);
  }

  lemma {:induction false} FormatIsJoin(f: FastqName)
    ensures Format(f) == Join(Split(f.sampleName, '_') + TailTokens(f), '_')
  {
    var tail := TailTokens(f);
    JoinSplit(f.sampleName, '_');
    JoinAppend(Split(f.sampleName, '_'), tail, '_');
    JoinAppend([f.sampleName], tail, '_');
  }

  lemma {:induction false} FormatAvoids(f: FastqName, c: char)
    requires c != '_' && c != '-' && !IsDigit(c) && c != 'L' && c != 'R'
    requires c !in f.sampleName && c !in BarcodeToken(f.barcode)
    ensures c !in Format(f)
  {
    PadIntChars(f.lane, 3);
    PadIntChars(f.read, 0);
    PadIntChars(f.setNumber, 3);
    var parts := [f.sampleName] + TailTokens(f);
    assert forall i :: 0 <= i < |parts| ==> c !in parts[i];
    JoinAvoids(parts, '_', c);
  }

  /** The fields of a printed well-formed name are the '_'-pieces of the
      sample name followed by the four fixed fields. */
  lemma {:induction false} TokensOfFormat(f: FastqName)
    requires WellFormed(f)
    ensures Tokens(Format(f)) == Split(f.sampleName, '_') + TailTokens(f)
  {
    var s := Format(f);
    assert Stem(s) == s by {
      FormatAvoids(f, '/');
      FormatAvoids(f, '.');
      BasenameNoSlash(s);
      BeforeFirstAbsent(s, '.');
    }
    var head := Split(f.sampleName, '_');
    var tail := TailTokens(f);
    TailAvoidsUnderscore(f, head);
    SplitJoin(head + tail, '_');
    FormatIsJoin(f);
  }

  /** No '_' inside the pieces of a sample name and the fixed fields of a
      well-formed name. */
  lemma TailAvoidsUnderscore(f: FastqName, head: seq<string>)
    requires WellFormed(f)
    requires forall i :: 0 <= i < |head| ==> '_' !in head[i]
    ensures forall i :: 0 <= i < |head + TailTokens(f)| ==> '_' !in (head + TailTokens(f))[i]
  {
    var tail := TailTokens(f);
    PadIntChars(f.lane, 3);
    PadIntChars(f.read, 0);
    PadIntChars(f.setNumber, 3);
    forall i | 0 <= i < |head + tail| ensures '_' !in (head + tail)[i] {
      if i >= |head| {
        assert (head + tail)[i] == tail[i - |head|];
      } else {
        assert (head + tail)[i] == head[i];
      }
    }
  }

  /** The printed fixed fields read back as the numbers they print. */
  lemma {:induction false} TailFieldsParse(f: FastqName)
    requires 0 <= f.read <= 9
    ensures ParseInt(TailTokens(f)[3]) == Some(f.setNumber)
    ensures |TailTokens(f)[2]| >= 2 && ParseInt([TailTokens(f)[2][1]]) == Some(f.read)
    ensures ParseInt(DropFirst(TailTokens(f)[1])) == Some(f.lane)
  {
    var tail := TailTokens(f);
    ParsePadInt(f.setNumber, 3);
    ParsePadInt(f.lane, 3);
    assert DropFirst(tail[1]) == PadInt(f.lane, 3);
    var d := Digits(f.read);
    assert PadInt(f.read, 0) == d && |d| == 1;
    assert [tail[2][1]] == d;
    ParseDigits(d);
  }

  /** ParseTokens when every numeric field reads as a number. */
  lemma {:induction false} ParseTokensOk(t: seq<string>, setNumber: int, read: int, lane: int)
    requires |t| >= 4
    requires ParseInt(t[|t| - 1]) == Some(setNumber)
    requires |t[|t| - 2]| >= 2 && ParseInt([t[|t| - 2][1]]) == Some(read)
    requires ParseInt(DropFirst(t[|t| - 3])) == Some(lane)
    ensures ParseTokens(t) == Ok(FastqName(
      Join(t[..|t| - 4], '_'),
      if t[|t| - 4] == NoIndex then None else Some(t[|t| - 4]),
      lane, read, setNumber))
  {
  }

  /** Whatever precedes four fixed fields that read back as f's becomes
      the sample name. */
  lemma {:induction false} ParseTail(head: seq<string>, tail: seq<string>, f: FastqName)
    requires |tail| == 4
    requires f.barcode.Some? ==> f.barcode.value != NoIndex
    requires tail[0] == BarcodeToken(f.barcode)
    requires ParseInt(tail[3]) == Some(f.setNumber)
    requires |tail[2]| >= 2 && ParseInt([tail[2][1]]) == Some(f.read)
    requires ParseInt(DropFirst(tail[1])) == Some(f.lane)
    ensures ParseTokens(head + tail) == Ok(f.(sampleName := Join(head, '_')))
  {
    var t := head + tail;
    var n := |t|;
    assert t[n - 1] == tail[3] && t[n - 2] == tail[2] && t[n - 3] == tail[1] && t[n - 4] == tail[0];
    ParseTokensOk(t, f.setNumber, f.read, f.lane);
    assert t[..n - 4] == head;
  }

  /** Parsing a printed name gives back the fields it was printed from. */
  lemma {:induction false} ParseFormat(f: FastqName)
    requires WellFormed(f)
    ensures Parse(Format(f)) == Ok(f)
  {
    TokensOfFormat(f);
    TailFieldsParse(f);
    ParseTail(Split(f.sampleName, '_'), TailTokens(f), f);
    JoinSplit(f.sampleName, '_');
    assert f.(sampleName := Join(Split(f.sampleName, '_'), '_')) == f;
  }

  /** A name in the documented form: no directory or extension, a sample
      name, a barcode, then "L" and three digits, "R" and one digit, and
      three digits. */
  predicate Documented(s: string) {
    var t := Split(s, '_');
    var n := |t|;
    && '/' !in s && '.' !in s
    && n >= 5
    && |t[n - 1]| == 3 && AllDigits(t[n - 1])
    && |t[n - 2]| == 2 && t[n - 2][0] == 'R' && IsDigit(t[n - 2][1])
    && |t[n - 3]| == 4 && t[n - 3][0] == 'L' && AllDigits(t[n - 3][1..])
  }

  /** The tokens of a conforming name, read back by Format. */
  lemma {:induction false} FormatParsedTail(t: seq<string>, f: FastqName)
    requires |t| >= 4
    requires |t[|t| - 1]| == 3 && AllDigits(t[|t| - 1])
    requires |t[|t| - 2]| == 2 && t[|t| - 2][0] == 'R' && IsDigit(t[|t| - 2][1])
    requires |t[|t| - 3]| == 4 && t[|t| - 3][0] == 'L' && AllDigits(t[|t| - 3][1..])
    requires f.setNumber == Value(t[|t| - 1])
    requires f.read == DigitValue(t[|t| - 2][1])
    requires f.lane == Value(t[|t| - 3][1..])
    requires f.barcode == if t[|t| - 4] == NoIndex then None else Some(t[|t| - 4])
    ensures TailTokens(f) == t[|t| - 4..]
  {
    var n := |t|;
    PadValue(t[n - 1]);
    PadValue(t[n - 3][1..]);
    var rd := [t[n - 2][1]];
    assert Value(rd) == DigitValue(t[n - 2][1]) by {
      assert rd[..0] == [];
    }
    DigitsOfValue(rd);
    assert t[n - 2] == "R" + rd;
    assert t[n - 3] == "L" + t[n - 3][1..];
  }

  /** The numeric fields of a documented name read as their digits. */
  lemma DocumentedFieldsParse(t: seq<string>)
    requires |t| >= 4
    requires |t[|t| - 1]| == 3 && AllDigits(t[|t| - 1])
    requires |t[|t| - 2]| == 2 && IsDigit(t[|t| - 2][1])
    requires |t[|t| - 3]| == 4 && AllDigits(t[|t| - 3][1..])
    ensures ParseInt(t[|t| - 1]) == Some(Value(t[|t| - 1]))
    ensures ParseInt([t[|t| - 2][1]]) == Some(DigitValue(t[|t| - 2][1]))
    ensures ParseInt(DropFirst(t[|t| - 3])) == Some(Value(t[|t| - 3][1..]))
  {
    var n := |t|;
    var rd := [t[n - 2][1]];
    ParseDigits(t[n - 1]);
    ParseDigits(rd);
    assert Value(rd) == DigitValue(t[n - 2][1]) by {
      assert rd[..0] == [];
    }
    var ln := t[n - 3][1..];
    assert DropFirst(t[n - 3]) == ln;
    ParseDigits(ln);
  }

  /** The fields of a documented name, parsed. */
  lemma DocumentedTokensParse(t: seq<string>)
    requires |t| >= 4
    requires |t[|t| - 1]| == 3 && AllDigits(t[|t| - 1])
    requires |t[|t| - 2]| == 2 && IsDigit(t[|t| - 2][1])
    requires |t[|t| - 3]| == 4 && AllDigits(t[|t| - 3][1..])
    ensures ParseTokens(t) == Ok(FastqName(
      Join(t[..|t| - 4], '_'),
      if t[|t| - 4] == NoIndex then None else Some(t[|t| - 4]),
      Value(t[|t| - 3][1..]), DigitValue(t[|t| - 2][1]), Value(t[|t| - 1])))
  {
    var n := |t|;
    DocumentedFieldsParse(t);
    ParseTokensOk(t, Value(t[n - 1]), DigitValue(t[n - 2][1]), Value(t[n - 3][1..]));
  }

  lemma {:induction false} ParseDocumentedTail(s: string) returns (f: FastqName)
    requires var t := Split(s, '_'); var n := |t|;
      && '/' !in s && '.' !in s && n >= 4
      && |t[n - 1]| == 3 && AllDigits(t[n - 1])
      && |t[n - 2]| == 2 && t[n - 2][0] == 'R' && IsDigit(t[n - 2][1])
      && |t[n - 3]| == 4 && t[n - 3][0] == 'L' && AllDigits(t[n - 3][1..])
    ensures Parse(s) == Ok(f)
    ensures f.sampleName == Join(Split(s, '_')[..|Split(s, '_')| - 4], '_')
    ensures TailTokens(f) == Split(s, '_')[|Split(s, '_')| - 4..]
  {
    var t := Split(s, '_');
    var n := |t|;
    DocumentedTokensParse(t);
    StemOfPath("", s, "");
    assert "" + s + "" == s;
    f := FastqName(Join(t[..n - 4], '_'), if t[n - 4] == NoIndex then None else Some(t[n - 4]),
                   Value(t[n - 3][1..]), DigitValue(t[n - 2][1]), Value(t[n - 1]));
    FormatParsedTail(t, f);
  }

  lemma {:induction false} SplitJoinPrefix(s: string, k: nat)
    requires 1 <= k <= |Split(s, '_')|
    ensures Split(Join(Split(s, '_')[..k], '_'), '_') == Split(s, '_')[..k]
  {
    var t := Split(s, '_');
    var head := t[..k];
    assert forall i :: 0 <= i < |head| ==> head[i] == t[i];
    SplitJoin(head, '_');
  }

  /** Fields whose sample name joins all but the last four '_'-pieces of s
      and whose fixed fields are those four pieces print back as s. */
  lemma {:induction false} FormatPieces(s: string, f: FastqName)
    requires |Split(s, '_')| >= 5
    requires f.sampleName == Join(Split(s, '_')[..|Split(s, '_')| - 4], '_')
    requires TailTokens(f) == Split(s, '_')[|Split(s, '_')| - 4..]
    ensures Format(f) == s
  {
    var t := Split(s, '_');
    var n := |t|;
    var head := t[..n - 4];
    var tail := t[n - 4..];
    SplitJoinPrefix(s, n - 4);
    assert Split(f.sampleName, '_') == head;
    FormatIsJoin(f);
    assert head + tail == t;
    JoinSplit(s, '_');
  }

  /** Printing a parsed documented name gives the name back. */
  lemma FormatParse(s: string)
    requires Documented(s)
    ensures Parse(s).Ok? && Format(Parse(s).value) == s
  {
    var f := ParseDocumentedTail(s);
    FormatPieces(s, f);
  }

  /** With exactly four fields the sample name parses as "" and nothing
      rejects it; printing then adds a leading '_'. */
  lemma {:induction false} FourFieldName(s: string)
    requires var t := Split(s, '_'); var n := |t|;
      && '/' !in s && '.' !in s && n == 4
      && |t[n - 1]| == 3 && AllDigits(t[n - 1])
      && |t[n - 2]| == 2 && t[n - 2][0] == 'R' && IsDigit(t[n - 2][1])
      && |t[n - 3]| == 4 && t[n - 3][0] == 'L' && AllDigits(t[n - 3][1..])
    ensures Parse(s).Ok? && Parse(s).value.sampleName == ""
    ensures Format(Parse(s).value) == "_" + s
  {
    var f := ParseDocumentedTail(s);
    FormatFourPieces(s, f);
  }

  /** Fields with an empty sample name and the four '_'-pieces of s as
      fixed fields print as s behind a '_'. */
  lemma {:induction false} FormatFourPieces(s: string, f: FastqName)
    requires |Split(s, '_')| == 4
    requires f.sampleName == "" && TailTokens(f) == Split(s, '_')
    ensures Format(f) == "_" + s
  {
    var t := Split(s, '_');
    assert Split(f.sampleName, '_') == [""];
    FormatIsJoin(f);
    JoinAppend([""], t, '_');
    assert [""] + TailTokens(f) == [""] + t;
    JoinSplit(s, '_');
  }

  // ---------------------------------------------------------------------
  // Leading directory and extensions

  /** os.path.basename drops a leading directory, if there is one. */
  lemma BasenameOfPath(prefix: string, file: string)
    requires prefix == "" || prefix[|prefix| - 1] == '/'
    requires '/' !in file
    ensures Basename(prefix + file) == file
  {
    if prefix == "" {
      assert prefix + file == file;
      BasenameNoSlash(file);
    } else {
      var dir := prefix[..|prefix| - 1];
      assert prefix + file == dir + "/" + file;
      BasenameAfterSlash(dir, file);
    }
  }

  /** s.index('.') truncation keeps exactly the part before a suffix
      that starts with '.', or all of a name without one. */
  lemma BeforeDotSuffix(base: string, suffix: string)
    requires suffix == "" || suffix[0] == '.'
    requires '.' !in base
    ensures BeforeFirst(base + suffix, '.') == base
  {
    if suffix == "" {
      assert base + suffix == base;
      BeforeFirstAbsent(base, '.');
    } else {
      var ext := suffix[1..];
      assert suffix == ['.'] + ext;
      assert base + suffix == base + ['.'] + ext by {
        assert base + (['.'] + ext) == (base + ['.']) + ext;
      }
      BeforeFirstAfter(base, '.', ext);
    }
  }

  /** The stem of a path is its file name up to the first '.', whether
      or not a directory precedes it and an extension follows. */
  lemma {:induction false} StemOfPath(prefix: string, base: string, suffix: string)
    requires prefix == "" || prefix[|prefix| - 1] == '/'
    requires suffix == "" || suffix[0] == '.'
    requires '/' !in base && '.' !in base && '/' !in suffix
    ensures Stem(prefix + base + suffix) == base
  {
    var file := base + suffix;
    assert '/' !in file;
    assert prefix + base + suffix == prefix + file;
    BasenameOfPath(prefix, file);
    BeforeDotSuffix(base, suffix);
  }

  /** A leading directory and anything from the first '.' on do not
      change the parse, with or without either: "/home/galaxy/X.fastq.gz",
      "/home/galaxy/X", "X.fastq.gz" and "X" all parse like "X". */
  lemma ParseIgnoresPath(prefix: string, base: string, suffix: string)
    requires prefix == "" || prefix[|prefix| - 1] == '/'
    requires suffix == "" || suffix[0] == '.'
    requires '/' !in base && '.' !in base && '/' !in suffix
    ensures Tokens(prefix + base + suffix) == Tokens(base)
    ensures Parse(prefix + base + suffix) == Parse(base)
  {
    StemOfPath(prefix, base, suffix);
    StemOfPath("", base, "");
    assert "" + base + "" == base;
  }

  /** The barcode field of a conforming name: the literal NoIndex parses to
      no barcode, anything else to itself, and either prints back as the
      field it came from. */
  lemma NoIndexBarcode(t: seq<string>)
    requires Conforms(t)
    ensures ParseTokens(t).Ok?
    ensures ParseTokens(t).value.barcode.None? <==> t[|t| - 4] == NoIndex
    ensures BarcodeToken(ParseTokens(t).value.barcode) == t[|t| - 4]
  {
    var n := |t|;
    ParseTokensOk(t, ParseInt(t[n - 1]).value, ParseInt([t[n - 2][1]]).value, ParseInt(DropFirst(t[n - 3])).value);
  }
}
