/** get_unique_fastq_names: maps each fastq name of a set to the shortest
    name, built from a fixed list of templates, that tells the files of the
    set apart. */
module UniqueNames {
  import opened Wrappers
  import opened Text
  import opened Numbers
  import opened Seqs
  import opened Fastq

  /** The templates, tried in the order of Templates. */
  datatype Template = Name | NameLane | NameTag | NameTagLane | Full

  const Templates: seq<Template> := [Name, NameLane, NameTag, NameTagLane, Full]

  const Extension: string := ".fastq.gz"

  datatype UniqueError =
    | BadName(fastq: string, error: NameError)
    | NoUniqueSet

  /** The fields a short template keeps: the sample name, the barcode
      (left out when there is none), "L%03d" of the lane; "R%d" of the
      read is added for a paired set. */
  function Fields(t: Template, paired: bool, f: FastqName): seq<string>
    requires t != Full
  {
    var name := [f.sampleName];
    var tag := if f.barcode.Some? then [f.barcode.value] else [];
    var lane := ["L" + PadInt(f.lane, 3)];
    var fields :=
      match t
      case Name => name
      case NameLane => name + lane
      case NameTag => name + tag
      case NameTagLane => name + tag + lane;
    if paired then fields + ["R" + PadInt(f.read, 0)] else fields
  }

  /** The new name: the kept fields joined by '_', or the whole printed
      name for Full, followed by the extension. */
  function Render(t: Template, paired: bool, f: FastqName): string {
    (if t == Full then Format(f) else Join(Fields(t, paired, f), '_')) + Extension
  }

  function Renders(t: Template, paired: bool, fs: seq<FastqName>): (r: seq<string>)
    ensures |r| == |fs|
  {
    seq(|fs|, k requires 0 <= k < |fs| => Render(t, paired, fs[k]))
  }

  /** The set holds both a read 1 and a read 2 file. */
  predicate Paired(fs: seq<FastqName>) {
    (exists i :: 0 <= i < |fs| && fs[i].read == 1) && (exists i :: 0 <= i < |fs| && fs[i].read == 2)
  }

  /** Parses every name, failing on the first that does not parse. */
  function ParseAll(fastqs: seq<string>, parse: Parser): Result<seq<FastqName>, UniqueError>
    decreases |fastqs|
  {
    if |fastqs| == 0 then Ok([])
    else
      match parse(fastqs[0])
      case Err(e) => Err(BadName(fastqs[0], e))
      case Ok(f) =>
        var rest :- ParseAll(fastqs[1..], parse);
        Ok([f] + rest)
  }

  /** The first template of ts whose renderings are pairwise distinct. */
  function Choose(ts: seq<Template>, paired: bool, fs: seq<FastqName>): Option<Template>
    decreases |ts|
  {
    if |ts| == 0 then None
    else if Distinct(Renders(ts[0], paired, fs)) then Some(ts[0])
    else Choose(ts[1..], paired, fs)
  }

  /** The map from keys[k] to vals[k], later entries overriding earlier. */
  function Zip(keys: seq<string>, vals: seq<string>): map<string, string>
    requires |keys| == |vals|
  {
    if |keys| == 0 then map[]
    else Zip(keys[..|keys| - 1], vals[..|vals| - 1])[keys[|keys| - 1] := vals[|vals| - 1]]
  }

  /** get_unique_fastq_names. */
  function UniqueFastqNames(fastqs: seq<string>, parse: Parser): Result<map<string, string>, UniqueError> {
    var fs :- ParseAll(fastqs, parse);
    var paired := Paired(fs);
    match Choose(Templates, paired, fs)
    case None => Err(NoUniqueSet)
    case Some(t) =>
      assert |fs| == |fastqs| by {
        ParseAllSpec(fastqs, parse);
      }
      Ok(Zip(fastqs, Renders(t, paired, fs)))
  }

  // ---------------------------------------------------------------------
  // Parsing the set

  lemma {:induction false} ParseAllSpec(fastqs: seq<string>, parse: Parser)
    ensures ParseAll(fastqs, parse).Ok? <==> forall k :: 0 <= k < |fastqs| ==> parse(fastqs[k]).Ok?
    ensures ParseAll(fastqs, parse).Ok? ==> |ParseAll(fastqs, parse).value| == |fastqs|
    ensures ParseAll(fastqs, parse).Ok? ==> forall k :: 0 <= k < |fastqs| ==> parse(fastqs[k]) == Ok(ParseAll(fastqs, parse).value[k])
    decreases |fastqs|
  {
    if |fastqs| > 0 {
      var rest := fastqs[1..];
      ParseAllSpec(rest, parse);
      assert forall k :: 1 <= k < |fastqs| ==> fastqs[k] == rest[k - 1];
      if parse(fastqs[0]).Ok? && ParseAll(rest, parse).Ok? {
        var fs := ParseAll(fastqs, parse).value;
        assert fs == [parse(fastqs[0]).value] + ParseAll(rest, parse).value;
        assert forall k :: 1 <= k < |fastqs| ==> fs[k] == ParseAll(rest, parse).value[k - 1];
      }
    }
  }

  /** The error reported is the first name that does not parse. */
  lemma {:induction false} ParseAllFirstError(fastqs: seq<string>, i: nat, parse: Parser)
    requires i < |fastqs| && parse(fastqs[i]).Err?
    requires forall k :: 0 <= k < i ==> parse(fastqs[k]).Ok?
    ensures ParseAll(fastqs, parse) == Err(BadName(fastqs[i], parse(fastqs[i]).error))
    decreases i
  {
    if i > 0 {
      var rest := fastqs[1..];
      assert forall k :: 0 <= k < i - 1 ==> rest[k] == fastqs[k + 1];
      ParseAllFirstError(rest, i - 1, parse);
    }
  }

  // ---------------------------------------------------------------------
  // Choosing the template

  /** Choose picks the first template with distinct renderings, and finds
      none exactly when no template has them. */
  lemma {:induction false} ChooseSpec(ts: seq<Template>, paired: bool, fs: seq<FastqName>)
    ensures var c := Choose(ts, paired, fs);
      && (c.None? <==> forall i :: 0 <= i < |ts| ==> !Distinct(Renders(ts[i], paired, fs)))
      && (c.Some? ==> exists i :: 0 <= i < |ts| && ts[i] == c.value && Distinct(Renders(ts[i], paired, fs))
                        && forall j :: 0 <= j < i ==> !Distinct(Renders(ts[j], paired, fs)))
    decreases |ts|
  {
    if |ts| > 0 {
      var rest := ts[1..];
      ChooseSpec(rest, paired, fs);
      assert forall i :: 1 <= i < |ts| ==> ts[i] == rest[i - 1];
      if !Distinct(Renders(ts[0], paired, fs)) && Choose(rest, paired, fs).Some? {
        var i :| 0 <= i < |rest| && rest[i] == Choose(rest, paired, fs).value && Distinct(Renders(rest[i], paired, fs))
                 && forall j :: 0 <= j < i ==> !Distinct(Renders(rest[j], paired, fs));
        assert ts[i + 1] == rest[i];
        forall j | 0 <= j < i + 1 ensures !Distinct(Renders(ts[j], paired, fs)) {
          if j > 0 {
            assert ts[j] == rest[j - 1];
          }
        }
      }
    }
  }

  // ---------------------------------------------------------------------
  // The mapping

  /** The keys of Zip are the keys given, and on distinct keys each maps to
      its own value. */
  lemma {:induction false} ZipSpec(keys: seq<string>, vals: seq<string>)
    requires |keys| == |vals|
    ensures Zip(keys, vals).Keys == set k | k in keys
    ensures Distinct(keys) ==> forall k :: 0 <= k < |keys| ==> Zip(keys, vals)[keys[k]] == vals[k]
  {
    if |keys| > 0 {
      var n := |keys| - 1;
      var ki, vi := keys[..n], vals[..n];
      ZipSpec(ki, vi);
      assert keys == ki + [keys[n]];
      if Distinct(keys) {
        assert Distinct(ki) by {
          forall a, b | 0 <= a < b < |ki| ensures ki[a] != ki[b] {
            assert ki[a] == keys[a] && ki[b] == keys[b];
          }
        }
        forall k | 0 <= k < |keys| ensures Zip(keys, vals)[keys[k]] == vals[k] {
          if k < n {
            assert keys[k] == ki[k] && vals[k] == vi[k];
            assert keys[k] != keys[n];
          }
        }
      }
    }
  }

  /** Equal names parse alike and so render alike: distinct renderings
      can only come from distinct names. */
  lemma RendersSeparateNames(fastqs: seq<string>, fs: seq<FastqName>, t: Template, paired: bool, parse: Parser)
    requires |fs| == |fastqs|
    requires forall k :: 0 <= k < |fastqs| ==> parse(fastqs[k]) == Ok(fs[k])
    requires Distinct(Renders(t, paired, fs))
    ensures Distinct(fastqs)
  {
    forall a, b | 0 <= a < b < |fastqs| ensures fastqs[a] != fastqs[b] {
      assert Renders(t, paired, fs)[a] != Renders(t, paired, fs)[b];
    }
  }

  /** Zip of distinct keys to distinct values is one-to-one, and every
      value it holds is one of the values given. */
  lemma ZipInjective(keys: seq<string>, vals: seq<string>)
    requires |keys| == |vals| && Distinct(keys) && Distinct(vals)
    ensures var m := Zip(keys, vals);
      && (forall a, b :: a in m && b in m && a != b ==> m[a] != m[b])
      && (forall a :: a in m ==> m[a] in vals)
  {
    ZipSpec(keys, vals);
    var m := Zip(keys, vals);
    forall a, b | a in m && b in m && a != b ensures m[a] != m[b] {
      var i :| 0 <= i < |keys| && keys[i] == a;
      var j :| 0 <= j < |keys| && keys[j] == b;
      assert m[a] == vals[i] && m[b] == vals[j];
    }
    forall a | a in m ensures m[a] in vals {
      var i :| 0 <= i < |keys| && keys[i] == a;
      assert m[a] == vals[i];
    }
  }

  /** Every rendering ends in .fastq.gz. */
  lemma RendersEnd(t: Template, paired: bool, fs: seq<FastqName>)
    ensures forall v :: v in Renders(t, paired, fs) ==> EndsWith(v, Extension)
  {
    forall v | v in Renders(t, paired, fs) ensures EndsWith(v, Extension) {
      var i :| 0 <= i < |fs| && Renders(t, paired, fs)[i] == v;
      var j := if t == Full then Format(fs[i]) else Join(Fields(t, paired, fs[i]), '_');
      assert v == j + Extension;
      assert v[|v| - |Extension|..] == Extension;
    }
  }

  /** What a successful result is made of. */
  lemma UniqueFastqNamesParts(fastqs: seq<string>, parse: Parser) returns (fs: seq<FastqName>, t: Template)
    requires UniqueFastqNames(fastqs, parse).Ok?
    ensures ParseAll(fastqs, parse) == Ok(fs) && |fs| == |fastqs|
    ensures Choose(Templates, Paired(fs), fs) == Some(t)
    ensures UniqueFastqNames(fastqs, parse).value == Zip(fastqs, Renders(t, Paired(fs), fs))
  {
    ParseAllSpec(fastqs, parse);
    fs := ParseAll(fastqs, parse).value;
    t := Choose(Templates, Paired(fs), fs).value;
  }

  /** A successful result maps every input name, and only those, to a
      name that no other input gets and that ends in .fastq.gz. */
  lemma UniqueFastqNamesSpec(fastqs: seq<string>, parse: Parser)
    requires UniqueFastqNames(fastqs, parse).Ok?
    ensures var m := UniqueFastqNames(fastqs, parse).value;
      && m.Keys == set k | k in fastqs
      && (forall a, b :: a in m && b in m && a != b ==> m[a] != m[b])
      && (forall a :: a in m ==> EndsWith(m[a], Extension))
  {
    var fs, t := UniqueFastqNamesParts(fastqs, parse);
    var names := Renders(t, Paired(fs), fs);
    ChosenNames(fastqs, parse, fs, Templates, t);
    ZipSpec(fastqs, names);
    ZipInjective(fastqs, names);
    RendersEnd(t, Paired(fs), fs);
  }

  /** The names chosen are distinct, and so are the inputs. */
  lemma ChosenNames(fastqs: seq<string>, parse: Parser, fs: seq<FastqName>, ts: seq<Template>, t: Template)
    requires ParseAll(fastqs, parse) == Ok(fs)
    requires Choose(ts, Paired(fs), fs) == Some(t)
    ensures t in ts && Distinct(Renders(t, Paired(fs), fs)) && Distinct(fastqs)
    ensures |fs| == |fastqs| && forall k :: 0 <= k < |fastqs| ==> parse(fastqs[k]) == Ok(fs[k])
  {
    assert |fs| == |fastqs| && forall k :: 0 <= k < |fastqs| ==> parse(fastqs[k]) == Ok(fs[k]) by {
      ParseAllSpec(fastqs, parse);
    }
    ChosenTemplate(ts, Paired(fs), fs, t);
    RendersSeparateNames(fastqs, fs, t, Paired(fs), parse);
  }

  /** A chosen template is one of those offered, with distinct renderings. */
  lemma ChosenTemplate(ts: seq<Template>, paired: bool, fs: seq<FastqName>, t: Template)
    requires Choose(ts, paired, fs) == Some(t)
    ensures t in ts && Distinct(Renders(t, paired, fs))
  {
    ChooseSpec(ts, paired, fs);
  }

  /** Each input's name is its rendering under one template of the list,
      the same template for every input. */
  lemma UniqueFastqNamesRender(fastqs: seq<string>, parse: Parser) returns (t: Template)
    requires UniqueFastqNames(fastqs, parse).Ok?
    ensures t in Templates
    ensures var m := UniqueFastqNames(fastqs, parse).value;
      forall k :: 0 <= k < |fastqs| ==>
        parse(fastqs[k]).Ok? && fastqs[k] in m && m[fastqs[k]] == Render(t, Paired(ParseAll(fastqs, parse).value), parse(fastqs[k]).value)
  {
    var fs;
    fs, t := UniqueFastqNamesParts(fastqs, parse);
    ChosenNames(fastqs, parse, fs, Templates, t);
    ZipSpec(fastqs, Renders(t, Paired(fs), fs));
  }

  /** The function fails exactly when some name does not parse or no
      template tells the names apart. */
  lemma UniqueFastqNamesErr(fastqs: seq<string>, parse: Parser)
    ensures UniqueFastqNames(fastqs, parse).Ok? <==>
      ParseAll(fastqs, parse).Ok? && exists i :: 0 <= i < |Templates| && Distinct(Renders(Templates[i], Paired(ParseAll(fastqs, parse).value), ParseAll(fastqs, parse).value))
    ensures UniqueFastqNames(fastqs, parse).Err? && UniqueFastqNames(fastqs, parse).error.BadName? <==> ParseAll(fastqs, parse).Err?
  {
    if ParseAll(fastqs, parse).Ok? {
      var fs := ParseAll(fastqs, parse).value;
      ChooseSpec(Templates, Paired(fs), fs);
    }
  }

  /** The template used is the first in the fixed order that tells the
      names apart. */
  lemma ChosenTemplateIsFirst(fastqs: seq<string>, i: nat, parse: Parser)
    requires ParseAll(fastqs, parse).Ok?
    requires i < |Templates|
    requires var fs := ParseAll(fastqs, parse).value; Choose(Templates, Paired(fs), fs) == Some(Templates[i])
    ensures var fs := ParseAll(fastqs, parse).value;
      forall j :: 0 <= j < i ==> !Distinct(Renders(Templates[j], Paired(fs), fs))
  {
    var fs := ParseAll(fastqs, parse).value;
    ChooseSpec(Templates, Paired(fs), fs);
    var k :| 0 <= k < |Templates| && Templates[k] == Templates[i] && Distinct(Renders(Templates[k], Paired(fs), fs))
             && forall j :: 0 <= j < k ==> !Distinct(Renders(Templates[j], Paired(fs), fs));
    assert k == i;
  }

  /** Distinct names that print back as themselves always get a unique
      set: at worst the Full template tells them apart. */
  lemma SelfPrintingNamesAreMapped(fastqs: seq<string>, parse: Parser)
    requires forall k :: 0 <= k < |fastqs| ==> parse(fastqs[k]).Ok? && Format(parse(fastqs[k]).value) == fastqs[k]
    requires Distinct(fastqs)
    ensures UniqueFastqNames(fastqs, parse).Ok?
  {
    ParseAllSpec(fastqs, parse);
    var fs := ParseAll(fastqs, parse).value;
    var paired := Paired(fs);
    var names := Renders(Full, paired, fs);
    forall a, b | 0 <= a < b < |names| ensures names[a] != names[b] {
      assert names[a] == fastqs[a] + Extension && names[b] == fastqs[b] + Extension;
      assert fastqs[a] == names[a][..|names[a]| - |Extension|];
      assert fastqs[b] == names[b][..|names[b]| - |Extension|];
    }
    assert Templates[4] == Full;
    UniqueFastqNamesErr(fastqs, parse);
  }

  /** In particular distinct names in the documented CASAVA form. */
  lemma DocumentedNamesAreMapped(fastqs: seq<string>)
    requires forall k :: 0 <= k < |fastqs| ==> Documented(fastqs[k])
    requires Distinct(fastqs)
    ensures UniqueFastqNames(fastqs, Parse).Ok?
  {
    forall k | 0 <= k < |fastqs| ensures Parse(fastqs[k]).Ok? && Format(Parse(fastqs[k]).value) == fastqs[k] {
      FormatParse(fastqs[k]);
    }
    SelfPrintingNamesAreMapped(fastqs, Parse);
  }

  // ---------------------------------------------------------------------
  // Renderings

  /** For every template but Full, a paired set adds "_R<read>" before the
      extension and nothing else. */
  lemma PairedAddsRead(t: Template, f: FastqName)
    requires t != Full
    ensures Render(t, true, f) == Join(Fields(t, false, f), '_') + "_" + ("R" + PadInt(f.read, 0)) + Extension
  {
    var base := Fields(t, false, f);
    var read := "R" + PadInt(f.read, 0);
    assert Render(t, true, f) == Join(Fields(t, true, f), '_') + Extension;
    assert Fields(t, true, f) == base + [read];
    JoinAppend(base, [read], '_');
    assert Join([read], '_') == read;
  }

  /** Without a barcode the templates with TAG coincide with those
      without it. */
  lemma NoBarcodeNoTag(paired: bool, f: FastqName)
    requires f.barcode.None?
    ensures Render(NameTag, paired, f) == Render(Name, paired, f)
    ensures Render(NameTagLane, paired, f) == Render(NameLane, paired, f)
  {
    assert [f.sampleName] + [] == [f.sampleName];
  }

  /** The richest short template on a paired set is the printed name
      without its set number. */
  lemma NameTagLaneIsFormatPrefix(f: FastqName)
    requires f.barcode.Some?
    ensures Render(Full, true, f) == Join(Fields(NameTagLane, true, f), '_') + "_" + PadInt(f.setNumber, 3) + Extension
  {
    var p := Fields(NameTagLane, true, f);
    assert [f.sampleName] + TailTokens(f) == p + [PadInt(f.setNumber, 3)];
    JoinAppend(p, [PadInt(f.setNumber, 3)], '_');
  }

  // ---------------------------------------------------------------------
  // The source's loops

  /** The mapping the source's inner loop builds: a name is recorded only
      the first time its rendering appears. */
  function FirstZip(keys: seq<string>, vals: seq<string>): map<string, string>
    requires |keys| == |vals|
  {
    if |keys| == 0 then map[]
    else
      var n := |keys| - 1;
      var m := FirstZip(keys[..n], vals[..n]);
      if vals[n] in vals[..n] then m else m[keys[n] := vals[n]]
  }

  /** On distinct renderings every name is recorded. */
  lemma {:induction false} FirstZipDistinct(keys: seq<string>, vals: seq<string>)
    requires |keys| == |vals| && Distinct(vals)
    ensures FirstZip(keys, vals) == Zip(keys, vals)
  {
    if |keys| > 0 {
      var n := |keys| - 1;
      assert Distinct(vals[..n]) by {
        forall a, b | 0 <= a < b < n ensures vals[..n][a] != vals[..n][b] {
          assert vals[..n][a] == vals[a] && vals[..n][b] == vals[b];
        }
      }
      FirstZipDistinct(keys[..n], vals[..n]);
      assert vals[n] !in vals[..n] by {
        forall a | 0 <= a < n ensures vals[..n][a] != vals[n] {
          assert vals[..n][a] == vals[a];
        }
      }
    }
  }

  /** The source's first pass: parse every name, stopping at the first
      that does not parse, and note whether read 1 and read 2 both occur. */
  method ParseSet(fastqs: seq<string>, parse: Parser) returns (r: Result<seq<FastqName>, UniqueError>, paired: bool)
    ensures r == ParseAll(fastqs, parse)
    ensures r.Ok? ==> paired == Paired(r.value)
  {
    var fs: seq<FastqName> := [];
    var gotR1, gotR2 := false, false;
    var i := 0;
    while i < |fastqs|
      invariant 0 <= i <= |fastqs| && |fs| == i
      invariant forall k :: 0 <= k < i ==> parse(fastqs[k]) == Ok(fs[k])
      invariant gotR1 <==> exists k :: 0 <= k < i && fs[k].read == 1
      invariant gotR2 <==> exists k :: 0 <= k < i && fs[k].read == 2
    {
      var p := parse(fastqs[i]);
      if p.Err? {
        ParseAllFirstError(fastqs, i, parse);
        return Err(BadName(fastqs[i], p.error)), false;
      }
      fs := fs + [p.value];
      if p.value.read == 1 {
        gotR1 := true;
      } else if p.value.read == 2 {
        gotR2 := true;
      }
      i := i + 1;
    }
    ParseAllSpec(fastqs, parse);
    assert fs == ParseAll(fastqs, parse).value;
    return Ok(fs), gotR1 && gotR2;
  }

  /** render applied to every element. */
  function Apply(render: FastqName -> string, fs: seq<FastqName>): (r: seq<string>)
    ensures |r| == |fs|
  {
    seq(|fs|, k requires 0 <= k < |fs| => render(fs[k]))
  }

  /** The source's pass for one template: render every name and record
      those whose rendering has not been seen; count the renderings seen. */
  method TryTemplate(fastqs: seq<string>, fs: seq<FastqName>, render: FastqName -> string)
    returns (mapping: map<string, string>, count: nat)
    requires |fs| == |fastqs|
    ensures count == |Dedup(Apply(render, fs))|
    ensures mapping == FirstZip(fastqs, Apply(render, fs))
  {
    ghost var names := Apply(render, fs);
    mapping := map[];
    var unique: seq<string> := [];
    var j := 0;
    while j < |fs|
      invariant 0 <= j <= |fs|
      invariant unique == Dedup(names[..j])
      invariant mapping == FirstZip(fastqs[..j], names[..j])
    {
      var name := render(fs[j]);
      assert names[..j + 1][..j] == names[..j] && names[..j + 1][j] == name;
      assert fastqs[..j + 1][..j] == fastqs[..j];
      DedupMembers(names[..j]);
      if name !in unique {
        mapping := mapping[fastqs[j] := name];
        unique := unique + [name];
      }
      j := j + 1;
    }
    assert names[..j] == names && fastqs[..j] == fastqs;
    count := |unique|;
  }

  /** get_unique_fastq_names as the source computes it: one pass to parse
      and detect a paired set, then a pass per template, accepting the
      first whose count of distinct renderings equals the number of
      inputs. */
  method GetUniqueFastqNames(fastqs: seq<string>, parse: Parser) returns (r: Result<map<string, string>, UniqueError>)
    ensures r == UniqueFastqNames(fastqs, parse)
  {
    var parsed, paired := ParseSet(fastqs, parse);
    if parsed.Err? {
      return Err(parsed.error);
    }
    var fs := parsed.value;
    ParseAllSpec(fastqs, parse);
    var ti := 0;
    while ti < |Templates|
      invariant 0 <= ti <= |Templates|
      invariant Choose(Templates, paired, fs) == Choose(Templates[ti..], paired, fs)
    {
      var t := Templates[ti];
      var mapping, count := TryTemplate(fastqs, fs, f => Render(t, paired, f));
      assert Apply(f => Render(t, paired, f), fs) == Renders(t, paired, fs);
      DedupLength(Renders(Templates[ti], paired, fs));
      if count == |fastqs| {
        FirstZipDistinct(fastqs, Renders(Templates[ti], paired, fs));
        return Ok(mapping);
      }
      assert Templates[ti..][1..] == Templates[ti + 1..];
      ti := ti + 1;
    }
    return Err(NoUniqueSet);
  }

  // ---------------------------------------------------------------------
  // The cases of the source's tests

  /** When every name parses, ParseAll gives exactly the parsed names. */
  lemma ParseAllOk(fastqs: seq<string>, parse: Parser, fs: seq<FastqName>)
    requires |fs| == |fastqs|
    requires forall k :: 0 <= k < |fastqs| ==> parse(fastqs[k]) == Ok(fs[k])
    ensures ParseAll(fastqs, parse) == Ok(fs)
  {
    ParseAllSpec(fastqs, parse);
    assert ParseAll(fastqs, parse).value == fs;
  }

  /** A single file is named after its sample alone. */
  lemma SingleFastq(fastq: string, parse: Parser)
    requires parse(fastq).Ok?
    ensures UniqueFastqNames([fastq], parse) == Ok(map[fastq := parse(fastq).value.sampleName + Extension])
  {
    var f := parse(fastq).value;
    ParseAllOk([fastq], parse, [f]);
    assert !Paired([f]);
    assert Render(Name, false, f) == f.sampleName + Extension;
    assert Renders(Name, false, [f]) == [f.sampleName + Extension];
    assert Choose(Templates, false, [f]) == Some(Name);
    assert Zip([fastq], [f.sampleName + Extension]) == map[fastq := f.sampleName + Extension] by {
      assert [fastq][..0] == [];
    }
  }

  /** The padded numbers the examples use. */
  lemma SmallPads()
    ensures PadInt(1, 3) == "001" && PadInt(2, 3) == "002" && PadInt(1, 0) == "1" && PadInt(2, 0) == "2"
  {
    assert Digits(1) == "1" && Digits(2) == "2";
    assert Zeros(2) == "00";
  }

  /** One sample's files from lanes 1 and 2, read 1 and read 2 each. */
  function TwoLanes(name: string, barcode: Option<string>): seq<FastqName> {
    [FastqName(name, barcode, 1, 1, 1), FastqName(name, barcode, 1, 2, 1),
     FastqName(name, barcode, 2, 1, 1), FastqName(name, barcode, 2, 2, 1)]
  }

  /** Three fields joined with underscores, then a suffix. */
  lemma JoinThree(a: string, b: string, c: string, e: string)
    ensures Join([a, b, c], '_') + e == a + ("_" + b + "_" + c + e)
  {
    var p := [a, b, c];
    assert p[1..][1..] == [c];
    assert p[1..] == [b, c];
    assert Join([b, c], '_') == b + "_" + c;
    assert Join(p, '_') == a + "_" + (b + "_" + c);
  }

  /** The NameLane rendering of a paired read. */
  lemma LaneRender(f: FastqName, suffix: string)
    requires suffix == "_" + ("L" + PadInt(f.lane, 3)) + "_" + ("R" + PadInt(f.read, 0)) + Extension
    ensures Render(NameLane, true, f) == f.sampleName + suffix
  {
    var x, y := PadInt(f.lane, 3), PadInt(f.read, 0);
    assert Render(NameLane, true, f) == Join(Fields(NameLane, true, f), '_') + Extension;
    assert Fields(NameLane, true, f) == [f.sampleName, "L" + x, "R" + y];
    JoinThree(f.sampleName, "L" + x, "R" + y, Extension);
  }

  /** Two names with a common stem differ where their endings do. */
  lemma SuffixesDiffer(name: string, x: string, y: string, i: nat)
    requires i < |x| == |y| && x[i] != y[i]
    ensures name + x != name + y
  {
    assert (name + x)[|name| + i] == x[i];
    assert (name + y)[|name| + i] == y[i];
  }

  /** What follows the sample name in the NameLane renderings of the
      two-lane set, in TwoLanes order. */
  const LaneSuffixes: seq<string> :=
    ["_L001_R1.fastq.gz", "_L001_R2.fastq.gz", "_L002_R1.fastq.gz", "_L002_R2.fastq.gz"]

  /** The k-th NameLane rendering of the two-lane set. */
  lemma TwoLanesNameAt(name: string, barcode: Option<string>, k: nat)
    requires k < 4
    ensures Renders(NameLane, true, TwoLanes(name, barcode))[k] == name + LaneSuffixes[k]
  {
    var f := TwoLanes(name, barcode)[k];
    LaneSuffixAt(k);
    LaneRender(f, LaneSuffixes[k]);
  }

  /** The k-th suffix, spelt out from the lane and read of the k-th file. */
  lemma LaneSuffixAt(k: nat)
    requires k < 4
    ensures var f := TwoLanes("", None)[k];
      LaneSuffixes[k] == "_" + ("L" + PadInt(f.lane, 3)) + "_" + ("R" + PadInt(f.read, 0)) + Extension
  {
    SmallPads();
    if k == 0 {
      assert LaneSuffixes[0] == "_" + ("L" + "001") + "_" + ("R" + "1") + Extension;
    } else if k == 1 {
      assert LaneSuffixes[1] == "_" + ("L" + "001") + "_" + ("R" + "2") + Extension;
    } else if k == 2 {
      assert LaneSuffixes[2] == "_" + ("L" + "002") + "_" + ("R" + "1") + Extension;
    } else {
      assert LaneSuffixes[3] == "_" + ("L" + "002") + "_" + ("R" + "2") + Extension;
    }
  }

  /** The NameLane renderings of the two-lane set. */
  lemma TwoLanesNames(name: string, barcode: Option<string>)
    ensures Renders(NameLane, true, TwoLanes(name, barcode))
         == [name + LaneSuffixes[0], name + LaneSuffixes[1], name + LaneSuffixes[2], name + LaneSuffixes[3]]
  {
    forall k | 0 <= k < 4
      ensures Renders(NameLane, true, TwoLanes(name, barcode))[k] == name + LaneSuffixes[k]
    {
      TwoLanesNameAt(name, barcode, k);
    }
  }

  /** The four renderings differ pairwise: in the read digit within a lane,
      in the lane digit across lanes. */
  lemma LaneNamesDistinct(name: string)
    ensures Distinct([name + LaneSuffixes[0], name + LaneSuffixes[1], name + LaneSuffixes[2], name + LaneSuffixes[3]])
  {
    var names := [name + LaneSuffixes[0], name + LaneSuffixes[1], name + LaneSuffixes[2], name + LaneSuffixes[3]];
    forall i, j | 0 <= i < j < 4 ensures names[i] != names[j] {
      var at := if j == i + 1 && i % 2 == 0 then 7 else 4;
      SuffixesDiffer(name, LaneSuffixes[i], LaneSuffixes[j], at);
    }
  }

  /** The two-lane set is paired, the sample name alone repeats, and
      sample plus lane is the first template that separates it. */
  lemma TwoLanesPaired(name: string, barcode: Option<string>)
    ensures Paired(TwoLanes(name, barcode)) && Choose(Templates, true, TwoLanes(name, barcode)) == Some(NameLane)
  {
    var fs := TwoLanes(name, barcode);
    assert fs[0].read == 1 && fs[1].read == 2;
    assert !Distinct(Renders(Name, true, fs)) by {
      assert Fields(Name, true, fs[0]) == Fields(Name, true, fs[2]);
      assert Renders(Name, true, fs)[0] == Renders(Name, true, fs)[2];
    }
    assert Distinct(Renders(NameLane, true, fs)) by {
      TwoLanesNames(name, barcode);
      LaneNamesDistinct(name);
    }
    assert Templates[1..][0] == NameLane;
  }

  /** Such a set is named by sample, lane and read. */
  lemma TwoLanesMapping(fastqs: seq<string>, parse: Parser, name: string, barcode: Option<string>)
    requires |fastqs| == 4
    requires forall k :: 0 <= k < 4 ==> parse(fastqs[k]) == Ok(TwoLanes(name, barcode)[k])
    ensures UniqueFastqNames(fastqs, parse)
         == Ok(Zip(fastqs, [name + "_L001_R1.fastq.gz", name + "_L001_R2.fastq.gz", name + "_L002_R1.fastq.gz", name + "_L002_R2.fastq.gz"]))
  {
    var fs := TwoLanes(name, barcode);
    ParseAllOk(fastqs, parse, fs);
    TwoLanesPaired(name, barcode);
    TwoLanesNames(name, barcode);
    assert UniqueFastqNames(fastqs, parse) == Ok(Zip(fastqs, Renders(NameLane, true, fs)));
  }
}
