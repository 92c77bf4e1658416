/** CasavaSampleSheet.empty_names, illegal_names and fix_illegal_names:
    the checks on SampleID and SampleProject, and the repair that turns
    illegal characters into '_'. */
module NameChecks {
  import opened Text
  import opened SampleSheet

  /** The characters SampleID and SampleProject must not contain. The
      backslash is there because "\=" in a Python string literal keeps the
      backslash. */
  const IllegalCharacters: string := "?()[]/\\=+<>:;\"',*^|&. \t"

  const Underscore: set<char> := {'_'}

  /** The same characters as a set, for deciding membership of a given
      character. */
  const IllegalSet: set<char> :=
    {'?', '(', ')', '[', ']', '/', '\\', '=', '+', '<', '>', ':', ';', '"', '\'', ',', '*', '^', '|', '&', '.', ' ', '\t'}

  predicate IsIllegal(c: char) {
    c in IllegalCharacters
  }

  lemma IllegalIff(c: char)
    ensures IsIllegal(c) <==> c in IllegalSet
  {
    IllegalSetMatches();
  }

  lemma IllegalSetMatches()
    ensures forall c :: c in IllegalSet <==> c in IllegalCharacters
  {
    assert |IllegalCharacters| == 23;
    assert forall i :: 0 <= i < |IllegalCharacters| ==> IllegalCharacters[i] in IllegalSet;
  }

  /** Some character of s is illegal. */
  predicate HasIllegal(s: string) {
    exists i :: 0 <= i < |s| && IsIllegal(s[i])
  }

  // ---------------------------------------------------------------------
  // empty_names

  /** SampleID or SampleProject is blank once whitespace is stripped. */
  predicate IsEmptyName(r: Row) {
    Trim(r.sampleId, Whitespace) == "" || Trim(r.sampleProject, Whitespace) == ""
  }

  function EmptyNames(rows: seq<Row>): seq<nat> {
    Where(rows, IsEmptyName)
  }

  /** A value strips to nothing exactly when it is made only of whitespace. */
  lemma BlankIffWhitespace(s: string)
    ensures Trim(s, Whitespace) == "" <==> AllIn(s, Whitespace)
  {
    var a, b := TrimSlice(s, Whitespace);
    if Trim(s, Whitespace) == "" {
      assert a == b;
      forall i | 0 <= i < |s| ensures s[i] in Whitespace {
        if i < a {
          assert s[..a][i] == s[i];
        } else {
          assert s[b..][i - b] == s[i];
        }
      }
    } else {
      TrimAllInContra(s);
    }
  }

  lemma TrimAllInContra(s: string)
    ensures AllIn(s, Whitespace) ==> Trim(s, Whitespace) == ""
  {
    if AllIn(s, Whitespace) {
      TrimAllIn(s, Whitespace);
    }
  }

  /** empty_names lists, in order and once each, exactly the rows whose
      SampleID or SampleProject is made only of whitespace. */
  lemma EmptyNamesSpec(rows: seq<Row>)
    ensures var e := EmptyNames(rows);
      && (forall a, b :: 0 <= a < b < |e| ==> e[a] < e[b])
      && (forall i :: 0 <= i < |rows| ==>
            (i in e <==> AllIn(rows[i].sampleId, Whitespace) || AllIn(rows[i].sampleProject, Whitespace)))
  {
    WhereSpec(rows, IsEmptyName);
    forall i | 0 <= i < |rows| ensures IsEmptyName(rows[i]) <==> AllIn(rows[i].sampleId, Whitespace) || AllIn(rows[i].sampleProject, Whitespace) {
      BlankIffWhitespace(rows[i].sampleId);
      BlankIffWhitespace(rows[i].sampleProject);
    }
  }

  // ---------------------------------------------------------------------
  // illegal_names

  predicate IsIllegalName(r: Row) {
    HasIllegal(r.sampleId) || HasIllegal(r.sampleProject)
  }

  function IllegalNames(rows: seq<Row>): seq<nat> {
    Where(rows, IsIllegalName)
  }

  /** illegal_names lists, in order and at most once each, exactly the rows
      whose SampleID or SampleProject holds an illegal character. */
  lemma IllegalNamesSpec(rows: seq<Row>)
    ensures var e := IllegalNames(rows);
      && (forall a, b :: 0 <= a < b < |e| ==> e[a] < e[b])
      && (forall a :: 0 <= a < |e| ==> e[a] < |rows|)
      && (forall i :: 0 <= i < |rows| ==>
            (i in e <==> exists c :: c in IllegalCharacters && (c in rows[i].sampleId || c in rows[i].sampleProject)))
  {
    WhereSpec(rows, IsIllegalName);
  }

  // ---------------------------------------------------------------------
  // fix_illegal_names

  /** One round of the repair for the illegal character c:
      value.strip().replace(c, '_').strip('_'). */
  function Round(x: string, c: char): string {
    Trim(ReplaceChar(Trim(x, Whitespace), c, '_'), Underscore)
  }

  /** The rounds for the characters of cs, in order. */
  function Rounds(x: string, cs: string): string
    decreases |cs|
  {
    if |cs| == 0 then x else Rounds(Round(x, cs[0]), cs[1..])
  }

  /** The repaired value: a round for every illegal character. */
  function FixName(s: string): string {
    Rounds(s, IllegalCharacters)
  }

  function FixRow(r: Row): Row {
    r.(sampleId := FixName(r.sampleId), sampleProject := FixName(r.sampleProject))
  }

  /** Applies f to the rows at the given indices, one after the other. */
  function FixAt(rows: seq<Row>, idx: seq<nat>, p: nat, f: Row -> Row): (r: seq<Row>)
    requires p <= |idx| && forall a :: 0 <= a < |idx| ==> idx[a] < |rows|
    ensures |r| == |rows|
    decreases |idx| - p
  {
    if p == |idx| then rows
    else FixAt(rows[idx[p] := f(rows[idx[p]])], idx, p + 1, f)
  }

  /** fix_illegal_names: every row illegal_names reports is repaired. */
  function FixIllegalNames(rows: seq<Row>): (r: seq<Row>)
    ensures |r| == |rows|
  {
    WhereSpec(rows, IsIllegalName);
    FixAt(rows, IllegalNames(rows), 0, FixRow)
  }

  lemma {:induction false} FixAtSpec(rows: seq<Row>, idx: seq<nat>, p: nat, f: Row -> Row)
    requires p <= |idx| && forall a :: 0 <= a < |idx| ==> idx[a] < |rows|
    requires forall a, b :: 0 <= a < b < |idx| ==> idx[a] < idx[b]
    ensures var r := FixAt(rows, idx, p, f);
      forall i :: 0 <= i < |rows| ==> r[i] == if i in idx[p..] then f(rows[i]) else rows[i]
    decreases |idx| - p
  {
    if p < |idx| {
      var rows' := rows[idx[p] := f(rows[idx[p]])];
      FixAtSpec(rows', idx, p + 1, f);
      forall i | 0 <= i < |rows|
        ensures FixAt(rows, idx, p, f)[i] == if i in idx[p..] then f(rows[i]) else rows[i]
      {
        assert idx[p..] == [idx[p]] + idx[p + 1..];
        if i == idx[p] {
          assert i !in idx[p + 1..] by {
            forall a | p + 1 <= a < |idx| ensures idx[a] != i {
              assert idx[p] < idx[a];
            }
          }
          assert rows'[i] == f(rows[i]);
        } else {
          assert rows'[i] == rows[i];
          assert (i in idx[p..]) == (i in idx[p + 1..]);
        }
      }
    }
  }

  /** The repair changes only the rows illegal_names reports, and in them
      only SampleID and SampleProject. */
  lemma FixIllegalNamesSpec(rows: seq<Row>)
    ensures var r := FixIllegalNames(rows);
      forall i :: 0 <= i < |rows| ==> r[i] == if IsIllegalName(rows[i]) then FixRow(rows[i]) else rows[i]
  {
    WhereSpec(rows, IsIllegalName);
    FixAtSpec(rows, IllegalNames(rows), 0, FixRow);
    assert IllegalNames(rows)[0..] == IllegalNames(rows);
  }

  // ---------------------------------------------------------------------
  // After the repair

  /** A round never brings back a character other than '_'. */
  lemma RoundKeepsOut(x: string, c: char, e: char)
    requires e != '_' && e !in x
    ensures e !in Round(x, c)
  {
    TrimChars(x, Whitespace);
    var y := ReplaceChar(Trim(x, Whitespace), c, '_');
    TrimChars(y, Underscore);
  }

  /** The round for c removes c. */
  lemma RoundRemoves(x: string, c: char)
    requires c != '_'
    ensures c !in Round(x, c)
  {
    var y := ReplaceChar(Trim(x, Whitespace), c, '_');
    TrimChars(y, Underscore);
  }

  lemma {:induction false} RoundsClean(x: string, cs: string, done: string)
    requires '_' !in done && '_' !in cs
    requires forall e :: e in done ==> e !in x
    ensures forall e :: e in done || e in cs ==> e !in Rounds(x, cs)
    decreases |cs|
  {
    if |cs| > 0 {
      var y := Round(x, cs[0]);
      forall e | e in done ensures e !in y {
        RoundKeepsOut(x, cs[0], e);
      }
      RoundRemoves(x, cs[0]);
      assert forall e :: e in cs ==> e == cs[0] || e in cs[1..];
      RoundsClean(y, cs[1..], done + [cs[0]]);
    }
  }

  /** A repaired value holds no illegal character. */
  lemma FixNameClean(s: string)
    ensures !HasIllegal(FixName(s))
  {
    RoundsClean(s, IllegalCharacters, "");
  }

  lemma FixRowClean(r: Row)
    ensures !IsIllegalName(FixRow(r))
  {
    FixNameClean(r.sampleId);
    FixNameClean(r.sampleProject);
  }

  /** fix_illegal_names leaves nothing for illegal_names to report. */
  lemma FixIllegalNamesClean(rows: seq<Row>)
    ensures IllegalNames(FixIllegalNames(rows)) == []
  {
    var r := FixIllegalNames(rows);
    FixIllegalNamesSpec(rows);
    forall i | 0 <= i < |r| ensures !IsIllegalName(r[i]) {
      if IsIllegalName(rows[i]) {
        FixRowClean(rows[i]);
      }
    }
    WhereNone(r, IsIllegalName);
  }

  // ---------------------------------------------------------------------
  // What the rounds amount to

  /** Every illegal character replaced by '_' in one pass. */
  function Sanitise(s: string): (r: string)
    ensures |r| == |s|
  {
    seq(|s|, i requires 0 <= i < |s| => if IsIllegal(s[i]) then '_' else s[i])
  }

  /** The whitespace str.strip() removes that is not itself illegal. */
  const LineBreaks: set<char> := {'\n', '\r', '\U{000B}', '\U{000C}'}

  predicate NoLineBreaks(s: string) {
    forall i :: 0 <= i < |s| ==> s[i] !in LineBreaks
  }

  lemma SanitiseSlice(x: string, a: nat, b: nat)
    requires a <= b <= |x|
    ensures Sanitise(x[a..b]) == Sanitise(x)[a..b]
  {
  }

  lemma SanitiseClean(x: string)
    requires !HasIllegal(x)
    ensures Sanitise(x) == x
  {
  }

  /** Stripping whitespace at the ends does not change what the rounds
      are heading for. */
  lemma StripKeeps(x: string)
    requires NoLineBreaks(x)
    ensures NoLineBreaks(Trim(x, Whitespace))
    ensures Trim(Sanitise(Trim(x, Whitespace)), Underscore) == Trim(Sanitise(x), Underscore)
  {
    var a, b := TrimSlice(x, Whitespace);
    SanitiseSlice(x, a, b);
    var z := Sanitise(x);
    assert AllIn(z[..a], Underscore) by {
      forall i | 0 <= i < a ensures z[..a][i] in Underscore {
        assert x[..a][i] == x[i];
        assert x[i] == ' ' || x[i] == '\t';
      }
    }
    assert AllIn(z[b..], Underscore) by {
      forall i | 0 <= i < |z| - b ensures z[b..][i] in Underscore {
        assert x[b..][i] == x[b + i];
        assert x[b + i] == ' ' || x[b + i] == '\t';
      }
    }
    TrimInner(z, a, b, Underscore);
  }

  /** Replacing an illegal character by '_' does not either. */
  lemma ReplaceKeeps(y: string, c: char)
    requires IsIllegal(c) && NoLineBreaks(y)
    ensures NoLineBreaks(ReplaceChar(y, c, '_'))
    ensures Sanitise(ReplaceChar(y, c, '_')) == Sanitise(y)
  {
    assert !IsIllegal('_');
  }

  /** Nor does stripping '_' at the ends. */
  lemma StripUnderscoreKeeps(z: string)
    requires NoLineBreaks(z)
    ensures NoLineBreaks(Trim(z, Underscore))
    ensures Trim(Sanitise(Trim(z, Underscore)), Underscore) == Trim(Sanitise(z), Underscore)
  {
    var a, b := TrimSlice(z, Underscore);
    SanitiseSlice(z, a, b);
    var w := Sanitise(z);
    assert !IsIllegal('_');
    assert AllIn(w[..a], Underscore) by {
      forall i | 0 <= i < a ensures w[..a][i] in Underscore {
        assert z[..a][i] == z[i];
      }
    }
    assert AllIn(w[b..], Underscore) by {
      forall i | 0 <= i < |w| - b ensures w[b..][i] in Underscore {
        assert z[b..][i] == z[b + i];
      }
    }
    TrimInner(w, a, b, Underscore);
  }

  lemma RoundKeeps(x: string, c: char)
    requires IsIllegal(c) && NoLineBreaks(x)
    ensures NoLineBreaks(Round(x, c))
    ensures Trim(Sanitise(Round(x, c)), Underscore) == Trim(Sanitise(x), Underscore)
  {
    var y := Trim(x, Whitespace);
    StripKeeps(x);
    ReplaceKeeps(y, c);
    StripUnderscoreKeeps(ReplaceChar(y, c, '_'));
  }

  lemma {:induction false} RoundsKeep(x: string, cs: string)
    requires forall i :: 0 <= i < |cs| ==> IsIllegal(cs[i])
    requires NoLineBreaks(x)
    ensures Trim(Sanitise(Rounds(x, cs)), Underscore) == Trim(Sanitise(x), Underscore)
    decreases |cs|
  {
    if |cs| > 0 {
      RoundKeeps(x, cs[0]);
      RoundsKeep(Round(x, cs[0]), cs[1..]);
    }
  }

  /** After at least one round the value has no '_' at either end. */
  lemma {:induction false} RoundsStripped(x: string, cs: string)
    requires |cs| >= 1
    ensures Trim(Rounds(x, cs), Underscore) == Rounds(x, cs)
    decreases |cs|
  {
    var y := Round(x, cs[0]);
    if |cs| == 1 {
      TrimIdempotent(ReplaceChar(Trim(x, Whitespace), cs[0], '_'), Underscore);
    } else {
      RoundsStripped(y, cs[1..]);
    }
  }

  /** The 23 rounds amount to replacing every illegal character by '_' and
      stripping '_' from both ends, as long as the value holds no line
      break (which strip() would remove but is not illegal):
      '886 1' becomes '886_1' and 'AR?' becomes 'AR'. */
  lemma FixNameExact(s: string)
    requires NoLineBreaks(s)
    ensures FixName(s) == Trim(Sanitise(s), Underscore)
  {
    var x := FixName(s);
    assert forall i :: 0 <= i < |IllegalCharacters| ==> IsIllegal(IllegalCharacters[i]);
    RoundsKeep(s, IllegalCharacters);
    FixNameClean(s);
    SanitiseClean(x);
    RoundsStripped(s, IllegalCharacters);
  }

  /** Which characters of the test values are illegal. */
  lemma SpaceExampleChars()
    ensures !IsIllegal('8') && !IsIllegal('6') && !IsIllegal('1') && IsIllegal(' ')
  {
    IllegalIff('8');
    IllegalIff('6');
    IllegalIff('1');
    IllegalIff(' ');
  }

  lemma QuestionMarkExampleChars()
    ensures !IsIllegal('A') && !IsIllegal('R') && IsIllegal('?')
  {
    IllegalIff('A');
    IllegalIff('R');
    IllegalIff('?');
  }

  lemma SanitiseSpace(s: string)
    requires s == "886 1"
    ensures NoLineBreaks(s) && Trim(Sanitise(s), Underscore) == "886_1"
  {
    SanitisedSpace(s);
    TrimOfTrimmed("886_1", Underscore);
  }

  lemma SanitisedSpace(s: string)
    requires s == "886 1"
    ensures Sanitise(s) == "886_1"
  {
    SpaceExampleChars();
    var z := Sanitise(s);
    assert z[0] == '8' && z[1] == '8' && z[2] == '6' && z[3] == '_' && z[4] == '1';
  }

  lemma SanitiseQuestionMark(s: string)
    requires s == "AR?"
    ensures NoLineBreaks(s) && Trim(Sanitise(s), Underscore) == "AR"
  {
    QuestionMarkExampleChars();
    var z := Sanitise(s);
    assert z[0] == 'A' && z[1] == 'R' && z[2] == '_';
    assert z[..2] == "AR";
    TrimOfTrimmed("AR", Underscore);
    assert TrimRight(z, Underscore) == TrimRight(z[..2], Underscore);
    assert TrimLeft(z, Underscore) == z;
  }

  /** The values repaired in the sheet's tests. */
  lemma FixNameSpace(s: string)
    requires s == "886 1"
    ensures FixName(s) == "886_1"
  {
    SanitiseSpace(s);
    FixNameExact(s);
  }

  lemma FixNameQuestionMark(s: string)
    requires s == "AR?"
    ensures FixName(s) == "AR"
  {
    SanitiseQuestionMark(s);
    FixNameExact(s);
  }
}
