/** CasavaSampleSheet.duplicated_names and fix_duplicated_names: rows that
    agree on SampleID, SampleProject, Index and Lane are grouped, and the
    members of each group get "_1", "_2", ... appended to their SampleID. */
module Duplicates {
  import opened Text
  import opened Numbers
  import opened Seqs
  import opened SampleSheet

  /** The fields that identify a sample. */
  datatype Key = Key(sampleId: string, sampleProject: string, index: string, lane: int)

  function KeyOf(r: Row): Key {
    Key(r.sampleId, r.sampleProject, r.index, r.lane)
  }

  function Keys(rows: seq<Row>): (ks: seq<Key>)
    ensures |ks| == |rows|
    ensures forall i :: 0 <= i < |rows| ==> ks[i] == KeyOf(rows[i])
  {
    seq(|rows|, i requires 0 <= i < |rows| => KeyOf(rows[i]))
  }

  /** The indices of the rows whose key is k, in increasing order. */
  function Positions(rows: seq<Row>, k: Key): seq<nat>
  {
    if |rows| == 0 then []
    else
      var ps := Positions(rows[..|rows| - 1], k);
      if KeyOf(rows[|rows| - 1]) == k then ps + [|rows| - 1] else ps
  }

  predicate Increasing(ps: seq<nat>) {
    forall p, q :: 0 <= p < q < |ps| ==> ps[p] < ps[q]
  }

  lemma {:induction false} PositionsSpec(rows: seq<Row>, k: Key)
    ensures var ps := Positions(rows, k);
      && Increasing(ps)
      && (forall p :: 0 <= p < |ps| ==> ps[p] < |rows| && KeyOf(rows[ps[p]]) == k)
      && (forall i :: 0 <= i < |rows| ==> (i in ps <==> KeyOf(rows[i]) == k))
  {
    if |rows| > 0 {
      var init := rows[..|rows| - 1];
      PositionsSpec(init, k);
      var ps := Positions(rows, k);
      forall i | 0 <= i < |init| ensures rows[i] == init[i] { }
    }
  }

  /** The positions among the first j rows are a prefix of all positions. */
  lemma {:induction false} PositionsPrefix(rows: seq<Row>, j: nat, k: Key)
    requires j <= |rows|
    ensures var ps := Positions(rows, k);
      |Positions(rows[..j], k)| <= |ps| && Positions(rows[..j], k) == ps[..|Positions(rows[..j], k)|]
    decreases |rows| - j
  {
    if j < |rows| {
      PositionsPrefix(rows, j + 1, k);
      assert rows[..j + 1][..j] == rows[..j];
    } else {
      assert rows[..j] == rows;
    }
  }

  /** Two different rows with the same key make that key's positions at
      least two long. */
  lemma TwoPositions(rows: seq<Row>, i: nat, j: nat)
    requires i < |rows| && j < |rows| && i != j && KeyOf(rows[i]) == KeyOf(rows[j])
    ensures |Positions(rows, KeyOf(rows[i]))| > 1
  {
    var ps := Positions(rows, KeyOf(rows[i]));
    PositionsSpec(rows, KeyOf(rows[i]));
    assert i in ps && j in ps;
  }

  // ---------------------------------------------------------------------
  // duplicated_names

  function GroupsOf(rows: seq<Row>, ks: seq<Key>): seq<seq<nat>>
  {
    if |ks| == 0 then []
    else
      var ps := Positions(rows, ks[0]);
      (if |ps| > 1 then [ps] else []) + GroupsOf(rows, ks[1..])
  }

  /** One group of row indices per key that occurs more than once; the
      groups come in order of first occurrence, which the properties below
      do not depend on. */
  function DuplicatedNames(rows: seq<Row>): seq<seq<nat>> {
    GroupsOf(rows, Dedup(Keys(rows)))
  }

  lemma {:induction false} GroupsOfSpec(rows: seq<Row>, ks: seq<Key>)
    ensures var gs := GroupsOf(rows, ks);
      && (forall m :: 0 <= m < |gs| ==>
            |gs[m]| > 1 && gs[m][0] < |rows| && gs[m] == Positions(rows, KeyOf(rows[gs[m][0]])))
      && (forall k :: k in ks && |Positions(rows, k)| > 1 ==> Positions(rows, k) in gs)
  {
    if |ks| > 0 {
      var rest := ks[1..];
      GroupsOfSpec(rows, rest);
      var ps := Positions(rows, ks[0]);
      PositionsSpec(rows, ks[0]);
      assert ks == [ks[0]] + rest;
      var gs := GroupsOf(rows, ks);
      var tail := GroupsOf(rows, rest);
      forall m | 0 <= m < |gs|
        ensures |gs[m]| > 1 && gs[m][0] < |rows| && gs[m] == Positions(rows, KeyOf(rows[gs[m][0]]))
      {
        if |ps| > 1 && m == 0 {
          assert gs[m] == ps;
          assert ps[0] < |rows| && KeyOf(rows[ps[0]]) == ks[0];
        } else {
          assert gs[m] == tail[if |ps| > 1 then m - 1 else m];
        }
      }
    }
  }

  /** Every group of duplicated_names has more than one member, all of
      them rows of the sheet sharing one key, in row order. */
  lemma DuplicatedGroups(rows: seq<Row>)
    ensures var gs := DuplicatedNames(rows);
      forall m :: 0 <= m < |gs| ==>
        && |gs[m]| > 1 && Increasing(gs[m])
        && forall p :: 0 <= p < |gs[m]| ==> gs[m][p] < |rows| && KeyOf(rows[gs[m][p]]) == KeyOf(rows[gs[m][0]])
  {
    var gs := DuplicatedNames(rows);
    GroupsOfSpec(rows, Dedup(Keys(rows)));
    forall m | 0 <= m < |gs|
      ensures && |gs[m]| > 1 && Increasing(gs[m])
              && forall p :: 0 <= p < |gs[m]| ==> gs[m][p] < |rows| && KeyOf(rows[gs[m][p]]) == KeyOf(rows[gs[m][0]])
    {
      PositionsSpec(rows, KeyOf(rows[gs[m][0]]));
    }
  }

  /** A group holds every row with its key, so one key gives one group. */
  lemma DuplicatedGroupsWhole(rows: seq<Row>)
    ensures var gs := DuplicatedNames(rows);
      && (forall m :: 0 <= m < |gs| ==> |gs[m]| > 0 && gs[m][0] < |rows|)
      && forall m, i :: 0 <= m < |gs| && 0 <= i < |rows| && KeyOf(rows[i]) == KeyOf(rows[gs[m][0]]) ==> i in gs[m]
  {
    var gs := DuplicatedNames(rows);
    GroupsOfSpec(rows, Dedup(Keys(rows)));
    forall m, i | 0 <= m < |gs| && 0 <= i < |rows| && KeyOf(rows[i]) == KeyOf(rows[gs[m][0]]) ensures i in gs[m] {
      PositionsSpec(rows, KeyOf(rows[gs[m][0]]));
    }
  }

  /** A row is in some group exactly when another row has its key. */
  lemma DuplicatedMembers(rows: seq<Row>, i: nat)
    requires i < |rows|
    ensures var gs := DuplicatedNames(rows);
      (exists m :: 0 <= m < |gs| && i in gs[m]) <==> Duplicated(rows, i)
  {
    var ks := Dedup(Keys(rows));
    var gs := DuplicatedNames(rows);
    GroupsOfSpec(rows, ks);
    var k := KeyOf(rows[i]);
    var ps := Positions(rows, k);
    PositionsSpec(rows, k);
    if exists m :: 0 <= m < |gs| && i in gs[m] {
      var m :| 0 <= m < |gs| && i in gs[m];
      PositionsSpec(rows, KeyOf(rows[gs[m][0]]));
      assert gs[m] == ps;
      var j := if ps[0] == i then ps[1] else ps[0];
      assert ps[0] < ps[1];
      assert j != i && KeyOf(rows[j]) == k;
    }
    if Duplicated(rows, i) {
      var j :| 0 <= j < |rows| && j != i && KeyOf(rows[j]) == KeyOf(rows[i]);
      TwoPositions(rows, i, j);
      DedupMembers(Keys(rows));
      assert Keys(rows)[i] == k;
      assert ps in gs;
      var m :| 0 <= m < |gs| && gs[m] == ps;
      assert i in gs[m];
    }
  }

  /** No row is in two groups. */
  lemma DuplicatedDisjoint(rows: seq<Row>)
    ensures Disjoint(DuplicatedNames(rows))
  {
    var gs := DuplicatedNames(rows);
    GroupsOfSpec(rows, Dedup(Keys(rows)));
    DedupDistinct(Keys(rows));
    forall m1, m2, i | 0 <= m1 < m2 < |gs| && i in gs[m1] ensures i !in gs[m2] {
      if i in gs[m2] {
        var k1 := KeyOf(rows[gs[m1][0]]);
        var k2 := KeyOf(rows[gs[m2][0]]);
        PositionsSpec(rows, k1);
        PositionsSpec(rows, k2);
        assert k1 == KeyOf(rows[i]) == k2;
        GroupsOfDistinct(rows, Dedup(Keys(rows)), m1, m2);
      }
    }
  }

  /** Distinct keys give distinct groups. */
  lemma {:induction false} GroupsOfDistinct(rows: seq<Row>, ks: seq<Key>, m1: nat, m2: nat)
    requires Distinct(ks) && m1 < m2 < |GroupsOf(rows, ks)|
    ensures GroupsOf(rows, ks)[m1] != GroupsOf(rows, ks)[m2]
    decreases |ks|
  {
    var gs := GroupsOf(rows, ks);
    var rest := ks[1..];
    var tail := GroupsOf(rows, rest);
    var ps := Positions(rows, ks[0]);
    assert Distinct(rest) by {
      forall a, b | 0 <= a < b < |rest| ensures rest[a] != rest[b] {
        assert rest[a] == ks[a + 1] && rest[b] == ks[b + 1];
      }
    }
    if |ps| > 1 {
      assert gs == [ps] + tail;
      if m1 == 0 {
        GroupsOfSpec(rows, rest);
        var g := tail[m2 - 1];
        PositionsSpec(rows, KeyOf(rows[g[0]]));
        PositionsSpec(rows, ks[0]);
        GroupsOfKeys(rows, rest, m2 - 1);
        assert KeyOf(rows[g[0]]) in rest;
        assert ks[0] !in rest;
      } else {
        GroupsOfDistinct(rows, rest, m1 - 1, m2 - 1);
      }
    } else {
      assert gs == tail;
      GroupsOfDistinct(rows, rest, m1, m2);
    }
  }

  /** Every group's key is one of the keys it was built from. */
  lemma {:induction false} GroupsOfKeys(rows: seq<Row>, ks: seq<Key>, m: nat)
    requires m < |GroupsOf(rows, ks)|
    ensures |GroupsOf(rows, ks)[m]| > 0 && GroupsOf(rows, ks)[m][0] < |rows| && KeyOf(rows[GroupsOf(rows, ks)[m][0]]) in ks
    decreases |ks|
  {
    var rest := ks[1..];
    var ps := Positions(rows, ks[0]);
    var gs := GroupsOf(rows, ks);
    GroupsOfSpec(rows, ks);
    if |ps| > 1 && m == 0 {
      PositionsSpec(rows, ks[0]);
    } else {
      var m' := if |ps| > 1 then m - 1 else m;
      assert gs[m] == GroupsOf(rows, rest)[m'];
      GroupsOfKeys(rows, rest, m');
    }
  }

  /** What duplicated_names promises: every group has more than one
      member, all sharing one key, in row order; a group holds every row
      with its key; every row whose key some other row shares is in exactly
      one group; and nothing else is. */
  lemma DuplicatedNamesSpec(rows: seq<Row>)
    ensures var gs := DuplicatedNames(rows);
      && (forall m :: 0 <= m < |gs| ==>
            && |gs[m]| > 1 && Increasing(gs[m])
            && forall p :: 0 <= p < |gs[m]| ==> gs[m][p] < |rows| && KeyOf(rows[gs[m][p]]) == KeyOf(rows[gs[m][0]]))
      && (forall m, i :: 0 <= m < |gs| && 0 <= i < |rows| && KeyOf(rows[i]) == KeyOf(rows[gs[m][0]]) ==> i in gs[m])
      && (forall i :: 0 <= i < |rows| ==> ((exists m :: 0 <= m < |gs| && i in gs[m]) <==> Duplicated(rows, i)))
      && Disjoint(gs)
  {
    DuplicatedGroups(rows);
    DuplicatedGroupsWhole(rows);
    DuplicatedDisjoint(rows);
    forall i | 0 <= i < |rows| ensures
      var gs := DuplicatedNames(rows);
      (exists m :: 0 <= m < |gs| && i in gs[m]) <==> Duplicated(rows, i)
    {
      DuplicatedMembers(rows, i);
    }
  }

  /** duplicated_names is empty exactly when all keys differ. */
  lemma DuplicatedNamesEmpty(rows: seq<Row>)
    ensures DuplicatedNames(rows) == [] <==>
      forall i, j :: 0 <= i < j < |rows| ==> KeyOf(rows[i]) != KeyOf(rows[j])
  {
    DuplicatedNamesSpec(rows);
    var gs := DuplicatedNames(rows);
    if gs != [] {
      var a := gs[0][0];
      var b := gs[0][1];
      assert a < b && KeyOf(rows[a]) == KeyOf(rows[b]);
    }
    if exists i, j :: 0 <= i < j < |rows| && KeyOf(rows[i]) == KeyOf(rows[j]) {
      var i, j :| 0 <= i < j < |rows| && KeyOf(rows[i]) == KeyOf(rows[j]);
      DuplicatedMembers(rows, i);
      assert Duplicated(rows, i);
    }
  }

  // ---------------------------------------------------------------------
  // fix_duplicated_names

  /** The row with "_<n>" appended to its SampleID. */
  function Suffixed(r: Row, n: nat): Row {
    r.(sampleId := r.sampleId + "_" + PadInt(n, 0))
  }

  /** Every index of g is a row index of a sheet of n rows. */
  predicate ValidGroup(n: nat, g: seq<nat>) {
    forall p :: 0 <= p < |g| ==> g[p] < n
  }

  /** Renames the members of one group, the p-th getting "_<p+1>". */
  function ApplyGroup(rows: seq<Row>, g: seq<nat>, p: nat): (r: seq<Row>)
    requires ValidGroup(|rows|, g) && p <= |g|
    ensures |r| == |rows|
    decreases |g| - p
  {
    if p == |g| then rows
    else ApplyGroup(rows[g[p] := Suffixed(rows[g[p]], p + 1)], g, p + 1)
  }

  function ApplyGroups(rows: seq<Row>, gs: seq<seq<nat>>): (r: seq<Row>)
    requires forall m :: 0 <= m < |gs| ==> ValidGroup(|rows|, gs[m])
    ensures |r| == |rows|
    decreases |gs|
  {
    if |gs| == 0 then rows
    else
      var rows' := ApplyGroup(rows, gs[0], 0);
      assert forall m :: 1 <= m < |gs| ==> ValidGroup(|rows'|, gs[m]);
      ApplyGroups(rows', gs[1..])
  }

  lemma {:induction false} ApplyGroupSpec(rows: seq<Row>, g: seq<nat>, p: nat)
    requires ValidGroup(|rows|, g) && p <= |g| && Increasing(g)
    ensures var r := ApplyGroup(rows, g, p);
      && (forall q :: p <= q < |g| ==> r[g[q]] == Suffixed(rows[g[q]], q + 1))
      && (forall i :: 0 <= i < |rows| && i !in g[p..] ==> r[i] == rows[i])
    decreases |g| - p
  {
    if p < |g| {
      var rows' := rows[g[p] := Suffixed(rows[g[p]], p + 1)];
      ApplyGroupSpec(rows', g, p + 1);
      var r := ApplyGroup(rows, g, p);
      forall q | p < q < |g| ensures rows'[g[q]] == rows[g[q]] {
        assert g[p] < g[q];
      }
      forall i | 0 <= i < |rows| && i !in g[p..] ensures r[i] == rows[i] {
        assert i != g[p];
        assert i !in g[p + 1..];
      }
      assert g[p] !in g[p + 1..];
    }
  }

  /** Groups no two of which share a row. */
  predicate Disjoint(gs: seq<seq<nat>>) {
    forall m1, m2, i :: 0 <= m1 < m2 < |gs| && i in gs[m1] ==> i !in gs[m2]
  }

  lemma {:induction false} ApplyGroupsSpec(rows: seq<Row>, gs: seq<seq<nat>>)
    requires forall m :: 0 <= m < |gs| ==> ValidGroup(|rows|, gs[m]) && Increasing(gs[m])
    requires Disjoint(gs)
    decreases |gs|
    ensures var r := ApplyGroups(rows, gs);
      && (forall m, q :: 0 <= m < |gs| && 0 <= q < |gs[m]| ==> r[gs[m][q]] == Suffixed(rows[gs[m][q]], q + 1))
      && (forall i :: 0 <= i < |rows| && (forall m :: 0 <= m < |gs| ==> i !in gs[m]) ==> r[i] == rows[i])
  {
    if |gs| > 0 {
      var rows' := ApplyGroup(rows, gs[0], 0);
      ApplyGroupSpec(rows, gs[0], 0);
      assert gs[0][0..] == gs[0];
      var rest := gs[1..];
      assert forall m :: 0 <= m < |rest| ==> rest[m] == gs[m + 1];
      assert Disjoint(rest) by {
        forall m1, m2, i | 0 <= m1 < m2 < |rest| && i in rest[m1] ensures i !in rest[m2] {
          assert rest[m1] == gs[m1 + 1] && rest[m2] == gs[m2 + 1];
        }
      }
      ApplyGroupsSpec(rows', rest);
      var r := ApplyGroups(rows, gs);
      forall m, q | 0 <= m < |gs| && 0 <= q < |gs[m]| ensures r[gs[m][q]] == Suffixed(rows[gs[m][q]], q + 1) {
        if m > 0 {
          var i := gs[m][q];
          assert i in gs[m];
          assert i !in gs[0];
          assert rest[m - 1] == gs[m];
        }
      }
    }
  }

  /** fix_duplicated_names. */
  function FixDuplicatedNames(rows: seq<Row>): (r: seq<Row>)
    ensures |r| == |rows|
  {
    DuplicatedNamesSpec(rows);
    ApplyGroups(rows, DuplicatedNames(rows))
  }

  /** The number of earlier rows with the same key as row i. */
  function Rank(rows: seq<Row>, i: nat): nat
    requires i < |rows|
  {
    |Positions(rows[..i], KeyOf(rows[i]))|
  }

  /** Some other row has the same key as row i. */
  predicate Duplicated(rows: seq<Row>, i: nat)
    requires i < |rows|
  {
    exists j :: 0 <= j < |rows| && j != i && KeyOf(rows[j]) == KeyOf(rows[i])
  }

  /** Row i sits at position Rank in the positions of its key. */
  lemma RankPosition(rows: seq<Row>, i: nat)
    requires i < |rows|
    ensures var ps := Positions(rows, KeyOf(rows[i]));
      Rank(rows, i) < |ps| && ps[Rank(rows, i)] == i
  {
    var k := KeyOf(rows[i]);
    PositionsPrefix(rows, i + 1, k);
    assert rows[..i + 1][..i] == rows[..i];
  }

  /** An independent description of the repair: a row whose key another
      row shares gets "_<n>" appended to its SampleID, n being one more
      than the number of earlier rows with that key; every other row and
      every other field is left as it was. */
  lemma FixDuplicatedNamesSpec(rows: seq<Row>)
    ensures var r := FixDuplicatedNames(rows);
      forall i :: 0 <= i < |rows| ==>
        r[i] == if Duplicated(rows, i) then Suffixed(rows[i], Rank(rows, i) + 1) else rows[i]
  {
    var gs := DuplicatedNames(rows);
    DuplicatedGroups(rows);
    DuplicatedDisjoint(rows);
    ApplyGroupsSpec(rows, gs);
    forall i | 0 <= i < |rows|
      ensures FixDuplicatedNames(rows)[i] == if Duplicated(rows, i) then Suffixed(rows[i], Rank(rows, i) + 1) else rows[i]
    {
      DuplicatedMembers(rows, i);
      if Duplicated(rows, i) {
        var m :| 0 <= m < |gs| && i in gs[m];
        GroupRank(rows, m, i);
      }
    }
  }

  /** Within its group a row sits at position Rank. */
  lemma GroupRank(rows: seq<Row>, m: nat, i: nat)
    requires m < |DuplicatedNames(rows)| && i in DuplicatedNames(rows)[m]
    ensures i < |rows| && exists q :: 0 <= q < |DuplicatedNames(rows)[m]| && DuplicatedNames(rows)[m][q] == i && q == Rank(rows, i)
  {
    var g := DuplicatedNames(rows)[m];
    GroupsOfSpec(rows, Dedup(Keys(rows)));
    var q :| 0 <= q < |g| && g[q] == i;
    PositionsSpec(rows, KeyOf(rows[g[0]]));
    var k := KeyOf(rows[i]);
    assert g == Positions(rows, k);
    RankPosition(rows, i);
    PositionsSpec(rows, k);
    var rk := Rank(rows, i);
    assert g[q] == i && g[rk] == i;
  }

  // ---------------------------------------------------------------------
  // After the repair

  /** s ends in '_' followed by at least one digit. */
  predicate HasNumberSuffix(s: string) {
    exists k :: 0 <= k < |s| - 1 && s[k] == '_' && AllDigits(s[k + 1..])
  }

  lemma NumberSuffixOf(a: string, d: string)
    requires |d| >= 1 && AllDigits(d)
    ensures HasNumberSuffix(a + "_" + d)
  {
    var s := a + "_" + d;
    assert s[|a|] == '_' && s[|a| + 1..] == d;
  }

  /** The part of s after its last '_' (all of s when there is none). */
  function AfterLastUnderscore(s: string): string
  {
    if |s| == 0 || s[|s| - 1] == '_' then ""
    else AfterLastUnderscore(s[..|s| - 1]) + [s[|s| - 1]]
  }

  lemma {:induction false} AfterLastOf(a: string, d: string)
    requires AllDigits(d)
    ensures AfterLastUnderscore(a + "_" + d) == d
    decreases |d|
  {
    var s := a + "_" + d;
    if |d| > 0 {
      assert IsDigit(d[|d| - 1]);
      assert s[..|s| - 1] == a + "_" + d[..|d| - 1];
      AfterLastOf(a, d[..|d| - 1]);
      assert d == d[..|d| - 1] + [d[|d| - 1]];
    }
  }

  /** "_<digits>" can be taken off a string in only one way. */
  lemma NumberSuffixUnique(a: string, d1: string, b: string, d2: string)
    requires |d1| >= 1 && AllDigits(d1) && |d2| >= 1 && AllDigits(d2)
    ensures a + "_" + d1 == b + "_" + d2 ==> a == b && d1 == d2
  {
    var s := a + "_" + d1;
    var t := b + "_" + d2;
    AfterLastOf(a, d1);
    AfterLastOf(b, d2);
    if s == t {
      assert |a| == |b|;
      assert a == s[..|a|] && b == t[..|b|];
    }
  }

  /** Later rows with the same key have larger ranks. */
  lemma RankIncreases(rows: seq<Row>, i: nat, j: nat)
    requires i < j < |rows| && KeyOf(rows[i]) == KeyOf(rows[j])
    ensures Rank(rows, i) < Rank(rows, j)
  {
    var k := KeyOf(rows[i]);
    RankPosition(rows, i);
    RankPosition(rows, j);
    PositionsSpec(rows, k);
    var ps := Positions(rows, k);
    var ri := Rank(rows, i);
    var rj := Rank(rows, j);
    assert ps[ri] == i && ps[rj] == j;
  }

  lemma SuffixDigits(n: nat)
    requires n >= 1
    ensures PadInt(n, 0) == Digits(n)
  {
  }

  /** After the repair two rows never share a key, provided no SampleID
      already ended in "_<digits>" (which a suffix could collide with). */
  lemma FixedKeysDiffer(rows: seq<Row>, i: nat, j: nat)
    requires i < j < |rows|
    requires forall x :: 0 <= x < |rows| ==> !HasNumberSuffix(rows[x].sampleId)
    ensures KeyOf(FixDuplicatedNames(rows)[i]) != KeyOf(FixDuplicatedNames(rows)[j])
  {
    FixDuplicatedNamesSpec(rows);
    var r := FixDuplicatedNames(rows);
    var a := rows[i].sampleId;
    var b := rows[j].sampleId;
    var di := Duplicated(rows, i);
    var dj := Duplicated(rows, j);
    var ni := Rank(rows, i) + 1;
    var nj := Rank(rows, j) + 1;
    SuffixDigits(ni);
    SuffixDigits(nj);
    if di && dj {
      NumberSuffixUnique(a, Digits(ni), b, Digits(nj));
      if a == b && KeyOf(rows[i]) == KeyOf(rows[j]) {
        RankIncreases(rows, i, j);
        assert Value(Digits(ni)) != Value(Digits(nj));
      }
    } else if di {
      NumberSuffixOf(a, Digits(ni));
      assert r[i].sampleId == a + "_" + Digits(ni);
      assert r[j].sampleId == b;
    } else if dj {
      NumberSuffixOf(b, Digits(nj));
      assert r[j].sampleId == b + "_" + Digits(nj);
      assert r[i].sampleId == a;
    } else {
      assert r[i] == rows[i] && r[j] == rows[j];
    }
  }

  /** fix_duplicated_names leaves nothing for duplicated_names to report,
      unless a SampleID already ended in "_<digits>". */
  lemma FixRemovesDuplicates(rows: seq<Row>)
    requires forall x :: 0 <= x < |rows| ==> !HasNumberSuffix(rows[x].sampleId)
    ensures DuplicatedNames(FixDuplicatedNames(rows)) == []
  {
    var r := FixDuplicatedNames(rows);
    forall i, j | 0 <= i < j < |r| ensures KeyOf(r[i]) != KeyOf(r[j]) {
      FixedKeysDiffer(rows, i, j);
    }
    DuplicatedNamesEmpty(r);
  }
}
