/** Generic facts about sequences: distinctness and first-occurrence
    de-duplication, as used by the duplicate and uniqueness checks, and
    the elements at a list of positions, as used by the filters. */
module Seqs {

  /** No element occurs twice. */
  predicate Distinct<T(==)>(s: seq<T>) {
    forall i, j :: 0 <= i < j < |s| ==> s[i] != s[j]
  }

  /** The elements of s in order of first occurrence, each once. */
  function Dedup<T(==)>(s: seq<T>): seq<T>
  {
    if |s| == 0 then []
    else
      var d := Dedup(s[..|s| - 1]);
      if s[|s| - 1] in d then d else d + [s[|s| - 1]]
  }

  lemma {:induction false} DedupMembers<T>(s: seq<T>)
    ensures forall x :: x in Dedup(s) <==> x in s
    ensures |Dedup(s)| <= |s|
  {
    if |s| > 0 {
      var p := s[..|s| - 1];
      DedupMembers(p);
      assert s == p + [s[|s| - 1]];
    }
  }

  lemma {:induction false} DedupDistinct<T>(s: seq<T>)
    ensures Distinct(Dedup(s))
  {
    if |s| > 0 {
      DedupDistinct(s[..|s| - 1]);
    }
  }

  /** De-duplication loses nothing exactly when there was nothing to lose. */
  lemma {:induction false} DedupLength<T>(s: seq<T>)
    ensures |Dedup(s)| == |s| <==> Distinct(s)
  {
    if |s| > 0 {
      var p := s[..|s| - 1];
      var x := s[|s| - 1];
      DedupLength(p);
      DedupMembers(p);
      if Distinct(s) {
        assert Distinct(p) by {
          forall i, j | 0 <= i < j < |p| ensures p[i] != p[j] {
            assert p[i] == s[i] && p[j] == s[j];
          }
        }
        assert x !in p by {
          forall i | 0 <= i < |p| ensures p[i] != x {
            assert p[i] == s[i];
          }
        }
      } else {
        var i, j :| 0 <= i < j < |s| && s[i] == s[j];
        if j == |s| - 1 {
          assert x in p by {
            assert p[i] == s[i];
          }
        } else {
          assert p[i] == p[j];
          assert !Distinct(p);
        }
      }
    }
  }

  /** A distinct sequence extended by a fresh element stays distinct. */
  lemma {:induction false} DistinctAppend<T>(s: seq<T>, x: T)
    requires Distinct(s) && x !in s
    ensures Distinct(s + [x])
  {
    var t := s + [x];
    forall i, j | 0 <= i < j < |t| ensures t[i] != t[j] {
      if j < |s| {
        assert t[i] == s[i] && t[j] == s[j];
      } else {
        assert t[i] == s[i];
      }
    }
  }

  // ---------------------------------------------------------------------
  // Filters as lists of positions

  /** Positions listed in strictly increasing order. */
  predicate Increasing(idx: seq<nat>) {
    forall a, b :: 0 <= a < b < |idx| ==> idx[a] < idx[b]
  }

  /** idx lists, in increasing order, some of the positions below n. */
  predicate IncreasingBelow(idx: seq<nat>, n: nat) {
    Increasing(idx) && forall a :: 0 <= a < |idx| ==> idx[a] < n
  }

  /** Distinct positions below n number at most n. */
  lemma {:induction false} IncreasingBelowLength(idx: seq<nat>, n: nat)
    requires IncreasingBelow(idx, n)
    ensures |idx| <= n
    decreases |idx|
  {
    if |idx| > 0 {
      var last := idx[|idx| - 1];
      var front := idx[..|idx| - 1];
      forall a | 0 <= a < |front| ensures front[a] < last {
        assert front[a] == idx[a];
      }
      IncreasingBelowLength(front, last);
    }
  }

  /** The elements of s at the positions idx, in that order. */
  function Pick<T>(s: seq<T>, idx: seq<nat>): (r: seq<T>)
    requires forall a :: 0 <= a < |idx| ==> idx[a] < |s|
    ensures |r| == |idx| && forall a :: 0 <= a < |idx| ==> r[a] == s[idx[a]]
  {
    seq(|idx|, a requires 0 <= a < |idx| => s[idx[a]])
  }

  /** An increasing list holds position 0 only at its head. */
  lemma ZeroFirst(idx: seq<nat>)
    requires Increasing(idx)
    ensures 0 in idx <==> |idx| > 0 && idx[0] == 0
  {
    if 0 in idx {
      var a :| 0 <= a < |idx| && idx[a] == 0;
      assert idx[0] <= idx[a];
    }
  }

  /** The positions of idx other than 0, each moved down by one: the same
      filter applied to the sequence without its first element. */
  function Later(idx: seq<nat>, n: nat): (r: seq<nat>)
    requires IncreasingBelow(idx, n + 1)
    ensures IncreasingBelow(r, n)
    ensures var rest := if |idx| > 0 && idx[0] == 0 then idx[1..] else idx;
      |r| == |rest| && forall a :: 0 <= a < |r| ==> r[a] + 1 == rest[a]
  {
    var rest := if |idx| > 0 && idx[0] == 0 then idx[1..] else idx;
    assert forall a :: 0 <= a < |rest| ==> rest[a] >= 1 by {
      forall a | 0 <= a < |rest| ensures rest[a] >= 1 {
        if |idx| > 0 && idx[0] == 0 {
          assert rest[a] == idx[a + 1] && idx[0] < idx[a + 1];
        } else {
          assert a > 0 ==> idx[0] < idx[a];
        }
      }
    }
    seq(|rest|, a requires 0 <= a < |rest| => rest[a] - 1)
  }

  lemma LaterFrom(idx: seq<nat>, n: nat, k: nat)
    requires IncreasingBelow(idx, n + 1) && k in Later(idx, n)
    ensures k + 1 in idx
  {
    var r := Later(idx, n);
    var a :| 0 <= a < |r| && r[a] == k;
    if |idx| > 0 && idx[0] == 0 {
      assert idx[1..][a] == k + 1;
    } else {
      assert idx[a] == k + 1;
    }
  }

  lemma LaterTo(idx: seq<nat>, n: nat, k: nat)
    requires IncreasingBelow(idx, n + 1) && k < n && k + 1 in idx
    ensures k in Later(idx, n)
  {
    var r := Later(idx, n);
    var a :| 0 <= a < |idx| && idx[a] == k + 1;
    if |idx| > 0 && idx[0] == 0 {
      assert a != 0;
      assert idx[1..][a - 1] == idx[a];
      assert r[a - 1] == k;
    } else {
      assert r[a] == k;
    }
  }

  lemma LaterMembers(idx: seq<nat>, n: nat)
    requires IncreasingBelow(idx, n + 1)
    ensures forall k :: 0 <= k < n ==> (k in Later(idx, n) <==> k + 1 in idx)
  {
    forall k | 0 <= k < n ensures k in Later(idx, n) <==> k + 1 in idx {
      if k in Later(idx, n) {
        LaterFrom(idx, n, k);
      }
      if k + 1 in idx {
        LaterTo(idx, n, k);
      }
    }
  }

  /** Picking from a non-empty sequence: its first element if position 0
      is picked, then the picks from the rest. */
  lemma PickLater<T>(s: seq<T>, idx: seq<nat>)
    requires |s| > 0 && IncreasingBelow(idx, |s|)
    ensures Pick(s, idx) == (if |idx| > 0 && idx[0] == 0 then [s[0]] else []) + Pick(s[1..], Later(idx, |s| - 1))
  {
    var r := Later(idx, |s| - 1);
    var head: seq<T> := if |idx| > 0 && idx[0] == 0 then [s[0]] else [];
    var lhs := Pick(s, idx);
    var rhs := head + Pick(s[1..], r);
    assert |lhs| == |rhs|;
    forall a | 0 <= a < |lhs| ensures lhs[a] == rhs[a] {
      if |head| == 1 {
        if a > 0 {
          assert r[a - 1] + 1 == idx[a];
        }
      } else {
        assert r[a] + 1 == idx[a];
      }
    }
  }

  /** Every filter on the positions below n has its list of positions. */
  lemma {:induction false} Enumeration(n: nat, p: nat -> bool) returns (idx: seq<nat>)
    ensures IncreasingBelow(idx, n)
    ensures forall k :: 0 <= k < n ==> (k in idx <==> p(k))
  {
    if n == 0 {
      idx := [];
    } else {
      var front := Enumeration(n - 1, p);
      idx := if p(n - 1) then front + [n - 1] else front;
      assert forall a :: 0 <= a < |front| ==> idx[a] == front[a];
    }
  }
}
