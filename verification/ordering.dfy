/** Python's ordering of str values and list.sort() on lists of them. */
module Ordering {

  /** a <= b: character by character, a proper prefix first. */
  predicate Below(a: string, b: string)
    decreases |a|
  {
    |a| == 0 || (|b| > 0 && (a[0] < b[0] || (a[0] == b[0] && Below(a[1..], b[1..]))))
  }

  lemma {:induction false} BelowTotal(a: string, b: string)
    ensures Below(a, b) || Below(b, a)
    decreases |a|
  {
    if |a| > 0 && |b| > 0 && a[0] == b[0] {
      BelowTotal(a[1..], b[1..]);
    }
  }

  lemma {:induction false} BelowAntisymmetric(a: string, b: string)
    requires Below(a, b) && Below(b, a)
    ensures a == b
    decreases |a|
  {
    if |a| > 0 {
      BelowAntisymmetric(a[1..], b[1..]);
      assert a == [a[0]] + a[1..] && b == [b[0]] + b[1..];
    }
  }

  lemma {:induction false} BelowTransitive(a: string, b: string, c: string)
    requires Below(a, b) && Below(b, c)
    ensures Below(a, c)
    decreases |a|
  {
    if |a| > 0 && a[0] == b[0] && b[0] == c[0] {
      BelowTransitive(a[1..], b[1..], c[1..]);
    }
  }

  /** In dictionary order. */
  predicate Sorted(s: seq<string>) {
    forall i, j :: 0 <= i < j < |s| ==> Below(s[i], s[j])
  }

  /** x placed before the first element it is Below. */
  function Insert(x: string, s: seq<string>): seq<string> {
    if |s| == 0 then [x]
    else if Below(x, s[0]) then [x] + s
    else [s[0]] + Insert(x, s[1..])
  }

  /** list.sort(): insertion sort, the last element inserted into the
      sorted rest. */
  function Sort(s: seq<string>): seq<string> {
    if |s| == 0 then []
    else Insert(s[|s| - 1], Sort(s[..|s| - 1]))
  }

  lemma SortedTail(s: seq<string>)
    requires Sorted(s) && |s| > 0
    ensures Sorted(s[1..])
  {
    var rest := s[1..];
    forall i, j | 0 <= i < j < |rest| ensures Below(rest[i], rest[j]) {
      assert rest[i] == s[i + 1] && rest[j] == s[j + 1];
    }
  }

  lemma SortedCons(x: string, s: seq<string>)
    requires Sorted(s)
    requires forall k :: 0 <= k < |s| ==> Below(x, s[k])
    ensures Sorted([x] + s)
  {
    var r := [x] + s;
    forall i, j | 0 <= i < j < |r| ensures Below(r[i], r[j]) {
      if i > 0 {
        assert r[i] == s[i - 1] && r[j] == s[j - 1];
      } else {
        assert r[j] == s[j - 1];
      }
    }
  }

  /** Inserting adds exactly x. */
  lemma {:induction false} InsertElements(x: string, s: seq<string>)
    ensures multiset(Insert(x, s)) == multiset(s) + multiset{x}
  {
    if |s| > 0 && !Below(x, s[0]) {
      InsertElements(x, s[1..]);
      assert s == [s[0]] + s[1..];
    }
  }

  /** Inserting into a sorted list keeps it sorted. */
  lemma {:induction false} InsertSorted(x: string, s: seq<string>)
    requires Sorted(s)
    ensures Sorted(Insert(x, s))
  {
    if |s| > 0 && !Below(x, s[0]) {
      var rest := s[1..];
      SortedTail(s);
      InsertSorted(x, rest);
      InsertElements(x, rest);
      var r := Insert(x, rest);
      BelowTotal(x, s[0]);
      forall k | 0 <= k < |r| ensures Below(s[0], r[k]) {
        assert r[k] in multiset(r);
        if r[k] != x {
          assert r[k] in multiset(rest);
          var j :| 0 <= j < |rest| && rest[j] == r[k];
          assert s[j + 1] == r[k];
        }
      }
      SortedCons(s[0], r);
    } else if |s| > 0 {
      forall j | 0 <= j < |s| ensures Below(x, s[j]) {
        if j > 0 {
          BelowTransitive(x, s[0], s[j]);
        }
      }
      SortedCons(x, s);
    } else {
      SortedCons(x, s);
    }
  }

  /** Inserting into a sorted list keeps it sorted and adds exactly x. */
  lemma InsertSpec(x: string, s: seq<string>)
    requires Sorted(s)
    ensures Sorted(Insert(x, s))
    ensures multiset(Insert(x, s)) == multiset(s) + multiset{x}
  {
    InsertSorted(x, s);
    InsertElements(x, s);
  }

  /** list.sort() gives a sorted permutation of its list. */
  lemma {:induction false} SortSpec(s: seq<string>)
    ensures Sorted(Sort(s))
    ensures multiset(Sort(s)) == multiset(s)
  {
    if |s| > 0 {
      var n := |s| - 1;
      SortSpec(s[..n]);
      InsertSpec(s[n], Sort(s[..n]));
      assert s == s[..n] + [s[n]];
    }
  }

  /** A sorted list is determined by its elements: two sorted lists with
      the same elements are equal. */
  lemma {:induction false} SortedUnique(a: seq<string>, b: seq<string>)
    requires Sorted(a) && Sorted(b)
    requires multiset(a) == multiset(b)
    ensures a == b
    decreases |a|
  {
    if |a| > 0 {
      assert |b| > 0 by {
        assert a[0] in multiset(b);
      }
      assert a[0] in multiset(b);
      var j :| 0 <= j < |b| && b[j] == a[0];
      assert b[0] in multiset(a);
      var i :| 0 <= i < |a| && a[i] == b[0];
      if i > 0 {
        assert Below(a[0], b[0]);
      }
      if j > 0 {
        assert Below(b[0], a[0]);
      }
      BelowTotal(a[0], b[0]);
      if a[0] != b[0] {
        BelowAntisymmetric(a[0], b[0]);
      }
      assert a[0] == b[0];
      var ta, tb := a[1..], b[1..];
      assert a == [a[0]] + ta && b == [b[0]] + tb;
      assert multiset(a) == multiset{a[0]} + multiset(ta);
      assert multiset(b) == multiset{b[0]} + multiset(tb);
      assert multiset(ta) == multiset(a) - multiset{a[0]};
      assert multiset(tb) == multiset(b) - multiset{b[0]};
      SortedTail(a);
      SortedTail(b);
      SortedUnique(ta, tb);
    }
  }

  /** Sorting depends only on the elements, not on their order. */
  lemma SortPermutation(a: seq<string>, b: seq<string>)
    requires multiset(a) == multiset(b)
    ensures Sort(a) == Sort(b)
  {
    SortSpec(a);
    SortSpec(b);
    SortedUnique(Sort(a), Sort(b));
  }

  /** Sorting a sorted list changes nothing. */
  lemma SortSorted(s: seq<string>)
    requires Sorted(s)
    ensures Sort(s) == s
  {
    SortSpec(s);
    SortedUnique(Sort(s), s);
  }
}
