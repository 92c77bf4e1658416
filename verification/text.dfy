/** Python 2 string primitives used by the Illumina naming code:
    str.split / str.join on one separator character, str.strip with and
    without an explicit character set, str.replace of one character,
    str.index('.') truncation and os.path.basename. */
module Text {

  /** The characters Python 2's str.strip() and int() treat as whitespace. */
  const Whitespace: set<char> := {' ', '\t', '\n', '\r', '\U{000B}', '\U{000C}'}

  predicate StartsWith(s: string, prefix: string) {
    |prefix| <= |s| && s[..|prefix|] == prefix
  }

  predicate EndsWith(s: string, suffix: string) {
    |suffix| <= |s| && s[|s| - |suffix|..] == suffix
  }

  // ---------------------------------------------------------------------
  // strip

  /** Every character of s belongs to cs. */
  predicate AllIn(s: string, cs: set<char>) {
    forall i :: 0 <= i < |s| ==> s[i] in cs
  }

  /** s.lstrip(cs): drops the longest prefix made only of characters in cs. */
  function TrimLeft(s: string, cs: set<char>): string
    decreases |s|
  {
    if |s| > 0 && s[0] in cs then TrimLeft(s[1..], cs) else s
  }

  lemma {:induction false} TrimLeftSpec(s: string, cs: set<char>)
    ensures var r := TrimLeft(s, cs);
      && |r| <= |s| && r == s[|s| - |r|..]
      && AllIn(s[..|s| - |r|], cs)
      && (|r| > 0 ==> r[0] !in cs)
    decreases |s|
  {
    if |s| > 0 && s[0] in cs {
      TrimLeftSpec(s[1..], cs);
      var r := TrimLeft(s, cs);
      assert s[..|s| - |r|] == [s[0]] + s[1..][..|s| - 1 - |r|];
    }
  }

  /** s.rstrip(cs): drops the longest suffix made only of characters in cs. */
  function TrimRight(s: string, cs: set<char>): string
    decreases |s|
  {
    if |s| > 0 && s[|s| - 1] in cs then TrimRight(s[..|s| - 1], cs) else s
  }

  lemma {:induction false} TrimRightSpec(s: string, cs: set<char>)
    ensures var r := TrimRight(s, cs);
      && |r| <= |s| && r == s[..|r|]
      && AllIn(s[|r|..], cs)
      && (|r| > 0 ==> r[|r| - 1] !in cs)
    decreases |s|
  {
    if |s| > 0 && s[|s| - 1] in cs {
      var p := s[..|s| - 1];
      TrimRightSpec(p, cs);
      var r := TrimRight(s, cs);
      assert s[|r|..] == p[|r|..] + [s[|s| - 1]];
    }
  }

  /** s.strip(cs): both ends. */
  function Trim(s: string, cs: set<char>): (r: string)
    ensures |r| <= |s|
    ensures |r| > 0 ==> r[0] !in cs && r[|r| - 1] !in cs
  {
    var l := TrimLeft(s, cs);
    var r := TrimRight(l, cs);
    TrimLeftSpec(s, cs);
    TrimRightSpec(l, cs);
    r
  }

  /** Stripping only removes characters. */
  lemma {:induction false} TrimChars(s: string, cs: set<char>)
    ensures forall c :: c in Trim(s, cs) ==> c in s
  {
    var l := TrimLeft(s, cs);
    var r := TrimRight(l, cs);
    TrimLeftSpec(s, cs);
    TrimRightSpec(l, cs);
    assert forall c :: c in r ==> c in l;
    assert forall c :: c in l ==> c in s;
  }

  /** s.strip(cs) is the slice s[a:b] left after removing the characters
      of cs at both ends. */
  lemma {:induction false} TrimSlice(s: string, cs: set<char>) returns (a: nat, b: nat)
    ensures a <= b <= |s| && Trim(s, cs) == s[a..b]
    ensures AllIn(s[..a], cs) && AllIn(s[b..], cs)
  {
    var l := TrimLeft(s, cs);
    var r := TrimRight(l, cs);
    TrimLeftSpec(s, cs);
    TrimRightSpec(l, cs);
    a := |s| - |l|;
    b := a + |r|;
    assert s[a..b] == l[..|r|];
    assert s[b..] == l[|r|..];
  }

  lemma TrimOfTrimmed(s: string, cs: set<char>)
    requires |s| > 0 ==> s[0] !in cs && s[|s| - 1] !in cs
    ensures Trim(s, cs) == s
  {
  }

  lemma TrimIdempotent(s: string, cs: set<char>)
    ensures Trim(Trim(s, cs), cs) == Trim(s, cs)
  {
    TrimOfTrimmed(Trim(s, cs), cs);
  }

  /** A string made only of characters of cs strips to nothing. */
  lemma TrimAllIn(s: string, cs: set<char>)
    requires AllIn(s, cs)
    ensures TrimLeft(s, cs) == "" && Trim(s, cs) == ""
  {
  }

  lemma {:induction false} TrimLeftDropPrefix(s: string, a: nat, cs: set<char>)
    requires a <= |s|
    requires AllIn(s[..a], cs)
    ensures TrimLeft(s, cs) == TrimLeft(s[a..], cs)
    decreases a
  {
    if a > 0 {
      assert s[0] == s[..a][0];
      assert s[1..][..a - 1] == s[..a][1..];
      assert s[1..][a - 1..] == s[a..];
      TrimLeftDropPrefix(s[1..], a - 1, cs);
    }
  }

  lemma {:induction false} TrimRightDropSuffix(x: string, v: string, cs: set<char>)
    requires AllIn(v, cs)
    ensures TrimRight(x + v, cs) == TrimRight(x, cs)
    decreases |v|
  {
    if |v| > 0 {
      var w := v[..|v| - 1];
      assert (x + v)[..|x + v| - 1] == x + w;
      TrimRightDropSuffix(x, w, cs);
    } else {
      assert x + v == x;
    }
  }

  lemma {:induction false} TrimLeftAppend(x: string, v: string, cs: set<char>)
    requires AllIn(v, cs)
    ensures TrimLeft(x + v, cs) == if TrimLeft(x, cs) == "" then "" else TrimLeft(x, cs) + v
    decreases |x|
  {
    if |x| == 0 {
      assert x + v == v;
      TrimAllIn(v, cs);
    } else if x[0] in cs {
      assert (x + v)[1..] == x[1..] + v;
      TrimLeftAppend(x[1..], v, cs);
    } else {
      assert (x + v)[0] == x[0];
    }
  }

  /** Stripping is blind to extra characters of cs around the kept part:
      s.strip(cs) == s[a:b].strip(cs) when s[:a] and s[b:] are made of cs. */
  lemma {:induction false} TrimInner(s: string, a: nat, b: nat, cs: set<char>)
    requires a <= b <= |s|
    requires AllIn(s[..a], cs) && AllIn(s[b..], cs)
    ensures Trim(s[a..b], cs) == Trim(s, cs)
  {
    var m := s[a..b];
    var v := s[b..];
    TrimLeftDropPrefix(s, a, cs);
    assert s[a..] == m + v;
    TrimLeftAppend(m, v, cs);
    var l := TrimLeft(m, cs);
    if l != "" {
      TrimRightDropSuffix(l, v, cs);
    }
  }

  // ---------------------------------------------------------------------
  // replace

  /** s.replace(c, d) for single characters. */
  function ReplaceChar(s: string, c: char, d: char): (r: string)
    ensures |r| == |s|
    ensures forall i :: 0 <= i < |s| ==> r[i] == if s[i] == c then d else s[i]
  {
    if |s| == 0 then ""
    else [if s[0] == c then d else s[0]] + ReplaceChar(s[1..], c, d)
  }

  // ---------------------------------------------------------------------
  // split and join

  /** s.split(sep): always at least one piece; no piece holds sep. */
  function Split(s: string, sep: char): (parts: seq<string>)
    ensures |parts| >= 1
    ensures forall i :: 0 <= i < |parts| ==> sep !in parts[i]
    decreases |s|
  {
    if |s| == 0 then [""]
    else
      var rest := Split(s[1..], sep);
      if s[0] == sep then [""] + rest
      else [[s[0]] + rest[0]] + rest[1..]
  }

  /** sep.join(parts). */
  function Join(parts: seq<string>, sep: char): string
  {
    if |parts| == 0 then ""
    else if |parts| == 1 then parts[0]
    else parts[0] + [sep] + Join(parts[1..], sep)
  }

  /** Joining the pieces of a split gives back the original string. */
  lemma {:induction false} JoinSplit(s: string, sep: char)
    ensures Join(Split(s, sep), sep) == s
    decreases |s|
  {
    if |s| > 0 {
      var rest := Split(s[1..], sep);
      JoinSplit(s[1..], sep);
      if s[0] == sep {
        assert Split(s, sep) == [""] + rest;
        assert ([""] + rest)[1..] == rest;
      } else {
        var parts := Split(s, sep);
        assert parts == [[s[0]] + rest[0]] + rest[1..];
        if |rest| == 1 {
          assert parts == [[s[0]] + rest[0]];
        } else {
          assert parts[1..] == rest[1..];
          assert Join(rest, sep) == rest[0] + [sep] + Join(rest[1..], sep);
        }
      }
    }
  }

  /** Splitting a string with no separator gives it back as the only piece. */
  lemma {:induction false} SplitNoSep(s: string, sep: char)
    requires sep !in s
    ensures Split(s, sep) == [s]
    decreases |s|
  {
    if |s| > 0 {
      assert sep !in s[1..];
      SplitNoSep(s[1..], sep);
      assert [s[0]] + s[1..] == s;
    }
  }

  lemma {:induction false} SplitAfterPiece(p: string, sep: char, x: string)
    requires sep !in p
    ensures Split(p + [sep] + x, sep) == [p] + Split(x, sep)
    decreases |p|
  {
    if |p| == 0 {
      assert p + [sep] + x == [sep] + x;
      assert ([sep] + x)[1..] == x;
    } else {
      var s := p + [sep] + x;
      assert s[0] == p[0];
      assert s[1..] == p[1..] + [sep] + x;
      assert sep !in p[1..];
      SplitAfterPiece(p[1..], sep, x);
      assert [p[0]] + p[1..] == p;
    }
  }

  /** Splitting a join of separator-free pieces gives the pieces back. */
  lemma {:induction false} SplitJoin(parts: seq<string>, sep: char)
    requires |parts| >= 1
    requires forall i :: 0 <= i < |parts| ==> sep !in parts[i]
    ensures Split(Join(parts, sep), sep) == parts
    decreases |parts|
  {
    if |parts| == 1 {
      SplitNoSep(parts[0], sep);
    } else {
      SplitJoin(parts[1..], sep);
      SplitAfterPiece(parts[0], sep, Join(parts[1..], sep));
      assert [parts[0]] + parts[1..] == parts;
    }
  }

  /** Joining two non-empty piece lists puts one separator between them. */
  lemma {:induction false} JoinAppend(a: seq<string>, b: seq<string>, sep: char)
    requires |a| >= 1 && |b| >= 1
    ensures Join(a + b, sep) == Join(a, sep) + [sep] + Join(b, sep)
    decreases |a|
  {
    if |a| == 1 {
      assert (a + b)[1..] == b;
    } else {
      assert (a + b)[1..] == a[1..] + b;
      JoinAppend(a[1..], b, sep);
    }
  }

  /** A separator appears in a join only where it was put or inside a piece. */
  lemma {:induction false} JoinAvoids(parts: seq<string>, sep: char, c: char)
    requires c != sep
    requires forall i :: 0 <= i < |parts| ==> c !in parts[i]
    ensures c !in Join(parts, sep)
    decreases |parts|
  {
    if |parts| > 1 {
      JoinAvoids(parts[1..], sep, c);
    }
  }

  // ---------------------------------------------------------------------
  // paths

  /** os.path.basename: the part after the last '/'. */
  function Basename(path: string): (r: string)
    ensures '/' !in r
    ensures |r| <= |path| && r == path[|path| - |r|..]
    ensures |r| < |path| ==> path[|path| - |r| - 1] == '/'
    decreases |path|
  {
    if |path| == 0 then ""
    else if path[|path| - 1] == '/' then ""
    else Basename(path[..|path| - 1]) + [path[|path| - 1]]
  }

  /** s[:s.index(c)] when c occurs in s, otherwise s itself. */
  function BeforeFirst(s: string, c: char): (r: string)
    ensures c !in r
    ensures |r| <= |s| && r == s[..|r|]
    ensures |r| < |s| ==> s[|r|] == c
    decreases |s|
  {
    if |s| == 0 then ""
    else if s[0] == c then ""
    else [s[0]] + BeforeFirst(s[1..], c)
  }

  lemma {:induction false} BasenameAfterSlash(dir: string, name: string)
    requires '/' !in name
    ensures Basename(dir + "/" + name) == name
    decreases |name|
  {
    if |name| == 0 {
      assert dir + "/" + name == dir + "/";
    } else {
      var p := dir + "/" + name;
      assert p[..|p| - 1] == dir + "/" + name[..|name| - 1];
      assert '/' !in name[..|name| - 1];
      BasenameAfterSlash(dir, name[..|name| - 1]);
      assert name[..|name| - 1] + [name[|name| - 1]] == name;
    }
  }

  lemma BasenameNoSlash(name: string)
    requires '/' !in name
    ensures Basename(name) == name
  {
  }

  lemma {:induction false} BeforeFirstAfter(stem: string, c: char, rest: string)
    requires c !in stem
    ensures BeforeFirst(stem + [c] + rest, c) == stem
    decreases |stem|
  {
    if |stem| > 0 {
      assert (stem + [c] + rest)[1..] == stem[1..] + [c] + rest;
      assert c !in stem[1..];
      BeforeFirstAfter(stem[1..], c, rest);
      assert [stem[0]] + stem[1..] == stem;
    }
  }

  lemma BeforeFirstAbsent(s: string, c: char)
    requires c !in s
    ensures BeforeFirst(s, c) == s
  {
  }
}
