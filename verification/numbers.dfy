/** Decimal integers as Python 2 reads and writes them: int(s) and the
    "%d" / "%03d" format conversions. */
module Numbers {
  import opened Wrappers
  import opened Text

  predicate IsDigit(c: char) {
    '0' <= c <= '9'
  }

  predicate AllDigits(s: string) {
    forall i :: 0 <= i < |s| ==> IsDigit(s[i])
  }

  function DigitValue(c: char): nat
    requires IsDigit(c)
  {
    (c as int) - ('0' as int)
  }

  function DigitChar(d: nat): (c: char)
    requires d < 10
    ensures IsDigit(c) && DigitValue(c) == d
  {
    (('0' as int) + d) as char
  }

  /** The number a string of decimal digits denotes (leading zeros allowed). */
  function Value(s: string): nat
    requires AllDigits(s)
  {
    if |s| == 0 then 0 else Value(s[..|s| - 1]) * 10 + DigitValue(s[|s| - 1])
  }

  /** "%d" % n for n >= 0: the shortest decimal spelling of n. */
  function Digits(n: nat): (s: string)
    ensures |s| >= 1 && AllDigits(s)
    ensures Value(s) == n
    ensures |s| > 1 ==> s[0] != '0'
  {
    if n < 10 then [DigitChar(n)]
    else
      var p := Digits(n / 10);
      var s := p + [DigitChar(n % 10)];
      assert s[..|s| - 1] == p;
      s
  }

  function Zeros(k: nat): (z: string)
    ensures |z| == k && AllDigits(z)
    ensures forall i :: 0 <= i < k ==> z[i] == '0'
  {
    if k == 0 then "" else "0" + Zeros(k - 1)
  }

  /** Left-pads s with '0' up to width w. */
  function ZeroPad(s: string, w: nat): string
  {
    if |s| >= w then s else Zeros(w - |s|) + s
  }

  /** "%0<w>d" % n: zero padded to w characters, the sign counting
      towards the width ("%03d" % -5 == "-05"); w == 0 is plain "%d". */
  function PadInt(n: int, w: nat): string
  {
    if n < 0 then "-" + ZeroPad(Digits(-n), if w > 0 then w - 1 else 0)
    else ZeroPad(Digits(n), w)
  }

  /** Python 2 int(s) on a str: surrounding whitespace is ignored, then an
      optional sign, whitespace again (int("- 1") == -1), and at least one
      decimal digit; anything else is a ValueError, here None. */
  function ParseInt(s: string): Option<int>
  {
    var t := Trim(s, Whitespace);
    var signed := |t| > 0 && (t[0] == '-' || t[0] == '+');
    var body := if signed then TrimLeft(t[1..], Whitespace) else t;
    if |body| > 0 && AllDigits(body) then
      var v: int := Value(body);
      Some(if signed && t[0] == '-' then -v else v)
    else None
  }

  lemma {:induction false} ValueLeadingZeros(k: nat, d: string)
    requires AllDigits(d)
    ensures AllDigits(Zeros(k) + d) && Value(Zeros(k) + d) == Value(d)
    decreases |d|, k
  {
    var z := Zeros(k);
    assert AllDigits(z + d);
    if |d| == 0 {
      assert z + d == z;
      if k > 0 {
        assert z[..k - 1] == Zeros(k - 1) + d;
        ValueLeadingZeros(k - 1, d);
      }
    } else {
      var d' := d[..|d| - 1];
      assert (z + d)[..|z + d| - 1] == z + d';
      ValueLeadingZeros(k, d');
    }
  }

  lemma {:induction false} ValueZeroPad(s: string, w: nat)
    requires AllDigits(s)
    ensures AllDigits(ZeroPad(s, w)) && Value(ZeroPad(s, w)) == Value(s)
  {
    if |s| < w {
      ValueLeadingZeros(w - |s|, s);
    }
  }

  lemma {:induction false} ParseDigits(d: string)
    requires |d| >= 1 && AllDigits(d)
    ensures ParseInt(d) == Some(Value(d))
  {
    assert IsDigit(d[0]) && IsDigit(d[|d| - 1]);
    TrimOfTrimmed(d, Whitespace);
  }

  lemma {:induction false} ParseNegative(d: string)
    requires |d| >= 1 && AllDigits(d)
    ensures ParseInt("-" + d) == Some(0 - Value(d) as int)
  {
    var s := "-" + d;
    assert s[0] == '-' && s[|s| - 1] == d[|d| - 1];
    assert IsDigit(d[|d| - 1]);
    TrimOfTrimmed(s, Whitespace);
    assert s[1..] == d;
    assert d[0] !in Whitespace by { assert IsDigit(d[0]); }
  }

  /** A sign may be separated from its digits by whitespace. */
  lemma SpaceAfterSign()
    ensures ParseInt("- 1") == Some(-1)
  {
    assert Trim("- 1", Whitespace) == "- 1" by { TrimOfTrimmed("- 1", Whitespace); }
    assert TrimLeft(" 1", Whitespace) == "1";
    assert Value("1") == 1 by { assert "1"[..0] == ""; }
  }

  /** Whitespace around and after the sign is all skipped. */
  lemma TabAfterSign()
    ensures ParseInt(" +\t7 ") == Some(7)
  {
    assert TrimLeft(" +\t7 ", Whitespace) == "+\t7 ";
    assert TrimRight("+\t7 ", Whitespace) == "+\t7";
    assert TrimLeft("\t7", Whitespace) == "7";
    assert Value("7") == 7 by { assert "7"[..0] == ""; }
  }

  /** A sign without digits, or digits split by a space, is a ValueError. */
  lemma SignAloneRefused()
    ensures ParseInt("- ") == None && ParseInt("+") == None
    ensures ParseInt("1 2") == None
  {
    assert Trim("- ", Whitespace) == "-";
    assert TrimLeft("", Whitespace) == "";
    assert Trim("+", Whitespace) == "+" by { TrimOfTrimmed("+", Whitespace); }
    assert Trim("1 2", Whitespace) == "1 2" by { TrimOfTrimmed("1 2", Whitespace); }
    assert !IsDigit("1 2"[1]);
  }

  /** int() reads back every "%0<w>d" rendering. */
  lemma {:induction false} ParsePadInt(n: int, w: nat)
    ensures ParseInt(PadInt(n, w)) == Some(n)
  {
    if n < 0 {
      var w' := if w > 0 then w - 1 else 0;
      ValueZeroPad(Digits(-n), w');
      ParseNegative(ZeroPad(Digits(-n), w'));
    } else {
      ValueZeroPad(Digits(n), w);
      ParseDigits(ZeroPad(Digits(n), w));
    }
  }

  lemma {:induction false} ValuePositive(d: string)
    requires |d| >= 1 && AllDigits(d) && d[0] != '0'
    ensures Value(d) >= 1
    decreases |d|
  {
    if |d| > 1 {
      ValuePositive(d[..|d| - 1]);
    }
  }

  /** A digit string without superfluous leading zeros is the "%d" spelling
      of its value. */
  lemma {:induction false} DigitsOfValue(d: string)
    requires |d| >= 1 && AllDigits(d)
    requires |d| > 1 ==> d[0] != '0'
    ensures Digits(Value(d)) == d
    decreases |d|
  {
    if |d| > 1 {
      var p := d[..|d| - 1];
      var x := DigitValue(d[|d| - 1]);
      ValuePositive(p);
      DigitsOfValue(p);
      var v := Value(d);
      assert v == Value(p) * 10 + x;
      assert v / 10 == Value(p) && v % 10 == x;
      assert d == p + [d[|d| - 1]];
    }
  }

  /** Zero padding to the original width restores any digit string from its
      value: "%03d" % int("007") == "007". */
  lemma {:induction false} PadValue(d: string)
    requires |d| >= 1 && AllDigits(d)
    ensures ZeroPad(Digits(Value(d)), |d|) == d
    decreases |d|
  {
    if |d| == 1 || d[0] != '0' {
      DigitsOfValue(d);
    } else {
      var t := d[1..];
      assert d == Zeros(1) + t;
      ValueLeadingZeros(1, t);
      PadValue(t);
      var g := Digits(Value(t));
      assert Zeros(|d| - |g|) == "0" + Zeros(|t| - |g|);
    }
  }
}
