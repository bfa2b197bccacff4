/**
 String primitives that the version comparators are built from: splitting on a
 separator character (and its inverse, joining), cutting at the first
 occurrence of a character, recognising and reading decimal digit strings, and
 ordering two strings character by character.
 */
module Text {

  /** Splits `s` at every occurrence of `sep`, keeping empty pieces:
      "1..2" gives ["1", "", "2"] and "" gives [""]. */
  function Split(s: string, sep: char): (r: seq<string>)
    ensures |r| >= 1
    ensures forall i :: 0 <= i < |r| ==> sep !in r[i]
  {
    if s == [] then [[]]
    else
      var rest := Split(s[1..], sep);
      if s[0] == sep then [[]] + rest
      else [[s[0]] + rest[0]] + rest[1..]
  }

  /** How many times `c` occurs in `s`. */
  function Count(s: string, c: char): nat
  {
    if s == [] then 0 else (if s[0] == c then 1 else 0) + Count(s[1..], c)
  }

  /** Each separator starts one more piece. */
  lemma {:induction false} SplitCount(s: string, sep: char)
    ensures |Split(s, sep)| == Count(s, sep) + 1
  {
    if s != [] {
      SplitCount(s[1..], sep);
    }
  }

  /** Glues the pieces back together with `sep` between neighbours. */
  function Join(parts: seq<string>, sep: char): string
  {
    if |parts| == 0 then []
    else if |parts| == 1 then parts[0]
    else parts[0] + [sep] + Join(parts[1..], sep)
  }

  /** Joining what was split gives back the original string. */
  lemma {:induction false} JoinSplit(s: string, sep: char)
    ensures Join(Split(s, sep), sep) == s
  {
    if s != [] {
      var rest := Split(s[1..], sep);
      JoinSplit(s[1..], sep);
      if s[0] == sep {
        assert Split(s, sep) == [[]] + rest;
        if |rest| == 1 {
          assert Join([[]] + rest, sep) == [] + [sep] + rest[0];
        } else {
          assert ([[]] + rest)[1..] == rest;
        }
      } else {
        var r := [[s[0]] + rest[0]] + rest[1..];
        assert Split(s, sep) == r;
        if |rest| == 1 {
          assert Join(r, sep) == [s[0]] + rest[0];
        } else {
          assert r[1..] == rest[1..];
          assert Join(rest, sep) == rest[0] + [sep] + Join(rest[1..], sep);
        }
        assert s == [s[0]] + s[1..];
      }
    }
  }

  /** A string without the separator is a single piece. */
  lemma {:induction false} SplitNoSeparator(s: string, sep: char)
    requires sep !in s
    ensures Split(s, sep) == [s]
  {
    if s != [] {
      assert sep !in s[1..] by {
        forall k | 0 <= k < |s[1..]| ensures s[1..][k] != sep {
          assert s[1..][k] == s[k + 1];
        }
      }
      SplitNoSeparator(s[1..], sep);
      assert s == [s[0]] + s[1..];
    }
  }

  /** Splitting `a`, a separator and `b`, where `a` holds no separator,
      yields `a` followed by the pieces of `b`. */
  lemma {:induction false} SplitAfterPiece(a: string, sep: char, b: string)
    requires sep !in a
    ensures Split(a + [sep] + b, sep) == [a] + Split(b, sep)
  {
    var s := a + [sep] + b;
    if a == [] {
      assert s[1..] == b;
    } else {
      assert s[1..] == a[1..] + [sep] + b;
      assert sep !in a[1..] by {
        forall k | 0 <= k < |a[1..]| ensures a[1..][k] != sep {
          assert a[1..][k] == a[k + 1];
        }
      }
      SplitAfterPiece(a[1..], sep, b);
      assert a == [a[0]] + a[1..];
    }
  }

  /** Splitting what was joined gives back the pieces, when no piece holds the
      separator. */
  lemma {:induction false} SplitJoin(parts: seq<string>, sep: char)
    requires |parts| >= 1
    requires forall i :: 0 <= i < |parts| ==> sep !in parts[i]
    ensures Split(Join(parts, sep), sep) == parts
  {
    if |parts| == 1 {
      SplitNoSeparator(parts[0], sep);
    } else {
      SplitJoin(parts[1..], sep);
      SplitAfterPiece(parts[0], sep, Join(parts[1..], sep));
      assert parts == [parts[0]] + parts[1..];
    }
  }

  /** Cutting off the last piece cuts the string at its last separator: what
      is kept, a separator and the dropped piece make up the string again. */
  lemma {:induction false} JoinDropLast(parts: seq<string>, sep: char)
    requires |parts| >= 2
    ensures Join(parts[..|parts| - 1], sep) + [sep] + parts[|parts| - 1] == Join(parts, sep)
  {
    if |parts| > 2 {
      var init := parts[..|parts| - 1];
      JoinDropLast(parts[1..], sep);
      assert parts[1..][..|parts[1..]| - 1] == init[1..];
      assert init[0] == parts[0];
    }
  }

  /** The prefix of `s` before the first occurrence of `c` (all of `s` when
      `c` does not occur). */
  function TakeUntil(s: string, c: char): (r: string)
    ensures c !in r
    ensures r <= s
    ensures |r| < |s| ==> s[|r|] == c
  {
    if s == [] || s[0] == c then []
    else [s[0]] + TakeUntil(s[1..], c)
  }

  /** Cutting at the first `c` does not look past a prefix that is free of `c`. */
  lemma {:induction false} TakeUntilAfterPrefix(a: string, b: string, c: char)
    requires c !in a
    ensures TakeUntil(a + b, c) == a + TakeUntil(b, c)
  {
    if a == [] {
      assert a + b == b;
    } else {
      var s := a + b;
      var tail := a[1..];
      assert s[0] == a[0] && a[0] != c;
      assert s[1..] == tail + b;
      assert c !in tail by {
        forall k | 0 <= k < |tail| ensures tail[k] != c {
          assert tail[k] == a[k + 1];
        }
      }
      TakeUntilAfterPrefix(tail, b, c);
      assert TakeUntil(s, c) == [a[0]] + (tail + TakeUntil(b, c));
      assert a == [a[0]] + tail;
    }
  }

  /** The cut at the first `c` never looks past an occurrence of `c`. */
  lemma {:induction false} TakeUntilStopsAt(a: string, c: char, b: string)
    ensures TakeUntil(a + [c] + b, c) == TakeUntil(a, c)
  {
    var s := a + [c] + b;
    if a == [] {
      assert s[0] == c;
    } else {
      var tail := a[1..];
      assert s[0] == a[0] && s[1..] == tail + [c] + b;
      if a[0] != c {
        TakeUntilStopsAt(tail, c, b);
      }
    }
  }

  predicate IsDigit(c: char)
  {
    '0' <= c <= '9'
  }

  /** One or more ASCII decimal digits and nothing else. */
  predicate IsDigits(s: string)
  {
    |s| > 0 && forall i :: 0 <= i < |s| ==> IsDigit(s[i])
  }

  function DigitValue(c: char): (d: nat)
    requires IsDigit(c)
    ensures d <= 9
  {
    (c as int) - ('0' as int)
  }

  /** The decimal value of a digit string, with no bound on its magnitude;
      it is zero exactly when every digit is `0`. */
  function ParseNat(s: string): (n: nat)
    requires forall i :: 0 <= i < |s| ==> IsDigit(s[i])
    ensures n == 0 <==> forall i :: 0 <= i < |s| ==> s[i] == '0'
  {
    if s == [] then 0
    else
      var init := s[..|s| - 1];
      assert forall i :: 0 <= i < |init| ==> init[i] == s[i];
      10 * ParseNat(init) + DigitValue(s[|s| - 1])
  }

  /** Leading zeros do not change the value: "01" reads as 1. */
  lemma {:induction false} ParseNatLeadingZero(s: string)
    requires forall i :: 0 <= i < |s| ==> IsDigit(s[i])
    ensures ParseNat("0" + s) == ParseNat(s)
  {
    var z := "0" + s;
    if s != [] {
      var init := s[..|s| - 1];
      assert z[..|z| - 1] == "0" + init;
      assert z[|z| - 1] == s[|s| - 1];
      ParseNatLeadingZero(init);
    } else {
      assert z[..|z| - 1] == [];
    }
  }

  /** Character-by-character ordering by code point; a proper prefix sorts
      first. */
  function LexCompare(s: string, t: string): (r: int)
    ensures r in {-1, 0, 1}
    ensures r == 0 <==> s == t
  {
    if s == [] && t == [] then 0
    else if s == [] then -1
    else if t == [] then 1
    else if s[0] < t[0] then -1
    else if t[0] < s[0] then 1
    else
      var r := LexCompare(s[1..], t[1..]);
      assert r == 0 ==> s == [s[0]] + s[1..] == [t[0]] + t[1..] == t;
      r
  }

  lemma {:induction false} LexAntisymmetric(s: string, t: string)
    ensures LexCompare(s, t) == -LexCompare(t, s)
  {
    if s != [] && t != [] && s[0] == t[0] {
      LexAntisymmetric(s[1..], t[1..]);
    }
  }

  lemma {:induction false} LexTransitive(s: string, t: string, u: string)
    requires LexCompare(s, t) <= 0 && LexCompare(t, u) <= 0
    ensures LexCompare(s, u) <= 0
  {
    if s != [] && t != [] && u != [] && s[0] == t[0] == u[0] {
      LexTransitive(s[1..], t[1..], u[1..]);
    }
  }

  /** A shared prefix does not affect the ordering. */
  lemma {:induction false} LexCommonPrefix(p: string, s: string, t: string)
    ensures LexCompare(p + s, p + t) == LexCompare(s, t)
  {
    if p == [] {
      assert p + s == s && p + t == t;
    } else {
      assert (p + s)[1..] == p[1..] + s && (p + t)[1..] == p[1..] + t;
      LexCommonPrefix(p[1..], s, t);
    }
  }

  /** Between distinct strings of one length, what follows does not matter. */
  lemma {:induction false} LexExtendEqualLength(a: string, b: string, x: string, y: string)
    requires |a| == |b| && a != b
    ensures LexCompare(a + x, b + y) == LexCompare(a, b)
  {
    assert (a + x)[0] == a[0] && (b + y)[0] == b[0];
    if a[0] == b[0] {
      assert a == [a[0]] + a[1..] && b == [b[0]] + b[1..];
      assert (a + x)[1..] == a[1..] + x && (b + y)[1..] == b[1..] + y;
      LexExtendEqualLength(a[1..], b[1..], x, y);
    }
  }

  /** Digit strings of one width, such as the fixed-width timestamps of
      pseudo-versions, are ordered by value exactly as they are ordered as
      text. */
  lemma {:induction false} ParseNatOrderEqualWidth(s: string, t: string)
    requires forall i :: 0 <= i < |s| ==> IsDigit(s[i])
    requires forall i :: 0 <= i < |t| ==> IsDigit(t[i])
    requires |s| == |t|
    ensures LexCompare(s, t) == (if ParseNat(s) < ParseNat(t) then -1 else if ParseNat(s) > ParseNat(t) then 1 else 0)
  {
    if s != [] {
      var a, b := s[..|s| - 1], t[..|t| - 1];
      var x, y := s[|s| - 1], t[|t| - 1];
      assert s == a + [x] && t == b + [y];
      ParseNatOrderEqualWidth(a, b);
      if a == b {
        LexCommonPrefix(a, [x], [y]);
      } else {
        LexExtendEqualLength(a, b, [x], [y]);
      }
    }
  }
}
