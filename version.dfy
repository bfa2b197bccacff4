/**
 The generic comparator `gstr.CompareVersion`: an optional leading `v` is
 dropped, the rest is split on `.`, and the segment lists are compared left to
 right. The result is 1 when `a` is the greater version, -1 when `b` is, and 0
 when they are equal.
 */
module Version {
  import opened Text
  import opened Segments

  /** Drops one leading lower-case `v`, if there is one. */
  function StripV(s: string): (r: string)
    ensures s == r || s == "v" + r
    ensures |s| > 0 && s[0] == 'v' ==> |r| == |s| - 1
  {
    if |s| > 0 && s[0] == 'v' then s[1..] else s
  }

  /** Stripping only removes characters, so any character absent from the
      input is absent from the result. */
  lemma StripVKeepsAbsent(s: string, c: char)
    requires c !in s
    ensures c !in StripV(s)
  {
    if |s| > 0 && s[0] == 'v' {
      forall k | 0 <= k < |s| - 1 ensures StripV(s)[k] != c {
        assert StripV(s)[k] == s[k + 1];
      }
    }
  }

  /** Stripping `a + b` strips `a`, unless `a` is empty and the `v` is `b`'s. */
  lemma StripVPrefix(a: string, b: string)
    requires a != [] || b == [] || b[0] != 'v'
    ensures StripV(a + b) == StripV(a) + b
  {
    if a != [] && a[0] == 'v' {
      assert (a + b)[1..] == a[1..] + b;
    } else if a == [] {
      assert a + b == b;
    }
  }

  /** A `v` can only be stripped from the front of the first part. */
  lemma StripVBeforeSeparator(c: string, sep: char, rest: string)
    requires sep != 'v'
    ensures StripV(c + [sep] + rest) == StripV(c) + [sep] + rest
  {
    assert c + [sep] + rest == c + ([sep] + rest);
    StripVPrefix(c, [sep] + rest);
    assert StripV(c) + ([sep] + rest) == StripV(c) + [sep] + rest;
  }

  function CompareVersion(a: string, b: string): (r: int)
    ensures r in {-1, 0, 1}
  {
    CompareSegments(Tokens(StripV(a)), Tokens(StripV(b)))
  }

  /** Every version equals itself. */
  lemma CompareVersionReflexive(a: string)
    ensures CompareVersion(a, a) == 0
  {
    SegmentsReflexive(Tokens(StripV(a)));
  }

  /** Swapping the arguments negates the result. */
  lemma CompareVersionAntisymmetric(a: string, b: string)
    ensures CompareVersion(a, b) == -CompareVersion(b, a)
  {
    SegmentsAntisymmetric(Tokens(StripV(a)), Tokens(StripV(b)));
  }

  lemma CompareVersionTransitive(a: string, b: string, c: string)
    requires CompareVersion(a, b) <= 0 && CompareVersion(b, c) <= 0
    ensures CompareVersion(a, c) <= 0
  {
    SegmentsTransitive(Tokens(StripV(a)), Tokens(StripV(b)), Tokens(StripV(c)));
  }

  /** The leading `v` is cosmetic: adding it to a version that has none does
      not change how it compares with anything. */
  lemma LeadingVIsCosmetic(x: string, y: string)
    requires x == [] || x[0] != 'v'
    ensures CompareVersion("v" + x, y) == CompareVersion(x, y)
    ensures CompareVersion(y, "v" + x) == CompareVersion(y, x)
  {
    assert ("v" + x)[1..] == x;
  }

  /** The result is decided at the first segment where the two versions
      differ; segments are read as numbers where they are digits. */
  lemma FirstDifferentSegmentDecides(a: string, b: string, k: nat)
    requires forall i: nat :: i < k ==> At(Tokens(StripV(a)), i) == At(Tokens(StripV(b)), i)
    requires At(Tokens(StripV(a)), k) != At(Tokens(StripV(b)), k)
    ensures CompareVersion(a, b) == CompareSegment(At(Tokens(StripV(a)), k), At(Tokens(StripV(b)), k))
  {
    FirstDifferenceDecides(Tokens(StripV(a)), Tokens(StripV(b)), k);
  }

  /** Two versions compare equal exactly when their segments agree everywhere,
      a missing trailing segment counting as `0`. */
  lemma CompareVersionEqualIff(a: string, b: string)
    ensures CompareVersion(a, b) == 0 <==> forall i: nat :: At(Tokens(StripV(a)), i) == At(Tokens(StripV(b)), i)
  {
    SegmentsEqualIff(Tokens(StripV(a)), Tokens(StripV(b)));
  }

  /** A version `p` followed by nothing or by `.` and more has the segment of
      `p` first and the segments of the rest after it. */
  lemma LeadingPiece(p: string, x: string)
    requires '.' !in p
    requires x == [] || x[0] == '.'
    ensures Tokens(StripV(p + x)) == [ToSegment(StripV(p))] + (if x == [] then [] else Tokens(x[1..]))
  {
    StripVPrefix(p, x);
    StripVKeepsAbsent(p, '.');
    var sp := StripV(p);
    if x == [] {
      assert p + x == p && sp + x == sp;
      SplitNoSeparator(sp, '.');
    } else {
      assert x == [x[0]] + x[1..];
      assert sp + x == sp + ['.'] + x[1..];
      SplitAfterPiece(sp, '.', x[1..]);
      assert ToSegments([sp] + Split(x[1..], '.')) == [ToSegment(sp)] + Tokens(x[1..]);
    }
  }

  /** Differing first segments decide the comparison, whatever follows. */
  lemma FirstSegmentDecides(p: string, x: string, q: string, y: string)
    requires '.' !in p && '.' !in q
    requires x == [] || x[0] == '.'
    requires y == [] || y[0] == '.'
    requires ToSegment(StripV(p)) != ToSegment(StripV(q))
    ensures CompareVersion(p + x, q + y) == CompareSegment(ToSegment(StripV(p)), ToSegment(StripV(q)))
  {
    LeadingPiece(p, x);
    LeadingPiece(q, y);
  }

  /** The segments of `p.x`, where `p` is a single piece, are the segment of
      `p` followed by those of `x`. */
  lemma TokensOfDotted(p: string, x: string)
    requires '.' !in p
    ensures Tokens(StripV(p + "." + x)) == [ToSegment(StripV(p))] + Tokens(x)
  {
    var dx := "." + x;
    assert p + "." + x == p + dx;
    assert dx != [] && dx[0] == '.' && dx[1..] == x;
    LeadingPiece(p, dx);
  }

  /** A tie in the leading segment falls through to the segments after it. */
  lemma TieFallsThrough(p: string, x: string, y: string)
    requires '.' !in p
    requires x == [] || x[0] != 'v'
    requires y == [] || y[0] != 'v'
    ensures CompareVersion(p + "." + x, p + "." + y) == CompareVersion(x, y)
  {
    TokensOfDotted(p, x);
    TokensOfDotted(p, y);
    assert StripV(x) == x && StripV(y) == y;
    SharedPrefixSkipped([ToSegment(StripV(p))], Tokens(x), Tokens(y));
  }
}
