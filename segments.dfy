/**
 Version segments and their ordering. A segment is one `.`-delimited piece of a
 version string: a digit-only piece is read as a number, anything else is kept
 as a word. A list of segments is compared left to right, the first difference
 winning; the shorter list is read as if padded with `0` segments.
 */
module Segments {
  import opened Text

  datatype Segment = Num(value: nat) | Word(text: string)

  /** Reads one piece: digits become a number, everything else a word. */
  function ToSegment(piece: string): (g: Segment)
    ensures g.Num? <==> IsDigits(piece)
    ensures g.Word? ==> g.text == piece
  {
    if IsDigits(piece) then Num(ParseNat(piece)) else Word(piece)
  }

  /** A single digit reads as its value. */
  lemma DigitSegment(d: char)
    requires IsDigit(d)
    ensures ToSegment([d]) == Num(DigitValue(d))
  {
    assert IsDigits([d]);
    assert [d][..0] == [];
    assert ParseNat([d]) == DigitValue(d);
  }

  function ToSegments(pieces: seq<string>): (gs: seq<Segment>)
    ensures |gs| == |pieces|
    ensures forall i :: 0 <= i < |pieces| ==> gs[i] == ToSegment(pieces[i])
  {
    if pieces == [] then [] else [ToSegment(pieces[0])] + ToSegments(pieces[1..])
  }

  /** The segments of a dotted string, in order. */
  function Tokens(s: string): (ts: seq<Segment>)
    ensures |ts| == Count(s, '.') + 1
  {
    SplitCount(s, '.');
    ToSegments(Split(s, '.'))
  }

  /** Numbers by value, words by character order; every number sorts before
      every word. */
  function CompareSegment(x: Segment, y: Segment): (r: int)
    ensures r in {-1, 0, 1}
    ensures r == 0 <==> x == y
    ensures x.Num? && y.Num? ==> (r < 0 <==> x.value < y.value)
    ensures x.Num? && y.Word? ==> r == -1
  {
    match (x, y)
    case (Num(m), Num(n)) => if m < n then -1 else if n < m then 1 else 0
    case (Num(_), Word(_)) => -1
    case (Word(_), Num(_)) => 1
    case (Word(s), Word(t)) => LexCompare(s, t)
  }

  lemma SegmentAntisymmetric(x: Segment, y: Segment)
    ensures CompareSegment(x, y) == -CompareSegment(y, x)
  {
    if x.Word? && y.Word? {
      LexAntisymmetric(x.text, y.text);
    }
  }

  lemma SegmentTransitive(x: Segment, y: Segment, z: Segment)
    requires CompareSegment(x, y) <= 0 && CompareSegment(y, z) <= 0
    ensures CompareSegment(x, z) <= 0
  {
    if x.Word? && y.Word? && z.Word? {
      LexTransitive(x.text, y.text, z.text);
    }
  }

  /** The segment at position `i`, or `0` past the end of the list. */
  function At(xs: seq<Segment>, i: nat): Segment
  {
    if i < |xs| then xs[i] else Num(0)
  }

  function Rest(xs: seq<Segment>): seq<Segment>
  {
    if xs == [] then [] else xs[1..]
  }

  lemma AtRest(xs: seq<Segment>, i: nat)
    ensures At(Rest(xs), i) == At(xs, i + 1)
  {
  }

  /** Lexicographic comparison of two segment lists, padding the shorter one
      with `0` segments. */
  function CompareSegments(xs: seq<Segment>, ys: seq<Segment>): (r: int)
    ensures r in {-1, 0, 1}
    decreases |xs| + |ys|
  {
    if xs == [] && ys == [] then 0
    else
      var c := CompareSegment(At(xs, 0), At(ys, 0));
      if c != 0 then c else CompareSegments(Rest(xs), Rest(ys))
  }

  /** Two lists are equal in this order exactly when they agree at every
      position once padded. */
  lemma {:induction false} SegmentsEqualIff(xs: seq<Segment>, ys: seq<Segment>)
    ensures CompareSegments(xs, ys) == 0 <==> forall i: nat :: At(xs, i) == At(ys, i)
    decreases |xs| + |ys|
  {
    if xs == [] && ys == [] {
    } else if At(xs, 0) != At(ys, 0) {
    } else {
      SegmentsEqualIff(Rest(xs), Rest(ys));
      if CompareSegments(xs, ys) == 0 {
        forall i: nat ensures At(xs, i) == At(ys, i) {
          if i > 0 {
            AtRest(xs, i - 1);
            AtRest(ys, i - 1);
          }
        }
      } else {
        var i: nat :| At(Rest(xs), i) != At(Rest(ys), i);
        AtRest(xs, i);
        AtRest(ys, i);
      }
    }
  }

  /** The first position where the padded lists differ decides the result. */
  lemma {:induction false} FirstDifferenceDecides(xs: seq<Segment>, ys: seq<Segment>, k: nat)
    requires forall i: nat :: i < k ==> At(xs, i) == At(ys, i)
    requires At(xs, k) != At(ys, k)
    ensures CompareSegments(xs, ys) == CompareSegment(At(xs, k), At(ys, k))
    decreases k
  {
    if k > 0 {
      assert At(xs, 0) == At(ys, 0);
      assert xs != [] || ys != [];
      forall i: nat | i < k - 1 ensures At(Rest(xs), i) == At(Rest(ys), i) {
        AtRest(xs, i);
        AtRest(ys, i);
      }
      AtRest(xs, k - 1);
      AtRest(ys, k - 1);
      FirstDifferenceDecides(Rest(xs), Rest(ys), k - 1);
    }
  }

  lemma {:induction false} SegmentsReflexive(xs: seq<Segment>)
    ensures CompareSegments(xs, xs) == 0
    decreases |xs|
  {
    if xs != [] {
      SegmentsReflexive(Rest(xs));
    }
  }

  lemma {:induction false} SegmentsAntisymmetric(xs: seq<Segment>, ys: seq<Segment>)
    ensures CompareSegments(xs, ys) == -CompareSegments(ys, xs)
    decreases |xs| + |ys|
  {
    if xs != [] || ys != [] {
      SegmentAntisymmetric(At(xs, 0), At(ys, 0));
      SegmentsAntisymmetric(Rest(xs), Rest(ys));
    }
  }

  lemma {:induction false} SegmentsTransitive(xs: seq<Segment>, ys: seq<Segment>, zs: seq<Segment>)
    requires CompareSegments(xs, ys) <= 0 && CompareSegments(ys, zs) <= 0
    ensures CompareSegments(xs, zs) <= 0
    decreases |xs| + |ys| + |zs|
  {
    if xs != [] || ys != [] || zs != [] {
      var x, y, z := At(xs, 0), At(ys, 0), At(zs, 0);
      var cxy, cyz := CompareSegment(x, y), CompareSegment(y, z);
      assert cxy <= 0 && cyz <= 0;
      SegmentTransitive(x, y, z);
      if cxy == 0 && cyz == 0 {
        SegmentsTransitive(Rest(xs), Rest(ys), Rest(zs));
      } else if CompareSegment(x, z) == 0 {
        // x == z would force x == y == z
        SegmentAntisymmetric(x, y);
      }
    }
  }

  /** Lists that compare equal compare alike with any third list. */
  lemma SegmentsEquivalent(xs: seq<Segment>, ys: seq<Segment>, zs: seq<Segment>)
    requires CompareSegments(xs, ys) == 0
    ensures CompareSegments(xs, zs) == CompareSegments(ys, zs)
  {
    SegmentsAntisymmetric(xs, ys);
    SegmentsAntisymmetric(xs, zs);
    SegmentsAntisymmetric(ys, zs);
    if CompareSegments(ys, zs) <= 0 {
      SegmentsTransitive(xs, ys, zs);
    }
    if CompareSegments(zs, ys) <= 0 {
      SegmentsTransitive(zs, ys, xs);
      SegmentsAntisymmetric(zs, xs);
    }
    if CompareSegments(xs, zs) <= 0 {
      SegmentsTransitive(ys, xs, zs);
    }
    if CompareSegments(zs, xs) <= 0 {
      SegmentsTransitive(zs, xs, ys);
    }
  }

  /** A string without `.` is a single segment. */
  lemma SinglePieceTokens(t: string)
    requires '.' !in t
    ensures Tokens(t) == [ToSegment(t)]
  {
    SplitNoSeparator(t, '.');
  }

  /** Numeric pre-releases written with the same number of digits compare as
      their text does. */
  lemma EqualWidthNumbersCompareAsText(s: string, t: string)
    requires IsDigits(s) && IsDigits(t) && |s| == |t|
    ensures CompareSegments(Tokens(s), Tokens(t)) == LexCompare(s, t)
  {
    assert '.' !in s && '.' !in t by {
      assert !IsDigit('.');
    }
    SinglePieceTokens(s);
    SinglePieceTokens(t);
    ParseNatOrderEqualWidth(s, t);
  }

  /** Equal leading segments never decide: the comparison moves on to what
      follows them. */
  lemma {:induction false} SharedPrefixSkipped(ps: seq<Segment>, xs: seq<Segment>, ys: seq<Segment>)
    ensures CompareSegments(ps + xs, ps + ys) == CompareSegments(xs, ys)
  {
    if ps == [] {
      assert ps + xs == xs && ps + ys == ys;
    } else {
      assert At(ps + xs, 0) == ps[0] == At(ps + ys, 0);
      assert Rest(ps + xs) == ps[1..] + xs && Rest(ps + ys) == ps[1..] + ys;
      SharedPrefixSkipped(ps[1..], xs, ys);
    }
  }
}
