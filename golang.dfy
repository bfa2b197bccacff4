/**
 The Go-toolchain comparator `gstr.CompareVersionGolang`. A version is read as
 a dotted numeric core, an optional pre-release and ignored build metadata. It
 targets Go module version strings, such as pseudo-versions
 (`vX.Y.Z-<timestamp>-<commit hash>`) and `+incompatible` versions, but its
 order is not Go's own semantic-version order:

   1. a leading `v` is dropped;
   2. everything from the first `+` on is build metadata and is dropped;
   3. when two or more `-` remain, the text from the last `-` on (the commit
      hash of a pseudo-version) is dropped;
   4. the rest is split at its first `-` into the core and the pre-release.

 Cores are compared as the generic comparator does; on equal cores a version
 without pre-release ranks above one with, and two pre-releases are compared
 by their dotted segments.
 */
module GolangVersion {
  import opened Text
  import opened Segments
  import opened Version

  datatype PreRelease = Release | Pre(tag: string)

  datatype GoVersion = GoVersion(core: string, pre: PreRelease)

  /** Steps 2 and 3 above, as the `-` pieces of what is compared. */
  function ComparedPieces(s: string): (ps: seq<string>)
    ensures |ps| >= 1
    ensures forall i :: 0 <= i < |ps| ==> '-' !in ps[i]
  {
    var pieces := Split(TakeUntil(s, '+'), '-');
    if |pieces| >= 3 then pieces[..|pieces| - 1] else pieces
  }

  /** What is compared is the text before the first `+`, cut at its last `-`
      when it holds two or more. */
  lemma ComparedPiecesCutAtLastDash(s: string)
    ensures Count(TakeUntil(s, '+'), '-') < 2 ==> Join(ComparedPieces(s), '-') == TakeUntil(s, '+')
    ensures Count(TakeUntil(s, '+'), '-') >= 2 ==>
      exists tail :: '-' !in tail && Join(ComparedPieces(s), '-') + "-" + tail == TakeUntil(s, '+')
  {
    var t := TakeUntil(s, '+');
    var pieces := Split(t, '-');
    SplitCount(t, '-');
    JoinSplit(t, '-');
    if |pieces| >= 3 {
      var n := |pieces|;
      assert ComparedPieces(s) == pieces[..n - 1];
      JoinDropLast(pieces, '-');
      var tail := pieces[n - 1];
      assert '-' !in tail;
      assert Join(ComparedPieces(s), '-') + "-" + tail == t;
    } else {
      assert ComparedPieces(s) == pieces;
    }
  }

  /** Step 4 above: the first piece is the core, the rest the pre-release. */
  function FromPieces(ps: seq<string>): (v: GoVersion)
    requires |ps| >= 1
    ensures v.core == ps[0]
    ensures v.pre.Pre? <==> |ps| >= 2
    ensures v.pre.Pre? ==> ps[0] + "-" + v.pre.tag == Join(ps, '-')
  {
    if |ps| == 1 then GoVersion(ps[0], Release)
    else GoVersion(ps[0], Pre(Join(ps[1..], '-')))
  }

  /** Splits a raw version into its core and its pre-release; neither holds
      build metadata, and the core holds no `-`. */
  function Parse(raw: string): (v: GoVersion)
    ensures '-' !in v.core && '+' !in v.core
    ensures v.pre.Pre? ==> '+' !in v.pre.tag
  {
    var ps := ComparedPieces(StripV(raw));
    ComparedPiecesCutAtLastDash(StripV(raw));
    FromPieces(ps)
  }

  /** A release outranks any pre-release; two pre-releases compare by their
      dotted segments. */
  function ComparePreRelease(p: PreRelease, q: PreRelease): (r: int)
    ensures r in {-1, 0, 1}
    ensures p.Release? && q.Pre? ==> r == 1
    ensures p.Pre? && q.Release? ==> r == -1
  {
    match (p, q)
    case (Release, Release) => 0
    case (Release, Pre(_)) => 1
    case (Pre(_), Release) => -1
    case (Pre(s), Pre(t)) => CompareSegments(Tokens(s), Tokens(t))
  }

  function CompareGoVersion(x: GoVersion, y: GoVersion): (r: int)
    ensures r in {-1, 0, 1}
  {
    var c := CompareSegments(Tokens(x.core), Tokens(y.core));
    if c != 0 then c else ComparePreRelease(x.pre, y.pre)
  }

  function CompareVersionGolang(a: string, b: string): (r: int)
    ensures r in {-1, 0, 1}
  {
    CompareGoVersion(Parse(a), Parse(b))
  }

  /** A version with neither `-` nor `+` is all core: a release. */
  lemma ParseRelease(c: string)
    requires '-' !in c && '+' !in c
    ensures Parse(c) == GoVersion(StripV(c), Release)
  {
    var sv := StripV(c);
    StripVKeepsAbsent(c, '-');
    StripVKeepsAbsent(c, '+');
    TakeUntilAfterPrefix(sv, [], '+');
    assert sv + [] == sv;
    SplitNoSeparator(sv, '-');
  }

  /** `core-tag`, with no further `-` or `+`, has `tag` as its pre-release. */
  lemma ParsePreRelease(c: string, tag: string)
    requires '-' !in c && '+' !in c
    requires '-' !in tag && '+' !in tag
    ensures Parse(c + "-" + tag) == GoVersion(StripV(c), Pre(tag))
  {
    var sv := StripV(c);
    StripVKeepsAbsent(c, '-');
    StripVKeepsAbsent(c, '+');
    StripVBeforeSeparator(c, '-', tag);
    var t := sv + "-" + tag;
    assert '+' !in t;
    TakeUntilAfterPrefix(t, [], '+');
    assert t + [] == t;
    SplitAfterPiece(sv, '-', tag);
    SplitNoSeparator(tag, '-');
    assert ComparedPieces(t) == [sv, tag];
  }

  /** A pseudo-version `core-timestamp-hash` has the timestamp as its
      pre-release; the commit hash is not compared. */
  lemma ParsePseudoVersion(c: string, timestamp: string, hash: string)
    requires '-' !in c && '+' !in c
    requires '-' !in timestamp && '+' !in timestamp
    requires '-' !in hash
    ensures Parse(c + "-" + timestamp + "-" + hash) == GoVersion(StripV(c), Pre(timestamp))
  {
    var sv := StripV(c);
    StripVKeepsAbsent(c, '-');
    StripVKeepsAbsent(c, '+');
    var raw := c + "-" + timestamp + "-" + hash;
    var rest := "-" + timestamp + "-" + hash;
    StripVPrefix(c, rest);
    assert raw == c + rest;
    var kept := sv + "-" + timestamp + "-";
    assert StripV(raw) == kept + hash;
    assert '+' !in kept;
    TakeUntilAfterPrefix(kept, hash, '+');
    var h := TakeUntil(hash, '+');
    assert '-' !in h by {
      assert h == hash[..|h|];
    }
    var t := kept + h;
    assert TakeUntil(StripV(raw), '+') == t;
    TimestampPieces(sv, timestamp, h);
    assert ComparedPieces(StripV(raw)) == [sv, timestamp];
  }

  lemma TimestampPieces(sv: string, timestamp: string, h: string)
    requires '-' !in sv && '-' !in timestamp && '-' !in h
    ensures Split(sv + "-" + timestamp + "-" + h, '-') == [sv, timestamp, h]
  {
    assert sv + "-" + timestamp + "-" + h == sv + "-" + (timestamp + "-" + h);
    SplitAfterPiece(sv, '-', timestamp + "-" + h);
    SplitAfterPiece(timestamp, '-', h);
    SplitNoSeparator(h, '-');
  }

  /** Whatever follows `core-`, the version has a pre-release and that core. */
  lemma ParseHasPreRelease(c: string, p: string)
    requires '-' !in c && '+' !in c
    ensures Parse(c + "-" + p).core == StripV(c)
    ensures Parse(c + "-" + p).pre.Pre?
  {
    var sv := StripV(c);
    StripVKeepsAbsent(c, '-');
    StripVKeepsAbsent(c, '+');
    StripVBeforeSeparator(c, '-', p);
    assert '+' !in sv + "-";
    TakeUntilAfterPrefix(sv + "-", p, '+');
    var rest := TakeUntil(p, '+');
    SplitAfterPiece(sv, '-', rest);
    var ps := ComparedPieces(sv + "-" + p);
    assert |ps| >= 2 && ps[0] == sv;
  }

  /** Build metadata never reaches the compared parts: appending `+meta`
      to any version, with or without a `+` of its own, leaves its parse
      unchanged. */
  lemma ParseIgnoresBuild(x: string, meta: string)
    ensures Parse(x + "+" + meta) == Parse(x)
  {
    var sx := StripV(x);
    StripVBeforeSeparator(x, '+', meta);
    TakeUntilStopsAt(sx, '+', meta);
    assert TakeUntil(StripV(x + "+" + meta), '+') == TakeUntil(sx, '+');
    assert ComparedPieces(StripV(x + "+" + meta)) == ComparedPieces(sx);
  }

  lemma CompareGoVersionReflexive(x: GoVersion)
    ensures CompareGoVersion(x, x) == 0
  {
    SegmentsReflexive(Tokens(x.core));
    if x.pre.Pre? {
      SegmentsReflexive(Tokens(x.pre.tag));
    }
  }

  lemma CompareVersionGolangReflexive(a: string)
    ensures CompareVersionGolang(a, a) == 0
  {
    CompareGoVersionReflexive(Parse(a));
  }

  lemma CompareVersionGolangAntisymmetric(a: string, b: string)
    ensures CompareVersionGolang(a, b) == -CompareVersionGolang(b, a)
  {
    var x, y := Parse(a), Parse(b);
    SegmentsAntisymmetric(Tokens(x.core), Tokens(y.core));
    if x.pre.Pre? && y.pre.Pre? {
      SegmentsAntisymmetric(Tokens(x.pre.tag), Tokens(y.pre.tag));
    }
  }

  lemma PreReleaseTransitive(p: PreRelease, q: PreRelease, u: PreRelease)
    requires ComparePreRelease(p, q) <= 0 && ComparePreRelease(q, u) <= 0
    ensures ComparePreRelease(p, u) <= 0
  {
    if p.Pre? && q.Pre? && u.Pre? {
      SegmentsTransitive(Tokens(p.tag), Tokens(q.tag), Tokens(u.tag));
    }
  }

  lemma CompareVersionGolangTransitive(a: string, b: string, c: string)
    requires CompareVersionGolang(a, b) <= 0 && CompareVersionGolang(b, c) <= 0
    ensures CompareVersionGolang(a, c) <= 0
  {
    var x, y, z := Parse(a), Parse(b), Parse(c);
    var xs, ys, zs := Tokens(x.core), Tokens(y.core), Tokens(z.core);
    if CompareSegments(xs, ys) == 0 {
      SegmentsEquivalent(xs, ys, zs);
      if CompareSegments(ys, zs) == 0 {
        PreReleaseTransitive(x.pre, y.pre, z.pre);
      }
    } else if CompareSegments(ys, zs) == 0 {
      SegmentsAntisymmetric(ys, zs);
      SegmentsEquivalent(zs, ys, xs);
      SegmentsAntisymmetric(xs, ys);
      SegmentsAntisymmetric(xs, zs);
    } else {
      SegmentsTransitive(xs, ys, zs);
      if CompareSegments(xs, zs) == 0 {
        SegmentsEquivalent(xs, zs, ys);
        SegmentsAntisymmetric(xs, ys);
        SegmentsAntisymmetric(zs, ys);
      }
    }
  }

  /** On plain dotted versions, without `-` or `+`, the Go comparator agrees
      with the generic one. */
  lemma AgreesWithGenericOnReleases(a: string, b: string)
    requires '-' !in a && '+' !in a
    requires '-' !in b && '+' !in b
    ensures CompareVersionGolang(a, b) == CompareVersion(a, b)
  {
    ParseRelease(a);
    ParseRelease(b);
  }

  /** Differing cores decide the comparison, whatever pre-release or
      pseudo-version suffix either side carries. */
  lemma CoreDecides(c1: string, p1: string, c2: string, p2: string)
    requires '-' !in c1 && '+' !in c1
    requires '-' !in c2 && '+' !in c2
    requires CompareVersion(c1, c2) != 0
    ensures CompareVersionGolang(c1 + "-" + p1, c2 + "-" + p2) == CompareVersion(c1, c2)
    ensures CompareVersionGolang(c1 + "-" + p1, c2) == CompareVersion(c1, c2)
    ensures CompareVersionGolang(c1, c2 + "-" + p2) == CompareVersion(c1, c2)
  {
    ParseHasPreRelease(c1, p1);
    ParseHasPreRelease(c2, p2);
    ParseRelease(c1);
    ParseRelease(c2);
  }

  /** Build metadata after `+` never affects the result. */
  lemma BuildMetadataIgnored(x: string, meta: string, y: string)
    ensures CompareVersionGolang(x + "+" + meta, y) == CompareVersionGolang(x, y)
    ensures CompareVersionGolang(y, x + "+" + meta) == CompareVersionGolang(y, x)
  {
    ParseIgnoresBuild(x, meta);
  }

  /** The commit hash of a pseudo-version is not compared. */
  lemma CommitHashIgnored(c: string, timestamp: string, hash: string, y: string)
    requires '-' !in c && '+' !in c
    requires '-' !in timestamp && '+' !in timestamp
    requires '-' !in hash
    ensures CompareVersionGolang(c + "-" + timestamp + "-" + hash, y)
         == CompareVersionGolang(c + "-" + timestamp, y)
  {
    ParsePseudoVersion(c, timestamp, hash);
    ParsePreRelease(c, timestamp);
  }

  /** Two pseudo-versions of one core are ordered by their timestamps. */
  lemma PseudoVersionsOrderedByTimestamp(c: string, t1: string, h1: string, t2: string, h2: string)
    requires '-' !in c && '+' !in c
    requires '-' !in t1 && '+' !in t1 && '-' !in h1
    requires '-' !in t2 && '+' !in t2 && '-' !in h2
    ensures CompareVersionGolang(c + "-" + t1 + "-" + h1, c + "-" + t2 + "-" + h2)
         == CompareSegments(Tokens(t1), Tokens(t2))
  {
    ParsePseudoVersion(c, t1, h1);
    ParsePseudoVersion(c, t2, h2);
    SegmentsReflexive(Tokens(StripV(c)));
  }

  /** Two pre-releases of one core are ordered by their dotted segments. */
  lemma PreReleasesOfOneCoreOrdered(c: string, p1: string, p2: string)
    requires '-' !in c && '+' !in c
    requires '-' !in p1 && '+' !in p1
    requires '-' !in p2 && '+' !in p2
    ensures CompareVersionGolang(c + "-" + p1, c + "-" + p2) == CompareSegments(Tokens(p1), Tokens(p2))
  {
    ParsePreRelease(c, p1);
    ParsePreRelease(c, p2);
    SegmentsReflexive(Tokens(StripV(c)));
  }

  /** A version carrying a pre-release or pseudo-version suffix ranks below
      the release of the same core. */
  lemma PreReleaseBelowRelease(c: string, p: string)
    requires '-' !in c && '+' !in c
    ensures CompareVersionGolang(c + "-" + p, c) == -1
    ensures CompareVersionGolang(c, c + "-" + p) == 1
  {
    ParseHasPreRelease(c, p);
    ParseRelease(c);
    SegmentsReflexive(Tokens(StripV(c)));
  }

  /** Neither the `v` nor the commit hash of a pseudo-version `vC-T-H`
      matters against a pre-release of the same core: the timestamp `T` is
      compared with the other pre-release. */
  lemma PseudoVersionAgainstPreRelease(c: string, t1: string, h: string, t2: string)
    requires c == [] || c[0] != 'v'
    requires '-' !in c && '+' !in c
    requires '-' !in t1 && '+' !in t1 && '-' !in h
    requires '-' !in t2 && '+' !in t2
    ensures CompareVersionGolang("v" + c + "-" + t1 + "-" + h, c + "-" + t2)
         == CompareSegments(Tokens(t1), Tokens(t2))
  {
    var vc := "v" + c;
    assert '-' !in vc && '+' !in vc;
    assert StripV(vc) == c && StripV(c) == c;
    ParsePseudoVersion(vc, t1, h);
    ParsePreRelease(c, t2);
    SegmentsReflexive(Tokens(c));
    assert CompareGoVersion(GoVersion(c, Pre(t1)), GoVersion(c, Pre(t2))) == CompareSegments(Tokens(t1), Tokens(t2));
  }

  lemma LeadingVIsCosmeticGolang(x: string, y: string)
    requires x == [] || x[0] != 'v'
    ensures CompareVersionGolang("v" + x, y) == CompareVersionGolang(x, y)
    ensures CompareVersionGolang(y, "v" + x) == CompareVersionGolang(y, x)
  {
    assert ("v" + x)[1..] == x;
  }
}
