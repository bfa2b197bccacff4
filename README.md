# Version comparison in `gstr`

This project models the behaviour that the gf `gstr` package's fixture file
fixes for its two version comparators, and proves properties of that
behaviour:

- `gstr.CompareVersion(a, b)` is the generic comparator;
- `gstr.CompareVersionGolang(a, b)` targets Go module version strings,
  including pseudo-versions and `+incompatible` versions. Its order is not
  Go's own semantic-version order (see "## Left out").

Both return 1 when `a` is the greater version, -1 when `b` is, and 0 when they
are equal.

The implementation of the two functions is not modelled. The comparators below
are total functions built to agree with every assertion in
`text/gstr/gstr_z_unit_version_test.go`. Each assertion is proved as a
lemma in `fixtures.dfy`. The rules the fixtures leave open are fixed explicitly
here. No fixture lemma depends on those open rules: every fixture is decided
before a missing segment or a number-against-word comparison is reached.

## The rules modelled

Generic comparator (`version.dfy`):

1. One leading lower-case `v` is dropped. `V` is kept as text.
2. The rest is split on `.` into pieces. A piece of one or more ASCII digits
   is a number (`Segments.Num`), read without bound, so leading zeros do not
   matter. Any other piece, the empty one included, is a word
   (`Segments.Word`).
3. The two segment lists are compared left to right, and the first difference
   decides. The shorter list is read as padded with `0` segments, so `1` and
   `1.0.0` are equal.
4. Numbers compare by value, and every number ranks below every word. Two
   words compare character by character on code point, a proper prefix
   ranking first.

Go-toolchain comparator (`golang.dfy`). Each side is first read as a core and
an optional pre-release:

1. one leading `v` is dropped;
2. everything from the first `+` on is build metadata and is dropped;
3. if two or more `-` remain, the text from the last `-` on is dropped (the
   commit hash of a pseudo-version `vX.Y.Z-<timestamp>-<hash>`);
4. what remains is split at its first `-`. The part before it is the core. The
   rest, if any, is the pre-release.

Cores are compared with the generic segment order. On equal cores, a release
ranks above a pre-release, and two pre-releases are compared by their own
`.`-separated segments under the same order. This suffix rule agrees with every
Go-toolchain fixture. It is a design choice, not the library's code.

For `v1.12.2-0.20200413154443-b17e3a6804fa`, step 3 drops the hash. The
pre-release is then `0.20200413154443`. It has a pre-release and `v1.12.2`
does not, so it ranks below `v1.12.2`, as the file's comment on that line
states.

Files, in dependency order:

- `text.dfy` (`Text`): splitting and joining on a character, cutting at the
  first occurrence of one, reading digit strings, and code-point order on
  strings.
- `segments.dfy` (`Segments`): the segment type and the order on segment
  lists.
- `version.dfy` (`Version`): the generic comparator.
- `golang.dfy` (`GolangVersion`): the Go-toolchain comparator.
- `fixtures.dfy` (`VersionFixtures`): one lemma per assertion. The two
  `Spell…` lemmas there are spelling helpers only: they split the literal
  strings of lines 35 and 36 into core, timestamp and hash.

## Model

| member | source | states |
|---|---|---|
| Text.Split | text/gstr/gstr_z_unit_version_test.go:20-25 | splitting gives at least one piece, and no piece holds the separator |
| Text.TakeUntil | text/gstr/gstr_z_unit_version_test.go:37-38 | the cut is a prefix free of `+`; when it is shorter than the input, a `+` follows it |
| Text.TakeUntilStopsAt | text/gstr/gstr_z_unit_version_test.go:37-38 | the cut at the first `+` ignores everything after that `+` |
| Text.ParseNat | text/gstr/gstr_z_unit_version_test.go:20-25 | a digit-only segment reads as a natural number, which is zero exactly when every digit is `0`; `ParseNatLeadingZero` shows leading zeros do not change it, and `ParseNatOrderEqualWidth` ties its order to the text's |
| Text.LexCompare | text/gstr/gstr_z_unit_version_test.go:36 | the result is -1, 0 or 1, and it is 0 exactly when the strings are equal |
| Text.ParseNatOrderEqualWidth | text/gstr/gstr_z_unit_version_test.go:36 | digit strings of one width, such as pseudo-version timestamps, order by value exactly as they order as text |
| Segments.ToSegment | text/gstr/gstr_z_unit_version_test.go:20-21 | a piece is a number exactly when it is all digits; a word keeps the piece's text |
| Segments.DigitSegment | text/gstr/gstr_z_unit_version_test.go:22-23 | a one-digit piece reads as its digit's value |
| Segments.ToSegments | text/gstr/gstr_z_unit_version_test.go:20-25 | the pieces are read one by one, in order, one segment per piece |
| Segments.Tokens | text/gstr/gstr_z_unit_version_test.go:20-25 | splitting on `.` and reading each piece gives one segment per `.` plus one |
| Segments.CompareSegment | text/gstr/gstr_z_unit_version_test.go:20-25 | the result is -1, 0 or 1; it is 0 exactly on equal segments; numbers compare by value; a number ranks below a word |
| Segments.CompareSegments | text/gstr/gstr_z_unit_version_test.go:20-25 | the left-to-right, first-difference-wins list comparison returns -1, 0 or 1; `SegmentsEqualIff` and `FirstDifferenceDecides` characterise it, and it is a total order by `SegmentsReflexive`, `SegmentsAntisymmetric` and `SegmentsTransitive` |
| Segments.SegmentsEqualIff | text/gstr/gstr_z_unit_version_test.go:25 | two segment lists compare equal exactly when they agree at every position once padded with `0` |
| Segments.FirstDifferenceDecides | text/gstr/gstr_z_unit_version_test.go:20-24 | the first position where padded lists differ gives the result |
| Segments.SegmentsReflexive | text/gstr/gstr_z_unit_version_test.go:25 | every segment list compares equal to itself |
| Segments.SegmentsAntisymmetric | text/gstr/gstr_z_unit_version_test.go:20-25 | swapping the lists negates the result |
| Segments.SegmentsTransitive | text/gstr/gstr_z_unit_version_test.go:20-25 | the order on segment lists is transitive |
| Segments.SharedPrefixSkipped | text/gstr/gstr_z_unit_version_test.go:22-23 | a shared leading run of segments never decides the comparison |
| Segments.EqualWidthNumbersCompareAsText | text/gstr/gstr_z_unit_version_test.go:36 | two equal-width digit strings, as segment lists, compare as their text does |
| Version.StripV | text/gstr/gstr_z_unit_version_test.go:20-25 | the result is the input, or the input is `v` followed by the result |
| Version.CompareVersion | text/gstr/gstr_z_unit_version_test.go:20-25 | the generic comparator returns -1, 0 or 1 |
| Version.CompareVersionReflexive | text/gstr/gstr_z_unit_version_test.go:25 | every version equals itself |
| Version.CompareVersionAntisymmetric | text/gstr/gstr_z_unit_version_test.go:20-25 | swapping the arguments negates the result |
| Version.CompareVersionTransitive | text/gstr/gstr_z_unit_version_test.go:20-25 | the generic order is transitive |
| Version.LeadingVIsCosmetic | text/gstr/gstr_z_unit_version_test.go:23-25 | adding a leading `v` to a version without one changes no comparison, on either side |
| Version.FirstDifferentSegmentDecides | text/gstr/gstr_z_unit_version_test.go:20-24 | the first segment where two versions differ decides the result |
| Version.CompareVersionEqualIff | text/gstr/gstr_z_unit_version_test.go:25 | two versions are equal exactly when their padded segments agree everywhere |
| Version.LeadingPiece | text/gstr/gstr_z_unit_version_test.go:20-21 | a version's first piece gives its first segment, and what follows the first `.` gives the rest |
| Version.FirstSegmentDecides | text/gstr/gstr_z_unit_version_test.go:20-24 | differing first segments decide the comparison whatever follows them |
| Version.TokensOfDotted | text/gstr/gstr_z_unit_version_test.go:22-23 | the segments of `p.x` are `p`'s segment followed by the segments of `x` |
| Version.TieFallsThrough | text/gstr/gstr_z_unit_version_test.go:22-23 | a tie in the leading segment falls through to the comparison of what follows |
| GolangVersion.ComparedPieces | text/gstr/gstr_z_unit_version_test.go:35-40 | what is compared is one or more `-`-free pieces |
| GolangVersion.ComparedPiecesCutAtLastDash | text/gstr/gstr_z_unit_version_test.go:35-40 | with fewer than two `-` before the first `+`, all of that text is compared; with two or more, it is cut at its last `-` |
| GolangVersion.FromPieces | text/gstr/gstr_z_unit_version_test.go:35-40 | the first piece is the core; a pre-release is present exactly when there are two or more pieces, and core, `-` and pre-release spell the pieces joined |
| GolangVersion.Parse | text/gstr/gstr_z_unit_version_test.go:35-40 | the core holds neither `-` nor `+`, and a pre-release holds no `+` |
| GolangVersion.ComparePreRelease | text/gstr/gstr_z_unit_version_test.go:39-40 | the result is -1, 0 or 1, and a release ranks above any pre-release |
| GolangVersion.CompareGoVersion | text/gstr/gstr_z_unit_version_test.go:31-40 | comparing two parsed versions gives -1, 0 or 1 |
| GolangVersion.CompareVersionGolang | text/gstr/gstr_z_unit_version_test.go:31-40 | the Go-toolchain comparator returns -1, 0 or 1; `CoreDecides` and the pre-release lemmas below fix its order |
| GolangVersion.ParseRelease | text/gstr/gstr_z_unit_version_test.go:31-34 | a version with neither `-` nor `+` is a release whose core is the version without its `v` |
| GolangVersion.ParsePreRelease | text/gstr/gstr_z_unit_version_test.go:35-36 | `core-tag`, with no other `-` or `+`, has `tag` as its pre-release |
| GolangVersion.ParsePseudoVersion | text/gstr/gstr_z_unit_version_test.go:35-36 | a pseudo-version `core-timestamp-hash` has the timestamp as its pre-release |
| GolangVersion.TimestampPieces | text/gstr/gstr_z_unit_version_test.go:35-36 | a pseudo-version without build metadata splits into core, timestamp and hash |
| GolangVersion.ParseHasPreRelease | text/gstr/gstr_z_unit_version_test.go:40 | anything after `core-` makes a pre-release of that core |
| GolangVersion.ParseIgnoresBuild | text/gstr/gstr_z_unit_version_test.go:37-38 | any version, whether or not it already holds a `+`, parses the same with `+metadata` appended |
| GolangVersion.CompareGoVersionReflexive | text/gstr/gstr_z_unit_version_test.go:35-37 | every parsed version equals itself |
| GolangVersion.CompareVersionGolangReflexive | text/gstr/gstr_z_unit_version_test.go:34-37 | every version equals itself |
| GolangVersion.CompareVersionGolangAntisymmetric | text/gstr/gstr_z_unit_version_test.go:31-40 | swapping the arguments negates the result |
| Segments.SegmentsEquivalent | text/gstr/gstr_z_unit_version_test.go:31-40 | segment lists that compare equal compare alike against any third list |
| GolangVersion.PreReleaseTransitive | text/gstr/gstr_z_unit_version_test.go:35-40 | the order on pre-releases is transitive |
| GolangVersion.CompareVersionGolangTransitive | text/gstr/gstr_z_unit_version_test.go:31-40 | the Go-toolchain order is transitive |
| GolangVersion.AgreesWithGenericOnReleases | text/gstr/gstr_z_unit_version_test.go:31-34 | on versions with neither `-` nor `+`, both comparators give the same result |
| GolangVersion.CoreDecides | text/gstr/gstr_z_unit_version_test.go:31-40 | when the dotted cores differ, they decide the comparison as the generic comparator orders them, whatever pre-release or pseudo-version suffix either side carries |
| GolangVersion.BuildMetadataIgnored | text/gstr/gstr_z_unit_version_test.go:37-38 | appending `+metadata` to either side never changes the result |
| GolangVersion.CommitHashIgnored | text/gstr/gstr_z_unit_version_test.go:35 | a pseudo-version compares with anything as its `core-timestamp` form does |
| GolangVersion.PseudoVersionsOrderedByTimestamp | text/gstr/gstr_z_unit_version_test.go:35-36 | two pseudo-versions of one core compare as their timestamps' segments do, whatever their hashes |
| GolangVersion.PreReleasesOfOneCoreOrdered | text/gstr/gstr_z_unit_version_test.go:35-36 | two pre-releases of one core compare as their dotted segments do |
| GolangVersion.PreReleaseBelowRelease | text/gstr/gstr_z_unit_version_test.go:39-40 | any `core-suffix` ranks below the release `core`, in both argument orders |
| GolangVersion.PseudoVersionAgainstPreRelease | text/gstr/gstr_z_unit_version_test.go:35-36 | `vC-T-H` against `C-T2` compares as the timestamps `T` and `T2` do |
| GolangVersion.LeadingVIsCosmeticGolang | text/gstr/gstr_z_unit_version_test.go:34-37 | adding a leading `v` to a version without one changes no Go-toolchain comparison |
| VersionFixtures.GenericOneAboveZeroPointNinetyNine | text/gstr/gstr_z_unit_version_test.go:20 | `1` is above `v0.99` |
| VersionFixtures.GenericOnePointZeroAboveZeroPointNinetyNine | text/gstr/gstr_z_unit_version_test.go:21 | `v1.0` is above `v0.99` |
| VersionFixtures.GenericMinorDecides | text/gstr/gstr_z_unit_version_test.go:22 | `v1.0.1` is below `v1.1.0` |
| VersionFixtures.GenericMinorDecidesWithoutV | text/gstr/gstr_z_unit_version_test.go:23 | `1.0.1` is below `v1.1.0` |
| VersionFixtures.MinorDecidesPlain | text/gstr/gstr_z_unit_version_test.go:22-23 | `1.0.1` is below `1.1.0` |
| VersionFixtures.MinorsCompared | text/gstr/gstr_z_unit_version_test.go:22-23 | `0.1` is below `1.0` |
| VersionFixtures.GenericMajorDominates | text/gstr/gstr_z_unit_version_test.go:24 | `1.0.0` is above `v0.1.0` |
| VersionFixtures.GenericLeadingVCosmetic | text/gstr/gstr_z_unit_version_test.go:25 | `1.0.0` equals `v1.0.0` |
| VersionFixtures.GolangMinorDecides | text/gstr/gstr_z_unit_version_test.go:31 | `v1.0.1` is below `v1.1.0` under the Go-toolchain comparator |
| VersionFixtures.GolangMinorDecidesWithoutV | text/gstr/gstr_z_unit_version_test.go:32 | `1.0.1` is below `v1.1.0` under the Go-toolchain comparator |
| VersionFixtures.GolangMajorDominates | text/gstr/gstr_z_unit_version_test.go:33 | `1.0.0` is above `v0.1.0` under the Go-toolchain comparator |
| VersionFixtures.GolangLeadingVCosmetic | text/gstr/gstr_z_unit_version_test.go:34 | `1.0.0` equals `v1.0.0` under the Go-toolchain comparator |
| VersionFixtures.GolangCommitHashIgnored | text/gstr/gstr_z_unit_version_test.go:35 | `v0.0.0-20190626092158-b2ccc519800e` equals `0.0.0-20190626092158` |
| VersionFixtures.GolangTimestampDecides | text/gstr/gstr_z_unit_version_test.go:36 | `v0.0.0-20190626092159-b2ccc519800e` is above `0.0.0-20190626092158` |
| VersionFixtures.LaterTimestampIsGreater | text/gstr/gstr_z_unit_version_test.go:36 | the timestamp `20190626092159` is above `20190626092158` as a pre-release |
| VersionFixtures.LaterTimestampIsGreaterAsText | text/gstr/gstr_z_unit_version_test.go:36 | the same two timestamps in code-point order |
| VersionFixtures.GolangIncompatibleEqual | text/gstr/gstr_z_unit_version_test.go:37 | `v4.20.0+incompatible` equals `4.20.0` |
| VersionFixtures.GolangIncompatibleBelowNextPatch | text/gstr/gstr_z_unit_version_test.go:38 | `v4.20.0+incompatible` is below `4.20.1` |
| VersionFixtures.GolangPatchDecides | text/gstr/gstr_z_unit_version_test.go:38 | `4.20.0` is below `4.20.1` under the Go-toolchain comparator |
| VersionFixtures.PatchDecides | text/gstr/gstr_z_unit_version_test.go:38 | `4.20.0` is below `4.20.1` |
| VersionFixtures.PatchDecidesAfterMajor | text/gstr/gstr_z_unit_version_test.go:38 | `20.0` is below `20.1` |
| VersionFixtures.PatchesCompared | text/gstr/gstr_z_unit_version_test.go:38 | `0` is below `1` |
| VersionFixtures.GolangPseudoVersionBelowRelease | text/gstr/gstr_z_unit_version_test.go:39-40 | `v1.12.2-0.20200413154443-b17e3a6804fa` is below `v1.12.2` |

## Left out

- The implementation of `gstr.CompareVersion` and `gstr.CompareVersionGolang`
  is not part of this model. The rules above are chosen to agree with the
  fixture file.
- The test harness (`gtest.C`, `t.AssertEQ`, `testing.T`) and the package
  imports carry no logic. Each assertion is a lemma instead.
- GolangVersion.CompareVersionGolang: not Go's semantic-version order
  (`golang.org/x/mod/semver`). It differs in two ways. First, whenever two or
  more `-` remain before the first `+`, the text from the last `-` on is
  dropped. Go reads `20190626092158-b2ccc519800e` as one pre-release
  identifier, which ranks above `20190626092158`, while line 35 expects 0.
  Second, pre-releases are padded with `0` segments like cores, so
  `1.0.0-alpha` equals `1.0.0-alpha.0`. Go ranks the shorter pre-release
  first.
- Missing trailing segments: they count as `0`. Ranking them below any
  present segment would also agree with the fixtures.
- Number against word: a number always ranks below a word. No fixture
  compares the two, so no fixture lemma relies on it. Comparing their text
  would also agree with the fixtures.
- Empty pieces (from `""`, `1.` or `1..2`) are words. Since every word ranks
  above every number, `""` ranks above `1` rather than lowest, and `1.` ranks
  above `1.5`. No fixture uses such input.
- Upper-case `V`: only a lower-case `v` is dropped, the one spelling the
  fixtures use.
- Build metadata in the generic comparator: `+` is only treated specially by
  the Go-toolchain comparator. A `+` in a generic version is part of a word.
- Range syntax (`^`, `~`, `>=`), version validation and version bumping:
  nothing in the fixture file uses them.
- Integer width: numeric segments are unbounded naturals. Overflow of a machine
  integer on very long digit runs is not modelled.
- Version.TieFallsThrough: stated for a shared leading segment without `.`.
  A longer shared prefix is handled by applying it once per segment, as
  `VersionFixtures.PatchDecides` does.
