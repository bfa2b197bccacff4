/**
 The assertions of `Test_CompareVersion` and `Test_CompareVersionGolang`, one
 lemma per assertion.
 */
module VersionFixtures {
  import opened Text
  import opened Segments
  import opened Version
  import opened GolangVersion

  lemma GenericOneAboveZeroPointNinetyNine()
    ensures CompareVersion("1", "v0.99") == 1
  {
    assert "1" == "1" + [] && "v0.99" == "v0" + ".99";
    assert StripV("v0") == "0";
    FirstSegmentDecides("1", [], "v0", ".99");
  }

  lemma GenericOnePointZeroAboveZeroPointNinetyNine()
    ensures CompareVersion("v1.0", "v0.99") == 1
  {
    assert "v1.0" == "v1" + ".0" && "v0.99" == "v0" + ".99";
    assert StripV("v1") == "1" && StripV("v0") == "0";
    FirstSegmentDecides("v1", ".0", "v0", ".99");
  }

  lemma GenericMinorDecides()
    ensures CompareVersion("v1.0.1", "v1.1.0") == -1
  {
    assert "v1.0.1" == "v" + "1.0.1";
    LeadingVIsCosmetic("1.0.1", "v1.1.0");
    GenericMinorDecidesWithoutV();
  }

  lemma GenericMinorDecidesWithoutV()
    ensures CompareVersion("1.0.1", "v1.1.0") == -1
  {
    assert "v1.1.0" == "v" + "1.1.0";
    LeadingVIsCosmetic("1.1.0", "1.0.1");
    MinorDecidesPlain();
  }

  /** The fixtures above with the `v` taken off both sides. */
  lemma MinorDecidesPlain()
    ensures CompareVersion("1.0.1", "1.1.0") == -1
  {
    assert "1.0.1" == "1" + "." + "0.1" && "1.1.0" == "1" + "." + "1.0";
    TieFallsThrough("1", "0.1", "1.0");
    MinorsCompared();
  }

  /** What remains of the fixture above once the tied major segment is gone. */
  lemma MinorsCompared()
    ensures CompareVersion("0.1", "1.0") == -1
  {
    assert "0.1" == "0" + ".1" && "1.0" == "1" + ".0";
    DigitSegment('0');
    DigitSegment('1');
    FirstSegmentDecides("0", ".1", "1", ".0");
  }

  lemma GenericMajorDominates()
    ensures CompareVersion("1.0.0", "v0.1.0") == 1
  {
    assert "1.0.0" == "1" + ".0.0" && "v0.1.0" == "v0" + ".1.0";
    assert StripV("v0") == "0";
    FirstSegmentDecides("1", ".0.0", "v0", ".1.0");
  }

  lemma GenericLeadingVCosmetic()
    ensures CompareVersion("1.0.0", "v1.0.0") == 0
  {
    assert "v1.0.0" == "v" + "1.0.0";
    LeadingVIsCosmetic("1.0.0", "1.0.0");
    CompareVersionReflexive("1.0.0");
  }

  lemma GolangMinorDecides()
    ensures CompareVersionGolang("v1.0.1", "v1.1.0") == -1
  {
    AgreesWithGenericOnReleases("v1.0.1", "v1.1.0");
    GenericMinorDecides();
  }

  lemma GolangMinorDecidesWithoutV()
    ensures CompareVersionGolang("1.0.1", "v1.1.0") == -1
  {
    AgreesWithGenericOnReleases("1.0.1", "v1.1.0");
    GenericMinorDecidesWithoutV();
  }

  lemma GolangMajorDominates()
    ensures CompareVersionGolang("1.0.0", "v0.1.0") == 1
  {
    AgreesWithGenericOnReleases("1.0.0", "v0.1.0");
    GenericMajorDominates();
  }

  lemma GolangLeadingVCosmetic()
    ensures CompareVersionGolang("1.0.0", "v1.0.0") == 0
  {
    AgreesWithGenericOnReleases("1.0.0", "v1.0.0");
    GenericLeadingVCosmetic();
  }

  lemma GolangCommitHashIgnored()
    ensures CompareVersionGolang("v0.0.0-20190626092158-b2ccc519800e", "0.0.0-20190626092158") == 0
  {
    SpellHashFixture();
    PseudoVersionAgainstPreRelease("0.0.0", "20190626092158", "b2ccc519800e", "20190626092158");
    SegmentsReflexive(Tokens("20190626092158"));
  }

  lemma GolangTimestampDecides()
    ensures CompareVersionGolang("v0.0.0-20190626092159-b2ccc519800e", "0.0.0-20190626092158") == 1
  {
    SpellTimestampFixture();
    PseudoVersionAgainstPreRelease("0.0.0", "20190626092159", "b2ccc519800e", "20190626092158");
    LaterTimestampIsGreater();
  }

  /** How the two fixtures above are put together from core, timestamp and
      commit hash. */
  lemma SpellHashFixture()
    ensures "v0.0.0-20190626092158-b2ccc519800e" == "v" + "0.0.0" + "-" + "20190626092158" + "-" + "b2ccc519800e"
    ensures "0.0.0-20190626092158" == "0.0.0" + "-" + "20190626092158"
  {
  }

  lemma SpellTimestampFixture()
    ensures "v0.0.0-20190626092159-b2ccc519800e" == "v" + "0.0.0" + "-" + "20190626092159" + "-" + "b2ccc519800e"
    ensures "0.0.0-20190626092158" == "0.0.0" + "-" + "20190626092158"
  {
  }

  /** The two timestamps of the fixture above, as pre-release segment lists. */
  lemma LaterTimestampIsGreater()
    ensures CompareSegments(Tokens("20190626092159"), Tokens("20190626092158")) == 1
  {
    EqualWidthNumbersCompareAsText("20190626092159", "20190626092158");
    LaterTimestampIsGreaterAsText();
  }

  lemma LaterTimestampIsGreaterAsText()
    ensures LexCompare("20190626092159", "20190626092158") == 1
  {
    var prefix := "2019062609215";
    assert "20190626092159" == prefix + "9" && "20190626092158" == prefix + "8";
    LexCommonPrefix(prefix, "9", "8");
  }

  lemma GolangIncompatibleEqual()
    ensures CompareVersionGolang("v4.20.0+incompatible", "4.20.0") == 0
  {
    assert "v4.20.0+incompatible" == "v4.20.0" + "+" + "incompatible";
    BuildMetadataIgnored("v4.20.0", "incompatible", "4.20.0");
    assert "v4.20.0" == "v" + "4.20.0";
    LeadingVIsCosmeticGolang("4.20.0", "4.20.0");
    CompareVersionGolangReflexive("4.20.0");
  }

  lemma GolangIncompatibleBelowNextPatch()
    ensures CompareVersionGolang("v4.20.0+incompatible", "4.20.1") == -1
  {
    assert "v4.20.0+incompatible" == "v4.20.0" + "+" + "incompatible";
    BuildMetadataIgnored("v4.20.0", "incompatible", "4.20.1");
    assert "v4.20.0" == "v" + "4.20.0";
    LeadingVIsCosmeticGolang("4.20.0", "4.20.1");
    GolangPatchDecides();
  }

  /** The two releases of the fixture above, without build metadata. */
  lemma GolangPatchDecides()
    ensures CompareVersionGolang("4.20.0", "4.20.1") == -1
  {
    AgreesWithGenericOnReleases("4.20.0", "4.20.1");
    PatchDecides();
  }

  /** The same two releases, compared generically. */
  lemma PatchDecides()
    ensures CompareVersion("4.20.0", "4.20.1") == -1
  {
    assert "4.20.0" == "4" + "." + "20.0" && "4.20.1" == "4" + "." + "20.1";
    TieFallsThrough("4", "20.0", "20.1");
    PatchDecidesAfterMajor();
  }

  lemma PatchDecidesAfterMajor()
    ensures CompareVersion("20.0", "20.1") == -1
  {
    assert "20.0" == "20" + "." + "0" && "20.1" == "20" + "." + "1";
    TieFallsThrough("20", "0", "1");
    PatchesCompared();
  }

  lemma PatchesCompared()
    ensures CompareVersion("0", "1") == -1
  {
    assert "0" == "0" + [] && "1" == "1" + [];
    DigitSegment('0');
    DigitSegment('1');
    FirstSegmentDecides("0", [], "1", []);
  }

  lemma GolangPseudoVersionBelowRelease()
    ensures CompareVersionGolang("v1.12.2-0.20200413154443-b17e3a6804fa", "v1.12.2") == -1
  {
    assert "v1.12.2-0.20200413154443-b17e3a6804fa" == "v1.12.2" + "-" + "0.20200413154443-b17e3a6804fa";
    PreReleaseBelowRelease("v1.12.2", "0.20200413154443-b17e3a6804fa");
  }
}
