/** The quality settings of each video encoder: the range of the quality
    parameter and five presets, from best to most compressed. */
module EncoderConfig {
  import opened KasmVideo

  const MaxPresets: nat := 5

  datatype Configuration = Configuration(minQuality: int, maxQuality: int, presets: seq<int>)

  /** A value-initialised entry. */
  const Unset: Configuration := Configuration(0, 0, [0, 0, 0, 0, 0])

  const StandardPresets: seq<int> := [18, 23, 28, 39, 51]

  /** The table, one entry per encoder in enumeration order. */
  const Configurations: seq<Configuration> := [
    Unset, Unset, Unset, Unset,
    Configuration(0, 51, StandardPresets),
    Configuration(0, 51, StandardPresets),
    Configuration(0, 51, StandardPresets),
    Configuration(0, 51, StandardPresets),
    Configuration(0, 51, [18, 23, 28, 33, 51]),
    Configuration(0, 51, StandardPresets),
    Configuration(0, 51, StandardPresets),
    Configuration(0, 51, StandardPresets),
    Unset]

  /** Presets that go up strictly and stay inside the quality range. */
  predicate WellFormedPresets(c: Configuration) {
    && (forall i :: 0 <= i < |c.presets| ==> c.minQuality <= c.presets[i] <= c.maxQuality)
    && (forall i, j :: 0 <= i < j < |c.presets| ==> c.presets[i] < c.presets[j])
  }

  /** EncoderConfiguration::get_configuration. */
  function GetConfiguration(e: Encoder): (c: Configuration)
    ensures |c.presets| == MaxPresets
    ensures FamilyOf(e) == AV1Family || e == Unavailable ==> c == Unset
    ensures FamilyOf(e) == H264Family || FamilyOf(e) == H265Family ==>
              c.minQuality == 0 && c.maxQuality == 51 && WellFormedPresets(c)
  {
    TableShape();
    Configurations[Ordinal(e)]
  }

  /** The table has an entry for every enumerator, the placeholder included,
      and all populated entries share one preset list except the direct
      VA-API H.264 encoder, whose fourth preset is lower. */
  lemma TableShape()
    ensures |Configurations| == |AllEncoders|
    ensures forall i :: 0 <= i < |Configurations| ==> |Configurations[i].presets| == MaxPresets
  {
  }

  /** Only the direct VA-API H.264 encoder deviates from the standard
      presets, and only in the fourth one. */
  lemma OnlyH264VaapiDiffers(e: Encoder)
    requires FamilyOf(e) == H264Family || FamilyOf(e) == H265Family
    ensures GetConfiguration(e).presets == StandardPresets <==> e != H264Vaapi
    ensures e == H264Vaapi ==>
              GetConfiguration(e).presets[3] == 33
              && forall i :: 0 <= i < MaxPresets && i != 3 ==> GetConfiguration(e).presets[i] == StandardPresets[i]
  {
  }
}
