/** The codec tables of the Kasm video extension: the hardware and software
    encoders with their names, pseudo-encodings and message ids, and the
    user-facing codec names with the parser that turns a comma-separated
    setting into an ordered list of encoders. */
module KasmVideo {
  import opened Text

  // ---------------------------------------------------------------------
  // Message ids of a video rectangle (the codec id sits in the high nibble)

  const KasmVideoH264: nat := 0x10  // 0x01 << 4
  const KasmVideoH265: nat := 0x20  // 0x02 << 4
  const KasmVideoAV1: nat := 0x30   // 0x03 << 4
  const KasmVideoSkip: nat := 0x00  // 0x00 << 4

  // ---------------------------------------------------------------------
  // Encoders, in the order of preference the server uses

  datatype Encoder =
    | Av1Vaapi | Av1FfmpegVaapi | Av1Nvenc | Av1Software
    | H265Vaapi | H265FfmpegVaapi | H265Nvenc | H265Software
    | H264Vaapi | H264FfmpegVaapi | H264Nvenc | H264Software
    | Unavailable

  const AllEncoders: seq<Encoder> := [
    Av1Vaapi, Av1FfmpegVaapi, Av1Nvenc, Av1Software,
    H265Vaapi, H265FfmpegVaapi, H265Nvenc, H265Software,
    H264Vaapi, H264FfmpegVaapi, H264Nvenc, H264Software,
    Unavailable]

  /** The enumerator's underlying value. */
  function Ordinal(e: Encoder): (n: nat)
    ensures n < |AllEncoders| && AllEncoders[n] == e
  {
    match e
    case Av1Vaapi => 0
    case Av1FfmpegVaapi => 1
    case Av1Nvenc => 2
    case Av1Software => 3
    case H265Vaapi => 4
    case H265FfmpegVaapi => 5
    case H265Nvenc => 6
    case H265Software => 7
    case H264Vaapi => 8
    case H264FfmpegVaapi => 9
    case H264Nvenc => 10
    case H264Software => 11
    case Unavailable => 12
  }

  datatype Family = AV1Family | H265Family | H264Family | NoFamily

  /** The codec an encoder produces, read off its enumerator name. */
  function FamilyOf(e: Encoder): Family {
    match e
    case Av1Vaapi | Av1FfmpegVaapi | Av1Nvenc | Av1Software => AV1Family
    case H265Vaapi | H265FfmpegVaapi | H265Nvenc | H265Software => H265Family
    case H264Vaapi | H264FfmpegVaapi | H264Nvenc | H264Software => H264Family
    case Unavailable => NoFamily
  }

  /** The direct VA-API encoders, which the encoding lookup never hands out. */
  predicate IsPlainVaapi(e: Encoder) {
    e == Av1Vaapi || e == H265Vaapi || e == H264Vaapi
  }

  /** The libav implementation names of the encoders (the EncoderNames
      table). */
  function EncoderName(e: Encoder): string {
    match e
    case Av1Vaapi | Av1FfmpegVaapi => "av1_vaapi"
    case Av1Nvenc => "av1_nvenc"
    case Av1Software => "libsvtav1"
    case H265Vaapi | H265FfmpegVaapi => "hevc_vaapi"
    case H265Nvenc => "hevc_nvenc"
    case H265Software => "libx265"
    case H264Vaapi | H264FfmpegVaapi => "h264_vaapi"
    case H264Nvenc => "h264_nvenc"
    case H264Software => "libx264"
    case Unavailable => "unavailable"
  }

  /** The streaming-mode pseudo-encodings a client announces.  Their numbers
      live in rfb/encodings.h, which is not part of this model; the lookups
      below only rely on them being pairwise distinct.  Every other encoding
      number is `OtherEncoding`. */
  datatype Encoding =
    | ModeAV1VAAPI | ModeAV1NVENC | ModeAV1SW
    | ModeHEVCVAAPI | ModeHEVCNVENC | ModeHEVCSW
    | ModeAVCVAAPI | ModeAVCNVENC | ModeAVCSW
    | ModeJpegWebp
    | ModeAV1 | ModeHEVC | ModeAVC
    | OtherEncoding(number: int)

  /** Software encoders are the ones without hardware acceleration; the
      unavailable placeholder counts as accelerated. */
  predicate IsAccelerated(e: Encoder) {
    e != H264Software && e != H265Software && e != Av1Software
  }

  predicate IsLibraryName(n: string) {
    |n| >= 3 && n[0] == 'l' && n[1] == 'i' && n[2] == 'b'
  }

  /** The software encoders are exactly the ones backed by a "lib…" library. */
  lemma AcceleratedIffNotLibrary(e: Encoder)
    requires e != Unavailable
    ensures !IsAccelerated(e) <==> IsLibraryName(EncoderName(e))
  {
  }

  /** The streaming-mode encoding an encoder announces (the Encodings
      table); both VA-API variants of a codec share one. */
  function ToEncoding(e: Encoder): Encoding {
    match e
    case Av1Vaapi | Av1FfmpegVaapi => ModeAV1VAAPI
    case Av1Nvenc => ModeAV1NVENC
    case Av1Software => ModeAV1SW
    case H265Vaapi | H265FfmpegVaapi => ModeHEVCVAAPI
    case H265Nvenc => ModeHEVCNVENC
    case H265Software => ModeHEVCSW
    case H264Vaapi | H264FfmpegVaapi => ModeAVCVAAPI
    case H264Nvenc => ModeAVCNVENC
    case H264Software => ModeAVCSW
    case Unavailable => ModeJpegWebp
  }

  /** A direct VA-API encoder is replaced by its libav VA-API counterpart,
      which announces the same encoding. */
  function Canonical(e: Encoder): (c: Encoder)
    ensures !IsPlainVaapi(c) && ToEncoding(c) == ToEncoding(e)
    ensures !IsPlainVaapi(e) ==> c == e
  {
    match e
    case Av1Vaapi => Av1FfmpegVaapi
    case H265Vaapi => H265FfmpegVaapi
    case H264Vaapi => H264FfmpegVaapi
    case _ => e
  }

  /** The search of from_encoding, from enumerator `i` on. */
  function EncodingScan(enc: Encoding, i: nat): (r: Encoder)
    requires i <= |AllEncoders|
    ensures !IsPlainVaapi(r)
    ensures ToEncoding(r) == enc
            || (r == Unavailable && forall j :: i <= j < |AllEncoders| ==> ToEncoding(AllEncoders[j]) != enc)
    decreases |AllEncoders| - i
  {
    if i == |AllEncoders| then Unavailable
    else if ToEncoding(AllEncoders[i]) == enc then Canonical(AllEncoders[i])
    else EncodingScan(enc, i + 1)
  }

  /** The encoder announced by an encoding: the first in enumeration order,
      never a direct VA-API one, and `Unavailable` when none matches. */
  function FromEncoding(enc: Encoding): (r: Encoder)
    ensures !IsPlainVaapi(r)
    ensures (exists e :: ToEncoding(e) == enc) ==> ToEncoding(r) == enc
    ensures (forall e :: ToEncoding(e) != enc) ==> r == Unavailable
  {
    EncodingListed(enc);
    EncodingScan(enc, 0)
  }

  lemma EncodingListed(enc: Encoding)
    ensures (exists e :: ToEncoding(e) == enc) ==>
              exists j :: 0 <= j < |AllEncoders| && ToEncoding(AllEncoders[j]) == enc
  {
    if e :| ToEncoding(e) == enc {
      assert ToEncoding(AllEncoders[Ordinal(e)]) == enc;
    }
  }

  /** The scan stops at the first enumerator announcing `enc`. */
  lemma {:induction false} ScanFindsFirst(enc: Encoding, i: nat, j: nat)
    requires i <= j < |AllEncoders| && ToEncoding(AllEncoders[j]) == enc
    requires forall k :: i <= k < j ==> ToEncoding(AllEncoders[k]) != enc
    ensures EncodingScan(enc, i) == Canonical(AllEncoders[j])
    decreases j - i
  {
    if i < j {
      ScanFindsFirst(enc, i + 1, j);
    }
  }

  /** Looking an encoder's encoding up again gives the encoder back, except
      that a direct VA-API encoder comes back as its libav counterpart. */
  lemma FromToEncoding(e: Encoder)
    ensures FromEncoding(ToEncoding(e)) == Canonical(e)
  {
    var j := Ordinal(e);
    if e == Av1FfmpegVaapi || e == H265FfmpegVaapi || e == H264FfmpegVaapi {
      j := j - 1;
    }
    ScanFindsFirst(ToEncoding(e), 0, j);
  }

  /** The message id written in front of a video rectangle; the source
      asserts the encoder is a real one. */
  function ToMsgId(e: Encoder): (id: nat)
    requires e != Unavailable
    ensures id != KasmVideoSkip && id % 16 == 0 && id < 256
  {
    match FamilyOf(e)
    case AV1Family => KasmVideoAV1
    case H265Family => KasmVideoH265
    case H264Family => KasmVideoH264
  }

  /** The family-wide streaming mode of an encoder; the unavailable
      placeholder falls back to JPEG/WebP. */
  function ToStreamingMode(e: Encoder): Encoding {
    match FamilyOf(e)
    case AV1Family => ModeAV1
    case H265Family => ModeHEVC
    case H264Family => ModeAVC
    case NoFamily => ModeJpegWebp
  }

  /** Message ids and streaming modes are constant within a codec family and
      tell the families apart. */
  lemma SameFamilySameIds(a: Encoder, b: Encoder)
    requires a != Unavailable && b != Unavailable
    ensures ToMsgId(a) == ToMsgId(b) <==> FamilyOf(a) == FamilyOf(b)
    ensures ToStreamingMode(a) == ToStreamingMode(b) <==> FamilyOf(a) == FamilyOf(b)
    ensures ToStreamingMode(a) != ModeJpegWebp
  {
  }

  // ---------------------------------------------------------------------
  // Codec names a user may configure

  datatype Codec =
    | CodecH264 | CodecH264Vaapi | CodecH264Nvenc
    | CodecAvc | CodecAvcVaapi | CodecAvcNvenc
    | CodecH265 | CodecH265Vaapi | CodecH265Nvenc
    | CodecHevc | CodecHevcVaapi | CodecHevcNvenc
    | CodecAv1 | CodecAv1Vaapi | CodecAv1Nvenc
    | AutoDetect
    | CodecUnavailable

  const AllCodecs: seq<Codec> := [
    CodecH264, CodecH264Vaapi, CodecH264Nvenc,
    CodecAvc, CodecAvcVaapi, CodecAvcNvenc,
    CodecH265, CodecH265Vaapi, CodecH265Nvenc,
    CodecHevc, CodecHevcVaapi, CodecHevcNvenc,
    CodecAv1, CodecAv1Vaapi, CodecAv1Nvenc,
    AutoDetect,
    CodecUnavailable]

  function CodecOrdinal(c: Codec): (n: nat)
    ensures n < |AllCodecs| && AllCodecs[n] == c
  {
    match c
    case CodecH264 => 0
    case CodecH264Vaapi => 1
    case CodecH264Nvenc => 2
    case CodecAvc => 3
    case CodecAvcVaapi => 4
    case CodecAvcNvenc => 5
    case CodecH265 => 6
    case CodecH265Vaapi => 7
    case CodecH265Nvenc => 8
    case CodecHevc => 9
    case CodecHevcVaapi => 10
    case CodecHevcNvenc => 11
    case CodecAv1 => 12
    case CodecAv1Vaapi => 13
    case CodecAv1Nvenc => 14
    case AutoDetect => 15
    case CodecUnavailable => 16
  }

  /** One name per codec except the unavailable one. */
  const CodecNames: seq<string> := [
    "h264", "h264_vaapi", "h264_nvenc",
    "avc", "avc_vaapi", "avc_nvenc",
    "h265", "h265_vaapi", "h265_nvenc",
    "hevc", "hevc_vaapi", "hevc_nvenc",
    "av1", "av1_vaapi", "av1_nvenc",
    "auto"]

  /** The name of a codec; the unavailable codec has none (the source would
      read past the end of the name table). */
  function CodecName(c: Codec): string
    requires c != CodecUnavailable
  {
    CodecNames[CodecOrdinal(c)]
  }

  /** Whether `s` is one of the first `i` names. */
  function NameScan(s: string, i: nat): (r: bool)
    requires i <= |CodecNames|
    ensures r <==> exists j :: 0 <= j < i && CodecNames[j] == s
  {
    if i == 0 then false else NameScan(s, i - 1) || CodecNames[i - 1] == s
  }

  /** A codec setting entry is supported iff it is one of the codec names. */
  function IsSupported(s: string): (r: bool)
    ensures r <==> s != "" && s in CodecNames
  {
    if s == "" then false else NameScan(s, |CodecNames|)
  }

  /** The search of get_codec, from codec `i` on. */
  function CodecScan(s: string, i: nat): (c: Codec)
    requires i <= |CodecNames|
    ensures c == CodecUnavailable || CodecName(c) == s
    ensures c == CodecUnavailable <==> forall j :: i <= j < |CodecNames| ==> CodecNames[j] != s
    decreases |CodecNames| - i
  {
    if i == |CodecNames| then CodecUnavailable
    else if CodecNames[i] == s then AllCodecs[i]
    else CodecScan(s, i + 1)
  }

  /** The codec a name denotes, `CodecUnavailable` for any other name. */
  function GetCodec(s: string): (c: Codec)
    ensures c == CodecUnavailable <==> s !in CodecNames
    ensures c != CodecUnavailable ==> CodecName(c) == s
  {
    CodecScan(s, 0)
  }

  /** Naming a codec and looking the name up gives the codec back. */
  lemma GetCodecOfName(c: Codec)
    requires c != CodecUnavailable
    ensures GetCodec(CodecName(c)) == c
  {
    var d := GetCodec(CodecName(c));
    NamesDistinct(CodecOrdinal(d), CodecOrdinal(c));
  }

  /** No two codecs share a name. */
  lemma NamesDistinct(i: nat, j: nat)
    requires i < |CodecNames| && j < |CodecNames|
    ensures CodecNames[i] == CodecNames[j] ==> i == j
  {
  }

  /** The names a codec setting accepts are the ones get_codec resolves. */
  lemma SupportedIffKnown(s: string)
    ensures IsSupported(s) <==> GetCodec(s) != CodecUnavailable
  {
  }

  /** The encoder each codec selects (the MappedCodecs table): the plain
      name the software encoder, "_vaapi" the libav VA-API encoder, "_nvenc"
      the NVENC encoder; "avc" and "hevc" are aliases of "h264" and "h265",
      and "auto" on its own stands for software H.264. */
  function MapEncoder(c: Codec): Encoder {
    match c
    case CodecH264 | CodecAvc => H264Software
    case CodecH264Vaapi | CodecAvcVaapi => H264FfmpegVaapi
    case CodecH264Nvenc | CodecAvcNvenc => H264Nvenc
    case CodecH265 | CodecHevc => H265Software
    case CodecH265Vaapi | CodecHevcVaapi => H265FfmpegVaapi
    case CodecH265Nvenc | CodecHevcNvenc => H265Nvenc
    case CodecAv1 => Av1Software
    case CodecAv1Vaapi => Av1FfmpegVaapi
    case CodecAv1Nvenc => Av1Nvenc
    case AutoDetect => H264Software
    case CodecUnavailable => Unavailable
  }

  /** Whether a codec name carries an implementation suffix ("_vaapi" or
      "_nvenc", six characters after the codec). */
  predicate HasAcceleratorSuffix(n: string) {
    |n| > 6 && n[|n| - 6] == '_'
  }

  /** A codec name selects an encoder of its own family, never a direct
      VA-API one, and a software one exactly when the name carries no
      "_vaapi"/"_nvenc" suffix. */
  lemma MapEncoderFamily(c: Codec)
    requires c != CodecUnavailable && c != AutoDetect
    ensures !IsPlainVaapi(MapEncoder(c)) && MapEncoder(c) != Unavailable
    ensures FamilyOf(MapEncoder(c)) == (if CodecOrdinal(c) < 6 then H264Family
                                        else if CodecOrdinal(c) < 12 then H265Family
                                        else AV1Family)
    ensures IsAccelerated(MapEncoder(c)) <==> HasAcceleratorSuffix(CodecName(c))
  {
  }

  // ---------------------------------------------------------------------
  // The codec setting

  /** The end of the part of `s` that holds entries: a single trailing
      separator ends the last entry instead of starting an empty one. */
  function EntriesEnd(s: string): (n: nat)
    ensures n <= |s|
  {
    if |s| > 0 && s[|s| - 1] == ',' then |s| - 1 else |s|
  }

  /** What the parser still has to produce from position `start` on. */
  function Remaining(s: string, start: nat): seq<string> {
    if start >= |s| then [] else Split(s[start..EntriesEnd(s)], ',')
  }

  /** The comma-separated codec setting as a list of entries: empty for an
      empty setting, otherwise one entry per separator plus one, except that
      a trailing separator adds nothing. */
  function Parse(s: string): (parts: seq<string>)
    ensures s == "" <==> parts == []
    ensures forall i :: 0 <= i < |parts| ==> ',' !in parts[i]
  {
    Remaining(s, 0)
  }

  /** Where the search for the separator starts inside a slice. */
  lemma FindInSlice(s: string, c: char, a: nat, b: nat)
    requires a <= b <= |s|
    ensures FindFrom(s[a..b], c, 0) == if FindFrom(s, c, a) < b then FindFrom(s, c, a) - a else b - a
  {
    var t := s[a..b];
    var j := FindFrom(t, c, 0);
    var k := FindFrom(s, c, a);
    assert forall m :: 0 <= m < |t| ==> t[m] == s[a + m];
    assert forall m :: a <= m < a + j ==> s[m] != c;
  }

  /** One round of the parser's loop produces the next entry. */
  lemma RemainingStep(s: string, start: nat, k: nat)
    requires start < |s| && k == FindFrom(s, ',', start)
    ensures Remaining(s, start) == [s[start..k]] + Remaining(s, k + 1)
  {
    if k < EntriesEnd(s) {
      InnerEntry(s, start, k);
    } else {
      LastEntry(s, start, k);
    }
  }

  /** An entry followed by a separator inside the entry part. */
  lemma InnerEntry(s: string, start: nat, k: nat)
    requires start < |s| && k == FindFrom(s, ',', start) && k < EntriesEnd(s)
    ensures Remaining(s, start) == [s[start..k]] + Remaining(s, k + 1)
  {
    var e := EntriesEnd(s);
    FindInSlice(s, ',', start, e);
    SplitAtFirst(s[start..e], ',', k - start);
    SliceParts(s, start, k, e);
    assert k + 1 < |s|;
  }

  /** Split takes the text up to the first separator as its first part. */
  lemma SplitAtFirst(t: string, c: char, j: nat)
    requires j < |t| && j == FindFrom(t, c, 0)
    ensures Split(t, c) == [t[..j]] + Split(t[j + 1..], c)
  {
  }

  /** The two pieces of a slice around position `k`. */
  lemma SliceParts(s: string, a: nat, k: nat, b: nat)
    requires a <= k < b <= |s|
    ensures s[a..b][..k - a] == s[a..k]
    ensures s[a..b][k - a + 1..] == s[k + 1..b]
  {
  }

  /** The last entry: no separator before the end of the entry part. */
  lemma LastEntry(s: string, start: nat, k: nat)
    requires start < |s| && k == FindFrom(s, ',', start) && k >= EntriesEnd(s)
    ensures Remaining(s, start) == [s[start..k]] + Remaining(s, k + 1)
  {
    var e := EntriesEnd(s);
    FindInSlice(s, ',', start, e);
    if e < |s| {
      assert s[e] == ',';
    }
    assert k == e;
  }

  /** What the source's loop produces from position `start` on: the text
      up to the next separator, or to the end, then the rest after it. */
  function LoopEntries(s: string, start: nat): seq<string>
    decreases |s| - start
  {
    if start >= |s| then []
    else
      var pos := FindFrom(s, ',', start);
      [s[start..pos]] + LoopEntries(s, pos + 1)
  }

  /** The loop's entries are the reference entries. */
  lemma {:induction false} LoopEntriesRemaining(s: string, start: nat)
    ensures LoopEntries(s, start) == Remaining(s, start)
    decreases |s| - start
  {
    if start < |s| {
      var k := FindFrom(s, ',', start);
      RemainingStep(s, start, k);
      LoopEntriesRemaining(s, k + 1);
      LoopEntriesStep(s, start, k);
    } else {
      NothingRemaining(s, start);
    }
  }

  lemma LoopEntriesStep(s: string, start: nat, k: nat)
    requires start < |s| && k == FindFrom(s, ',', start)
    ensures LoopEntries(s, start) == [s[start..k]] + LoopEntries(s, k + 1)
  {
  }

  lemma NothingRemaining(s: string, start: nat)
    requires start >= |s|
    ensures LoopEntries(s, start) == [] == Remaining(s, start)
  {
  }

  lemma Appended<T>(a: seq<T>, b: seq<T>, c: seq<T>)
    ensures a + b + c == a + (b + c)
  {
  }

  /** SupportedVideoEncoders::parse, as the source's loop computes it. */
  method ParseCodecs(s: string) returns (parts: seq<string>)
    ensures parts == Parse(s)
  {
    LoopEntriesRemaining(s, 0);
    if s == "" {
      return [];
    }
    parts := [];
    var start := 0;
    ghost var whole := LoopEntries(s, 0);
    while start < |s|
      invariant start <= |s| + 1
      invariant parts + LoopEntries(s, start) == whole
      decreases |s| + 1 - start
    {
      var pos := FindFrom(s, ',', start);
      LoopEntriesStep(s, start, pos);
      Appended(parts, [s[start..pos]], LoopEntries(s, pos + 1));
      parts := parts + [s[start..pos]];
      start := pos + 1;
    }
    assert parts + [] == parts;
  }

  /** Joining the entries with ',' gives back the setting, minus a trailing
      separator. */
  lemma ParseJoin(s: string)
    requires s != ""
    ensures Join(Parse(s), ',') == s[..EntriesEnd(s)]
  {
    JoinSplit(s[..EntriesEnd(s)], ',');
  }

  /** A trailing separator adds no empty entry. */
  lemma TrailingSeparator(s: string)
    requires s != "" && s[|s| - 1] != ','
    ensures Parse(s + [',']) == Parse(s)
  {
    assert (s + [','])[0..|s|] == s == s[0..|s|];
  }

  // ---------------------------------------------------------------------
  // From names to encoders

  /** The encoders "auto" stands for, best first. */
  const AutoCodecs: seq<Codec> := [
    CodecAv1Nvenc, CodecAv1Vaapi, CodecAv1,
    CodecH265Nvenc, CodecH265Vaapi, CodecH265,
    CodecH264Nvenc, CodecH264Vaapi, CodecH264]

  const AutoEncoders: seq<Encoder> := [
    Av1Nvenc, Av1FfmpegVaapi, Av1Software,
    H265Nvenc, H265FfmpegVaapi, H265Software,
    H264Nvenc, H264FfmpegVaapi, H264Software]

  /** "auto" is the best encoder of each family, hardware before software,
      AV1 before H.265 before H.264. */
  lemma AutoEncodersMapped()
    ensures AutoEncoders == Mapped(AutoCodecs)
    ensures NoDuplicates(AutoEncoders)
  {
    AutoEncodersDistinct();
  }

  lemma AutoEncodersDistinct()
    ensures NoDuplicates(AutoEncoders)
  {
  }

  predicate NoDuplicates<T(==)>(s: seq<T>) {
    forall i, j :: 0 <= i < j < |s| ==> s[i] != s[j]
  }

  /** `r` lists the distinct values of `s` in the order of their first
      occurrence (each occurrence of a later one comes after an occurrence
      of every earlier one); this determines `r` uniquely. */
  predicate FirstOccurrences<T(==)>(r: seq<T>, s: seq<T>) {
    && NoDuplicates(r)
    && (forall i :: 0 <= i < |r| ==> r[i] in s)
    && (forall i :: 0 <= i < |s| ==> s[i] in r)
    && (forall i, j, p :: 0 <= i < j < |r| && 0 <= p < |s| && s[p] == r[j] ==> r[i] in s[..p])
  }

  /** The codecs a list of names denotes. */
  function CodecsOf(names: seq<string>): (cs: seq<Codec>)
    ensures |cs| == |names|
    ensures forall i :: 0 <= i < |names| ==> cs[i] == GetCodec(names[i])
  {
    seq(|names|, i requires 0 <= i < |names| => GetCodec(names[i]))
  }

  predicate AutoRequested(codecs: seq<Codec>) {
    AutoDetect in codecs
  }

  /** One round of map_encoders' loop for a name other than "auto". */
  lemma FirstOccurrencesStep<T>(r: seq<T>, s: seq<T>, e: T)
    requires FirstOccurrences(r, s)
    ensures FirstOccurrences(if e in r then r else r + [e], s + [e])
  {
    var r2 := if e in r then r else r + [e];
    var s2 := s + [e];
    assert forall p :: 0 <= p < |s| ==> s2[..p] == s[..p];
    assert s2[..|s|] == s;
    forall i, j, p | 0 <= i < j < |r2| && 0 <= p < |s2| && s2[p] == r2[j]
      ensures r2[i] in s2[..p]
    {
      if p == |s| {
        assert r2[i] in s;
      }
    }
  }

  function Mapped(codecs: seq<Codec>): (m: seq<Encoder>)
    ensures |m| == |codecs|
    ensures forall i :: 0 <= i < |codecs| ==> m[i] == MapEncoder(codecs[i])
  {
    seq(|codecs|, i requires 0 <= i < |codecs| => MapEncoder(codecs[i]))
  }

  /** The distinct values of `s`, each where it first occurs. */
  function Dedup<T(==)>(s: seq<T>): seq<T> {
    if |s| == 0 then []
    else
      var d := Dedup(s[..|s| - 1]);
      if s[|s| - 1] in d then d else d + [s[|s| - 1]]
  }

  lemma DedupPrefix<T>(s: seq<T>, i: nat)
    requires i < |s|
    ensures Dedup(s[..i + 1]) == if s[i] in Dedup(s[..i]) then Dedup(s[..i]) else Dedup(s[..i]) + [s[i]]
  {
    assert s[..i + 1][..i] == s[..i];
  }

  /** Dedup keeps exactly the first occurrences. */
  lemma {:induction false} DedupFirstOccurrences<T>(s: seq<T>)
    ensures FirstOccurrences(Dedup(s), s)
  {
    if |s| > 0 {
      var init, e := s[..|s| - 1], s[|s| - 1];
      assert init + [e] == s;
      var d := Dedup(init);
      assert Dedup(s) == if e in d then d else d + [e];
      DedupFirstOccurrences(init);
      FirstOccurrencesStep(d, init, e);
    }
  }

  /** Which entries are "auto". */
  function AutoFlags(codecs: seq<Codec>): (f: seq<bool>)
    ensures |f| == |codecs|
    ensures true in f <==> AutoRequested(codecs)
  {
    var f := seq(|codecs|, i requires 0 <= i < |codecs| => codecs[i] == AutoDetect);
    if AutoDetect in codecs then
      var i :| 0 <= i < |codecs| && codecs[i] == AutoDetect;
      assert f[i];
      f
    else f
  }

  /** The loop of map_encoders, over the encoders the entries select:
      an entry flagged in `stops` (an "auto" entry) ends the walk with
      `fallback`; every other entry adds its value unless already listed. */
  method DedupUntil<T(==)>(stops: seq<bool>, s: seq<T>, fallback: seq<T>) returns (r: seq<T>)
    requires |stops| == |s|
    ensures true in stops ==> r == fallback
    ensures true !in stops ==> r == Dedup(s)
  {
    r := [];
    var i := 0;
    while i < |s|
      invariant i <= |s|
      invariant true !in stops[..i]
      invariant r == Dedup(s[..i])
    {
      if stops[i] {
        return fallback;
      }
      var e := s[i];
      DedupPrefix(s, i);
      assert stops[..i + 1] == stops[..i] + [false];
      if e !in r {
        r := r + [e];
      }
      i := i + 1;
    }
    PrefixAll(s);
    PrefixAll(stops);
  }

  lemma PrefixAll<T>(s: seq<T>)
    ensures s[..|s|] == s
  {
  }

  /** SupportedVideoEncoders::map_encoders: an "auto" entry selects the
      fixed preference list; otherwise every name selects its encoder once,
      in the order the names first ask for it.  Unknown names select the
      unavailable encoder, which is listed like any other. */
  method MapEncoders(names: seq<string>) returns (r: seq<Encoder>)
    ensures "auto" in names ==> r == AutoEncoders
    ensures "auto" !in names ==> FirstOccurrences(r, Mapped(CodecsOf(names)))
  {
    var codecs := CodecsOf(names);
    AutoByName(names);
    var stops := AutoFlags(codecs);
    r := DedupUntil(stops, Mapped(codecs), AutoEncoders);
    DedupFirstOccurrences(Mapped(codecs));
  }

  /** Only the name "auto" denotes the auto-detect codec. */
  lemma AutoByName(names: seq<string>)
    ensures AutoRequested(CodecsOf(names)) <==> "auto" in names
  {
    var cs := CodecsOf(names);
    if AutoDetect in cs {
      var i :| 0 <= i < |cs| && cs[i] == AutoDetect;
      assert CodecName(AutoDetect) == "auto";
    }
    if "auto" in names {
      var i :| 0 <= i < |names| && names[i] == "auto";
      GetCodecOfName(AutoDetect);
    }
  }

  // ---------------------------------------------------------------------
  // Available encoders

  /** `a` is `b` with some elements left out. */
  predicate IsSubsequence<T(==)>(a: seq<T>, b: seq<T>)
    decreases |b|
  {
    if |a| == 0 then true
    else if |b| == 0 then false
    else (a[0] == b[0] && IsSubsequence(a[1..], b[1..])) || IsSubsequence(a, b[1..])
  }

  /** SupportedVideoEncoders::filter_available_encoders: the available
      encoders that were asked for, in the order of availability. */
  function FilterAvailable(wanted: seq<Encoder>, available: seq<Encoder>): (r: seq<Encoder>)
    ensures IsSubsequence(r, available)
    ensures forall e :: multiset(r)[e] == if e in wanted then multiset(available)[e] else 0
  {
    if |available| == 0 then []
    else
      var rest := FilterAvailable(wanted, available[1..]);
      assert available == [available[0]] + available[1..];
      if available[0] in wanted then [available[0]] + rest else rest
  }
}
