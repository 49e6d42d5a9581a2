/** The builder that validates the parameters of an H.264 video encoder and
    the dispatch from an encoder choice to a builder.  Pointers become
    optional handles; constructing the encoder itself is the record of what
    it was built from. */
module EncoderFactory {
  import opened Outcome
  import opened KasmVideo
  import Input

  /** The implementation a builder makes. */
  datatype Implementation = FfmpegVaapiH264 | VaapiH264 | SoftwareH264

  /** Every implementation but the direct VA-API one runs on libav. */
  predicate FfmpegBased(k: Implementation) {
    k != VaapiH264
  }

  /** Opaque handles for the libav loader and the client connection. */
  type FfmpegRef = nat
  type ConnRef = nat

  /** The largest uint32_t, which marks an id that was never set. */
  const NoId: Input.U32 := 0xFFFF_FFFF

  datatype Builder = Builder(
    impl: Implementation,
    id: Input.U32,
    ffmpeg: Option<FfmpegRef>,
    frameRate: int,
    bitRate: int,
    conn: Option<ConnRef>)

  /** What a successful build constructs; the direct VA-API encoder takes
      neither an id nor the libav loader. */
  datatype Built = Built(
    impl: Implementation,
    id: Option<Input.U32>,
    ffmpeg: Option<FfmpegRef>,
    conn: ConnRef,
    frameRate: int,
    bitRate: int)

  function Create(impl: Implementation, ffmpeg: Option<FfmpegRef>): (b: Builder)
    ensures b.id == NoId && b.conn == None && b.frameRate == 0 && b.bitRate == 0
    ensures b.impl == impl && b.ffmpeg == ffmpeg
  {
    Builder(impl, NoId, ffmpeg, 0, 0, None)
  }

  function WithFrameRate(b: Builder, v: int): (r: Builder)
    ensures r.frameRate == v
    ensures r.impl == b.impl && r.id == b.id && r.ffmpeg == b.ffmpeg && r.bitRate == b.bitRate && r.conn == b.conn
  {
    b.(frameRate := v)
  }

  function WithBitRate(b: Builder, v: int): (r: Builder)
    ensures r.bitRate == v
    ensures r.impl == b.impl && r.id == b.id && r.ffmpeg == b.ffmpeg && r.frameRate == b.frameRate && r.conn == b.conn
  {
    b.(bitRate := v)
  }

  function WithConnection(b: Builder, v: Option<ConnRef>): (r: Builder)
    ensures r.conn == v
    ensures r.impl == b.impl && r.id == b.id && r.ffmpeg == b.ffmpeg && r.frameRate == b.frameRate && r.bitRate == b.bitRate
  {
    b.(conn := v)
  }

  function WithId(b: Builder, v: Input.U32): (r: Builder)
    ensures r.id == v
    ensures r.impl == b.impl && r.conn == b.conn && r.ffmpeg == b.ffmpeg && r.frameRate == b.frameRate && r.bitRate == b.bitRate
  {
    b.(id := v)
  }

  /** H264EncoderBuilder::build: the id must have been set, a connection
      given, and a libav loader for the libav-based implementations. */
  function Build(b: Builder): (r: Result<Built>)
    ensures r.Err? <==> b.id == NoId || b.conn == None || (FfmpegBased(b.impl) && b.ffmpeg == None)
    ensures b.id == NoId ==> r == Err(NoValidId)
    ensures b.id != NoId && b.conn == None ==> r == Err(ConnectionRequired)
    ensures r.Ok? ==> r.value.impl == b.impl && r.value.conn == b.conn.value
                      && r.value.frameRate == b.frameRate && r.value.bitRate == b.bitRate
    ensures r.Ok? && FfmpegBased(b.impl) ==> r.value.id == Some(b.id) && r.value.ffmpeg == b.ffmpeg
    ensures r.Ok? && !FfmpegBased(b.impl) ==> r.value.id == None && r.value.ffmpeg == None
  {
    if b.id == NoId then Err(NoValidId)
    else if b.conn == None then Err(ConnectionRequired)
    else if FfmpegBased(b.impl) then
      if b.ffmpeg == None then Err(FfmpegRequired)
      else Ok(Built(b.impl, Some(b.id), b.ffmpeg, b.conn.value, b.frameRate, b.bitRate))
    else Ok(Built(b.impl, None, None, b.conn.value, b.frameRate, b.bitRate))
  }

  /** The order in which the setters run does not matter for the build. */
  lemma SetterOrderIrrelevant(b: Builder, id: Input.U32, conn: Option<ConnRef>, fr: int, br: int)
    ensures Build(WithBitRate(WithFrameRate(WithConnection(WithId(b, id), conn), fr), br))
         == Build(WithId(WithConnection(WithFrameRate(WithBitRate(b, br), fr), conn), id))
  {
  }

  /** The implementation the factory picks for an encoder choice: both
      VA-API H.264 choices go to the libav VA-API builder (the direct VA-API
      builder is disabled), everything else to the software builder. */
  function ImplementationFor(e: Encoder): (k: Implementation)
    ensures k != VaapiH264
    ensures k == FfmpegVaapiH264 <==> (e == H264Vaapi || e == H264FfmpegVaapi)
  {
    match e
    case H264Vaapi | H264FfmpegVaapi => FfmpegVaapiH264
    case _ => SoftwareH264
  }

  /** create_encoder: the chosen builder with all four setters applied. */
  function CreateEncoder(id: Input.U32, ffmpeg: Option<FfmpegRef>, e: Encoder, conn: Option<ConnRef>,
                         frameRate: int, bitRate: int): (r: Result<Built>)
    requires 0 <= frameRate < 0x100 && 0 <= bitRate < 0x1_0000
    ensures r.Err? <==> id == NoId || conn == None || ffmpeg == None
    ensures r.Ok? ==> r.value == Built(ImplementationFor(e), Some(id), ffmpeg, conn.value, frameRate, bitRate)
  {
    Build(WithBitRate(WithFrameRate(WithConnection(WithId(Create(ImplementationFor(e), ffmpeg), id), conn), frameRate), bitRate))
  }

  /** Every encoder choice outside the H.264 VA-API pair, AV1 and H.265
      included, is built by the software H.264 encoder. */
  lemma OthersGetSoftware(e: Encoder, id: Input.U32, ffmpeg: Option<FfmpegRef>, conn: Option<ConnRef>, fr: int, br: int)
    requires 0 <= fr < 0x100 && 0 <= br < 0x1_0000
    requires e != H264Vaapi && e != H264FfmpegVaapi
    requires CreateEncoder(id, ffmpeg, e, conn, fr, br).Ok?
    ensures CreateEncoder(id, ffmpeg, e, conn, fr, br).value.impl == SoftwareH264
  {
  }
}
