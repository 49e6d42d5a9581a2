/** The per-screen video encoders: how a frame's parameters are derived from
    the screen and the server settings, when the codec is rebuilt, the
    steps of a render, and the bytes a frame or a skip marker puts on the
    wire.  Every libav call (initialisation, scaling, upload to the GPU
    surface, send, receive) is an oracle outcome supplied per frame. */
module VideoFraming {
  import opened Outcome
  import opened KasmVideo
  import opened ScreenSets
  import Wire
  import Compact

  /** `w & ~1` on an odd C int: clearing bit 0 of a two's-complement value
      subtracts one, for negative values too. */
  function EvenDown(w: int): (r: int)
    ensures r % 2 == 0 && r <= w && w - r <= 1
    ensures w % 2 == 0 ==> r == w
  {
    if w % 2 != 0 then w - 1 else w
  }

  /** The server-wide settings read on every frame. */
  datatype Settings = Settings(frameRate: int, groupOfPicture: int, quality: int)

  /** VideoEncoderParams: the encoded size and the three settings, each
      converted to uint8_t. */
  datatype Params = Params(width: int, height: int, frameRate: Wire.Byte, groupOfPicture: Wire.Byte, quality: Wire.Byte)

  /** The parameters a frame of `screen` asks for. */
  function FrameParams(screen: Screen, cfg: Settings): (p: Params)
    ensures p.width % 2 == 0 && p.width <= screen.dimensions.Width() && screen.dimensions.Width() - p.width <= 1
    ensures p.height % 2 == 0 && p.height <= screen.dimensions.Height() && screen.dimensions.Height() - p.height <= 1
    ensures p.frameRate == cfg.frameRate % 0x100 && p.groupOfPicture == cfg.groupOfPicture % 0x100
    ensures p.quality == cfg.quality % 0x100
  {
    Params(EvenDown(screen.dimensions.Width()), EvenDown(screen.dimensions.Height()),
           cfg.frameRate % 0x100, cfg.groupOfPicture % 0x100, cfg.quality % 0x100)
  }

  /** An encoded packet: its bytes and whether it is a key frame. */
  datatype Packet = Packet(data: seq<Wire.Byte>, key: bool)

  /** What avcodec_receive_packet reports. */
  datatype Receive = Got(packet: Packet) | Again | EndOfStream | Failed

  /** The outcome of each libav step for one frame. `transferOk` is only
      consulted by the VA-API encoder; `second` is the receive after the
      one retry. */
  datatype Libav = Libav(initOk: bool, scaleOk: bool, transferOk: bool, sendOk: bool, first: Receive, second: Receive)

  /** The packet a render ends with: a first receive that asks to try again
      or reports the end of the stream is retried exactly once. */
  function Received(lib: Libav): (r: Receive)
    ensures lib.first.Got? ==> r == lib.first
    ensures r.Got? <==> lib.first.Got? || ((lib.first.Again? || lib.first.EndOfStream?) && lib.second.Got?)
  {
    if lib.first.Again? || lib.first.EndOfStream? then lib.second else lib.first
  }

  /** SoftwareEncoder, FFMPEGVAAPIEncoder, and the older H264SoftwareEncoder
      that renders and writes in one call. */
  datatype Backend = SoftwareBackend | VaapiBackend | H264Backend

  /** The state of one encoder; `msgId` is fixed when it is made. */
  datatype VideoEncoder = VideoEncoder(backend: Backend, screen: Screen, msgId: Wire.Byte, params: Params, pts: int)

  /** The constructor: the message id from the encoder's codec family, the
      presentation counter at zero. */
  function NewEncoder(backend: Backend, screen: Screen, e: Encoder, params: Params): (v: VideoEncoder)
    requires e != Unavailable
    ensures v.msgId == ToMsgId(e) && v.msgId != KasmVideoSkip
    ensures v.pts == 0 && v.params == params && v.screen == screen && v.backend == backend
  {
    VideoEncoder(backend, screen, ToMsgId(e), params, 0)
  }

  // ---------------------------------------------------------------------
  // Wire format

  /** writeU8 of an unsigned int: the low eight bits. */
  function U8(v: nat): (b: Wire.Byte)
    ensures v < 0x100 ==> b == v
  {
    v % 0x100
  }

  /** writeRect of SoftwareEncoder and FFMPEGVAAPIEncoder. */
  function FrameBytes(enc: VideoEncoder, pkt: Packet): (r: seq<Wire.Byte>)
    requires |pkt.data| <= Compact.IntMax
    ensures |r| == 3 + |Compact.WriteCompact(|pkt.data|)| + |pkt.data|
    ensures r[0] == U8(enc.screen.id) && r[1] == enc.msgId && r[2] == (if pkt.key then 1 else 0)
    ensures r[|r| - |pkt.data|..] == pkt.data
  {
    [U8(enc.screen.id), enc.msgId, if pkt.key then 1 else 0] + Compact.WriteCompact(|pkt.data|) + pkt.data
  }

  /** writeSkipRect of SoftwareEncoder and FFMPEGVAAPIEncoder. */
  function SkipBytes(enc: VideoEncoder): (r: seq<Wire.Byte>)
    ensures |r| == 2 && r[0] == U8(enc.screen.id) && r[1] == KasmVideoSkip
  {
    [U8(enc.screen.id), KasmVideoSkip]
  }

  /** What a client reads from the per-screen stream. */
  datatype VideoRect = SkipRect(screen: Wire.Byte) | FrameRect(screen: Wire.Byte, codec: Wire.Byte, key: bool, data: seq<Wire.Byte>)

  /** The client's reader: screen id, codec id, and for anything but the
      skip id a key flag, a compact length and that many bytes.  Returns
      the rectangle and the number of bytes it took. */
  function ReadVideoRect(s: seq<Wire.Byte>): (r: Option<(VideoRect, nat)>)
    ensures r.Some? ==> 2 <= r.value.1 <= |s|
    ensures r.Some? ==> r.value.0.screen == s[0]
    ensures r.Some? ==> (r.value.0.SkipRect? <==> s[1] == KasmVideoSkip)
  {
    if |s| < 2 then None
    else if s[1] == KasmVideoSkip then Some((SkipRect(s[0]), 2))
    else if |s| < 3 then None
    else
      match Compact.ReadCompact(s[3..])
      case None => None
      case Some(d) =>
        var start := 3 + d.used;
        if |s| - start < d.value then None
        else Some((FrameRect(s[0], s[1], s[2] != 0, s[start..start + d.value]), start + d.value))
  }

  /** A frame written by the encoder reads back as that frame. */
  lemma FrameRoundTrip(enc: VideoEncoder, pkt: Packet, rest: seq<Wire.Byte>)
    requires |pkt.data| < Compact.CompactLimit
    requires enc.msgId != KasmVideoSkip
    ensures var w := FrameBytes(enc, pkt);
            ReadVideoRect(w + rest) == Some((FrameRect(U8(enc.screen.id), enc.msgId, pkt.key, pkt.data), |w|))
  {
    var w := FrameBytes(enc, pkt);
    var c := Compact.WriteCompact(|pkt.data|);
    assert (w + rest)[3..] == c + (pkt.data + rest);
    Compact.RoundTrip(|pkt.data|, pkt.data + rest);
    var start := 3 + |c|;
    assert (w + rest)[start..start + |pkt.data|] == pkt.data;
  }

  /** A skip marker reads back as a skip of the same screen. */
  lemma SkipRoundTrip(enc: VideoEncoder, rest: seq<Wire.Byte>)
    ensures ReadVideoRect(SkipBytes(enc) + rest) == Some((SkipRect(U8(enc.screen.id)), 2))
  {
  }

  // ---------------------------------------------------------------------
  // H264SoftwareEncoder framing

  /** The first byte of an H264SoftwareEncoder frame as written:
      kasmVideoH264 << 4 passed to writeU8. */
  function H264HeaderAsWritten(): (b: Wire.Byte)
    ensures b == KasmVideoSkip
  {
    U8(KasmVideoH264 * 16)
  }

  /** The first byte the message ids call for: kasmVideoH264 is already
      shifted into the high nibble. */
  function H264Header(): (b: Wire.Byte)
    ensures b != KasmVideoSkip && b == ToMsgId(H264Software)
  {
    KasmVideoH264
  }

  /** H264SoftwareEncoder's frame with a given header byte: no screen id,
      then key flag, compact length and payload. */
  function H264Frame(header: Wire.Byte, pkt: Packet): (r: seq<Wire.Byte>)
    requires |pkt.data| <= Compact.IntMax
    ensures |r| == 2 + |Compact.WriteCompact(|pkt.data|)| + |pkt.data|
    ensures r[0] == header && r[1] == (if pkt.key then 1 else 0)
  {
    [header, if pkt.key then 1 else 0] + Compact.WriteCompact(|pkt.data|) + pkt.data
  }

  /** H264SoftwareEncoder::writeSkipRect: kasmVideoSkip << 4, one byte. */
  function H264SkipBytes(): (r: seq<Wire.Byte>)
    ensures r == [KasmVideoSkip]
  {
    [U8(KasmVideoSkip * 16)]
  }

  /** The reader for that stream: the skip byte alone, or a frame. */
  function ReadH264Rect(s: seq<Wire.Byte>): (r: Option<(VideoRect, nat)>)
    ensures r.Some? ==> 1 <= r.value.1 <= |s|
    ensures r.Some? ==> (r.value.0.SkipRect? <==> s[0] == KasmVideoSkip)
  {
    if |s| < 1 then None
    else if s[0] == KasmVideoSkip then Some((SkipRect(0), 1))
    else if |s| < 2 then None
    else
      match Compact.ReadCompact(s[2..])
      case None => None
      case Some(d) =>
        var start := 2 + d.used;
        if |s| - start < d.value then None
        else Some((FrameRect(0, s[0], s[1] != 0, s[start..start + d.value]), start + d.value))
  }

  /** As written, every H.264 frame starts with the skip byte, so the
      reader takes it for a one-byte skip marker and then misreads the key
      flag as the next rectangle. */
  lemma H264FrameReadsAsSkip(pkt: Packet, rest: seq<Wire.Byte>)
    requires |pkt.data| <= Compact.IntMax
    ensures H264Frame(H264HeaderAsWritten(), pkt)[0] == H264SkipBytes()[0]
    ensures ReadH264Rect(H264Frame(H264HeaderAsWritten(), pkt) + rest) == Some((SkipRect(0), 1))
  {
  }

  /** With the unshifted id the frame reads back whole. */
  lemma H264FrameRoundTrip(pkt: Packet, rest: seq<Wire.Byte>)
    requires |pkt.data| < Compact.CompactLimit
    ensures var w := H264Frame(H264Header(), pkt);
            ReadH264Rect(w + rest) == Some((FrameRect(0, KasmVideoH264, pkt.key, pkt.data), |w|))
  {
    var w := H264Frame(H264Header(), pkt);
    var c := Compact.WriteCompact(|pkt.data|);
    assert (w + rest)[2..] == c + (pkt.data + rest);
    Compact.RoundTrip(|pkt.data|, pkt.data + rest);
    var start := 2 + |c|;
    assert (w + rest)[start..start + |pkt.data|] == pkt.data;
  }

  // ---------------------------------------------------------------------
  // Rendering

  /** The encoder after a render, the packet if one was received, the
      bytes written to the stream, and whether init ran. */
  datatype Rendered = Rendered(enc: VideoEncoder, packet: Option<Packet>, out: seq<Wire.Byte>, initRan: bool)

  /** What a failed receive writes: a skip marker for SoftwareEncoder and
      H264SoftwareEncoder, nothing for FFMPEGVAAPIEncoder. */
  function ReceiveFailure(enc: VideoEncoder): (r: seq<Wire.Byte>)
    ensures enc.backend == VaapiBackend <==> r == []
  {
    match enc.backend
    case SoftwareBackend => SkipBytes(enc)
    case VaapiBackend => []
    case H264Backend => H264SkipBytes()
  }

  /** render (the first half of H264SoftwareEncoder::writeRect): rebuild the
      codec if the parameters changed (init stores them before it can
      fail), scale, stamp the frame, upload it (VA-API only), send, and
      receive with one retry. */
  function Render(enc: VideoEncoder, cfg: Settings, lib: Libav): (r: Rendered)
    ensures r.initRan <==> enc.params != FrameParams(enc.screen, cfg)
    ensures r.enc == enc.(params := FrameParams(enc.screen, cfg), pts := r.enc.pts)
    ensures r.enc.pts == (if (!r.initRan || lib.initOk) && lib.scaleOk then enc.pts + 1 else enc.pts)
    ensures r.packet.Some? <==>
              (!r.initRan || lib.initOk) && lib.scaleOk && (enc.backend != VaapiBackend || lib.transferOk)
              && lib.sendOk && Received(lib).Got?
    ensures r.packet.Some? ==> r.packet == Some(Received(lib).packet) && r.out == []
    ensures r.out != [] <==>
              enc.backend != VaapiBackend && (!r.initRan || lib.initOk) && lib.scaleOk && lib.sendOk
              && !Received(lib).Got?
    ensures r.out != [] ==> r.out == ReceiveFailure(enc)
  {
    var p := FrameParams(enc.screen, cfg);
    var initRan := enc.params != p;
    var e1 := enc.(params := p);
    if initRan && !lib.initOk then Rendered(e1, None, [], initRan)
    else if !lib.scaleOk then Rendered(e1, None, [], initRan)
    else
      var e2 := e1.(pts := e1.pts + 1);
      if enc.backend == VaapiBackend && !lib.transferOk then Rendered(e2, None, [], initRan)
      else if !lib.sendOk then Rendered(e2, None, [], initRan)
      else match Received(lib)
        case Got(pkt) => Rendered(e2, Some(pkt), [], initRan)
        case _ => Rendered(e2, None, ReceiveFailure(enc), initRan)
  }

  /** A failed init still stores the parameters, so the next frame of the
      same screen does not try again. */
  lemma FailedInitNotRetried(enc: VideoEncoder, cfg: Settings, lib: Libav, next: Libav)
    requires enc.params != FrameParams(enc.screen, cfg) && !lib.initOk
    ensures Render(enc, cfg, lib).packet == None
    ensures !Render(Render(enc, cfg, lib).enc, cfg, next).initRan
  {
  }

  /** H264SoftwareEncoder::writeRect with a given header byte: a render,
      then the frame when a packet came out, else what the render wrote. */
  function WriteRectWith(header: Wire.Byte, enc: VideoEncoder, cfg: Settings, lib: Libav): (VideoEncoder, seq<Wire.Byte>)
    requires Received(lib).Got? ==> |Received(lib).packet.data| <= Compact.IntMax
  {
    var rendered := Render(enc, cfg, lib);
    match rendered.packet
    case Some(pkt) => (rendered.enc, H264Frame(header, pkt))
    case None => (rendered.enc, rendered.out)
  }

  /** H264SoftwareEncoder::writeRect as written: every frame it sends starts
      with the truncated header byte, so the client reads a one-byte skip
      where a frame was sent. */
  function H264WriteRect(enc: VideoEncoder, cfg: Settings, lib: Libav): (r: (VideoEncoder, seq<Wire.Byte>))
    requires enc.backend == H264Backend
    requires Received(lib).Got? ==> |Received(lib).packet.data| <= Compact.IntMax
    ensures r.0 == Render(enc, cfg, lib).enc
    ensures Render(enc, cfg, lib).packet.Some? ==>
              r.1 == H264Frame(H264HeaderAsWritten(), Received(lib).packet)
              && forall rest :: ReadH264Rect(r.1 + rest) == Some((SkipRect(0), 1))
    ensures Render(enc, cfg, lib).packet.None? ==> r.1 == [] || r.1 == H264SkipBytes()
  {
    var r := WriteRectWith(H264HeaderAsWritten(), enc, cfg, lib);
    WrittenReads(r.1, H264HeaderAsWritten(), enc, cfg, lib);
    r
  }

  /** writeRect with the unshifted message id: a frame reads back whole as
      that frame, and a failed render leaves nothing or a skip. */
  function H264WriteRectCorrected(enc: VideoEncoder, cfg: Settings, lib: Libav): (r: (VideoEncoder, seq<Wire.Byte>))
    requires enc.backend == H264Backend
    requires Received(lib).Got? ==> |Received(lib).packet.data| <= Compact.IntMax
    ensures r.0 == Render(enc, cfg, lib).enc
    ensures Render(enc, cfg, lib).packet.Some? ==> r.1 == H264Frame(H264Header(), Received(lib).packet)
    ensures Render(enc, cfg, lib).packet.Some? && |Received(lib).packet.data| < Compact.CompactLimit ==>
              var pkt := Received(lib).packet;
              forall rest :: ReadH264Rect(r.1 + rest) == Some((FrameRect(0, KasmVideoH264, pkt.key, pkt.data), |r.1|))
    ensures Render(enc, cfg, lib).packet.None? ==>
              r.1 == [] || forall rest :: ReadH264Rect(r.1 + rest) == Some((SkipRect(0), 1))
  {
    var r := WriteRectWith(H264Header(), enc, cfg, lib);
    WrittenReads(r.1, H264Header(), enc, cfg, lib);
    r
  }

  /** How the client reads what writeRect sent with a given header byte. */
  lemma WrittenReads(w: seq<Wire.Byte>, header: Wire.Byte, enc: VideoEncoder, cfg: Settings, lib: Libav)
    requires enc.backend == H264Backend
    requires Received(lib).Got? ==> |Received(lib).packet.data| <= Compact.IntMax
    requires w == WriteRectWith(header, enc, cfg, lib).1
    requires header == H264Header() || header == H264HeaderAsWritten()
    ensures Render(enc, cfg, lib).packet.Some? && header == H264HeaderAsWritten() ==>
              forall rest :: ReadH264Rect(w + rest) == Some((SkipRect(0), 1))
    ensures Render(enc, cfg, lib).packet.Some? && header == H264Header()
            && |Received(lib).packet.data| < Compact.CompactLimit ==>
              var pkt := Received(lib).packet;
              forall rest :: ReadH264Rect(w + rest) == Some((FrameRect(0, KasmVideoH264, pkt.key, pkt.data), |w|))
    ensures Render(enc, cfg, lib).packet.None? ==>
              w == [] || forall rest :: ReadH264Rect(w + rest) == Some((SkipRect(0), 1))
  {
    if Render(enc, cfg, lib).packet.Some? {
      var pkt := Received(lib).packet;
      if header == H264HeaderAsWritten() {
        forall rest ensures ReadH264Rect(w + rest) == Some((SkipRect(0), 1)) {
          H264FrameReadsAsSkip(pkt, rest);
        }
      } else if |pkt.data| < Compact.CompactLimit {
        forall rest ensures ReadH264Rect(w + rest) == Some((FrameRect(0, KasmVideoH264, pkt.key, pkt.data), |w|)) {
          H264FrameRoundTrip(pkt, rest);
        }
      }
    } else if w != [] {
      forall rest ensures ReadH264Rect(w + rest) == Some((SkipRect(0), 1)) {
        assert (w + rest)[0] == KasmVideoSkip;
      }
    }
  }

  // ---------------------------------------------------------------------
  // A run of frames

  /** The encoder after a run of frames and how often init ran. */
  datatype Run = Run(enc: VideoEncoder, inits: nat, packets: nat)

  function RunFrames(enc: VideoEncoder, cfg: Settings, libs: seq<Libav>): (r: Run)
    ensures r.enc.pts <= enc.pts + |libs| && enc.pts <= r.enc.pts
    ensures r.packets <= |libs|
    decreases |libs|
  {
    if |libs| == 0 then Run(enc, 0, 0)
    else
      var first := Render(enc, cfg, libs[0]);
      var rest := RunFrames(first.enc, cfg, libs[1..]);
      Run(rest.enc, rest.inits + (if first.initRan then 1 else 0),
          rest.packets + (if first.packet.Some? then 1 else 0))
  }

  /** With the screen and the settings fixed, init runs at most once in a
      run, and only on its first frame when the parameters differ. */
  lemma {:induction false} InitAtMostOnce(enc: VideoEncoder, cfg: Settings, libs: seq<Libav>)
    ensures RunFrames(enc, cfg, libs).inits == (if |libs| > 0 && enc.params != FrameParams(enc.screen, cfg) then 1 else 0)
    decreases |libs|
  {
    if |libs| > 0 {
      var first := Render(enc, cfg, libs[0]);
      InitAtMostOnce(first.enc, cfg, libs[1..]);
    }
  }

  /** The presentation counter advances once per frame that got past
      scaling, and every packet came from such a frame. */
  lemma {:induction false} PacketsNeedPts(enc: VideoEncoder, cfg: Settings, libs: seq<Libav>)
    ensures RunFrames(enc, cfg, libs).packets <= RunFrames(enc, cfg, libs).enc.pts - enc.pts
    decreases |libs|
  {
    if |libs| > 0 {
      var first := Render(enc, cfg, libs[0]);
      PacketsNeedPts(first.enc, cfg, libs[1..]);
    }
  }
}
