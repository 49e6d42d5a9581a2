/** The server-to-client message writer (rfb/SMsgWriter.cxx): fences,
    end-of-continuous-updates, and the framing of FramebufferUpdate messages
    (section 7.6.1 of RFC 6143) with their pseudo-rectangles.

    The writer keeps three counters (rectangles written in the current
    update, data rectangles among them, and the count declared in the
    header), a set of pending pseudo-rectangles and a queue of
    ExtendedDesktopSize replies.  Output goes to the main stream `os` or,
    when the client negotiated UDP, data rectangles go to `udp`. */
module MsgWriter {
  import opened Outcome
  import opened Wire
  import opened Region
  import opened ScreenSets

  const LedUnknown: int := -1

  /** The cursor image as the connection holds it: `rgba` is the 4-bytes-per-
      pixel buffer, `converted` the same image already converted to the
      client's pixel format, `bitmap` and `mask` the 1-bit planes. */
  datatype Cursor = Cursor(width: int, height: int, hotX: int, hotY: int,
                           rgba: seq<Byte>, converted: seq<Byte>,
                           bitmap: seq<Byte>, mask: seq<Byte>)

  /** What the writer reads from the connection parameters. */
  datatype ConnParams = ConnParams(
    supportsFence: bool,
    supportsContinuousUpdates: bool,
    supportsDesktopResize: bool,
    supportsExtendedDesktopSize: bool,
    supportsDesktopRename: bool,
    supportsLocalCursor: bool,
    supportsLocalXCursor: bool,
    supportsLocalCursorWithAlpha: bool,
    supportsVMWareCursor: bool,
    /** supportsEncoding(pseudoEncodingVMwareCursorPosition) */
    supportsCursorPosition: bool,
    supportsLEDState: bool,
    supportsQEMUKeyEvent: bool,
    supportsUdp: bool,
    width: int,
    height: int,
    name: string,
    ledState: int,
    cursor: Cursor,
    cursorX: int,
    cursorY: int,
    screenLayout: ScreenSet)

  /** The pseudo-rectangles a writer can have pending (its need* flags). */
  datatype Pseudo =
    | DesktopSize
    | ExtendedDesktopSize
    | DesktopName
    | SetCursor
    | SetXCursor
    | CursorWithAlpha
    | VMwareCursor
    | CursorPos
    | LEDState
    | QEMUKeyEvent

  /** A queued ExtendedDesktopSize reply. */
  datatype EdsMsg = EdsMsg(reason: int, result: int, fbWidth: int, fbHeight: int, layout: ScreenSet)

  datatype Writer = Writer(
    nRectsInUpdate: int,
    dataRectsInUpdate: int,
    nRectsInHeader: int,
    pending: set<Pseudo>,
    edsQueue: seq<EdsMsg>,
    os: seq<Tok>,
    udp: seq<Tok>)

  /** A freshly constructed writer: all counters zero, nothing pending. */
  function NewWriter(): (w: Writer)
    ensures w.pending == {} && w.edsQueue == [] && !NeedFakeUpdate(w)
    ensures w.nRectsInUpdate == 0 && w.dataRectsInUpdate == 0 && w.nRectsInHeader == 0
  {
    Writer(0, 0, 0, {}, [], [], [])
  }

  // ---------------------------------------------------------------------
  // Fences and end of continuous updates

  predicate KnownFenceFlags(flags: bv32) {
    flags & !FenceFlagsSupported == 0
  }

  /** Reads back a ServerFence message from the tokens it occupies. */
  function DecodeFence(toks: seq<Tok>): Option<(nat, seq<Byte>)>
  {
    if |toks| >= 4 && toks[0] == U8(MsgServerFence) && toks[1] == Pad(3)
       && toks[2].U32? && toks[3].U8?
    then
      if toks[3].v == 0 && |toks| == 4 then Some((toks[2].v, []))
      else if toks[3].v > 0 && |toks| == 5 && toks[4].Blob? && |toks[4].bytes| == toks[3].v
      then Some((toks[2].v, toks[4].bytes))
      else None
    else None
  }

  /** SMsgWriter::writeFence: three refusals, otherwise type, 3 bytes of
      padding, the flags, the payload length and exactly that many bytes. */
  function WriteFence(w: Writer, cp: ConnParams, flags: bv32, data: seq<Byte>): (r: Result<Writer>)
    ensures r.Err? <==> !cp.supportsFence || |data| > 64 || !KnownFenceFlags(flags)
    ensures r.Err? ==> r.error == (if !cp.supportsFence then FenceUnsupported
                                   else if |data| > 64 then FencePayloadTooLarge
                                   else UnknownFenceFlags)
    ensures r.Ok? ==> |r.value.os| > |w.os| && r.value.os[..|w.os|] == w.os
                      && DecodeFence(r.value.os[|w.os|..]) == Some((flags as int, data))
                      && r.value == w.(os := r.value.os)
  {
    if !cp.supportsFence then Err(FenceUnsupported)
    else if |data| > 64 then Err(FencePayloadTooLarge)
    else if !KnownFenceFlags(flags) then Err(UnknownFenceFlags)
    else
      var msg := [WU8(MsgServerFence), Pad(3), WU32(flags as int), WU8(|data|)]
                 + (if |data| > 0 then [Blob(data)] else []);
      assert (w.os + msg)[|w.os|..] == msg;
      Ok(w.(os := w.os + msg))
  }

  /** SMsgWriter::writeEndOfContinuousUpdates. */
  function WriteEndOfContinuousUpdates(w: Writer, cp: ConnParams): (r: Result<Writer>)
    ensures r.Err? <==> !cp.supportsContinuousUpdates
    ensures r.Err? ==> r.error == ContinuousUpdatesUnsupported
    ensures r.Ok? ==> r.value == w.(os := w.os + [U8(MsgEndOfContinuousUpdates)])
  {
    if !cp.supportsContinuousUpdates then Err(ContinuousUpdatesUnsupported)
    else Ok(w.(os := w.os + [WU8(MsgEndOfContinuousUpdates)]))
  }

  // ---------------------------------------------------------------------
  // Capability-gated requests for pseudo-rectangles

  /** The client capability each pseudo-rectangle needs. */
  predicate Capable(cp: ConnParams, k: Pseudo) {
    match k
    case DesktopSize => cp.supportsDesktopResize
    case ExtendedDesktopSize => cp.supportsExtendedDesktopSize
    case DesktopName => cp.supportsDesktopRename
    case SetCursor => cp.supportsLocalCursor
    case SetXCursor => cp.supportsLocalXCursor
    case CursorWithAlpha => cp.supportsLocalCursorWithAlpha
    case VMwareCursor => cp.supportsVMWareCursor
    case CursorPos => cp.supportsCursorPosition
    case LEDState => cp.supportsLEDState
    case QEMUKeyEvent => cp.supportsQEMUKeyEvent
  }

  /** Whether the rectangle writer for `k` accepts to write it: the capability,
      and for LED state also a known LED state. */
  predicate Writable(cp: ConnParams, k: Pseudo) {
    Capable(cp, k) && (k == LEDState ==> cp.ledState != LedUnknown)
  }

  /** The write* setters that answer with a boolean (writeSetDesktopSize,
      writeExtendedDesktopSize(), writeSetDesktopName, writeSetCursor,
      writeSetXCursor, writeSetCursorWithAlpha, writeSetVMwareCursor,
      writeLEDState, writeQEMUKeyEvent): refuse and change nothing without the
      capability, otherwise mark exactly that pseudo-rectangle pending. */
  function Request(w: Writer, cp: ConnParams, k: Pseudo): (r: (bool, Writer))
    requires k != CursorPos
    ensures r.0 <==> Writable(cp, k)
    ensures !r.0 ==> r.1 == w
    ensures r.0 ==> r.1 == w.(pending := w.pending + {k})
  {
    if !Capable(cp, k) then (false, w)
    else if k == LEDState && cp.ledState == LedUnknown then (false, w)
    else (true, w.(pending := w.pending + {k}))
  }

  /** SMsgWriter::writeCursorPos throws where the other setters return false. */
  function RequestCursorPos(w: Writer, cp: ConnParams): (r: Result<Writer>)
    ensures r.Err? <==> !cp.supportsCursorPosition
    ensures r.Err? ==> r.error == CursorPositionUnsupported
    ensures r.Ok? ==> r.value == w.(pending := w.pending + {CursorPos})
  {
    if !cp.supportsCursorPosition then Err(CursorPositionUnsupported)
    else Ok(w.(pending := w.pending + {CursorPos}))
  }

  /** writeExtendedDesktopSize with explicit values queues one reply. */
  function QueueExtendedDesktopSize(w: Writer, cp: ConnParams, reason: int, result: int,
                                    fbWidth: int, fbHeight: int, layout: ScreenSet): (r: (bool, Writer))
    ensures r.0 <==> cp.supportsExtendedDesktopSize
    ensures !r.0 ==> r.1 == w
    ensures r.0 ==> r.1 == w.(edsQueue := w.edsQueue + [EdsMsg(reason % U16Mod, result % U16Mod, fbWidth, fbHeight, layout)])
  {
    if !cp.supportsExtendedDesktopSize then (false, w)
    else (true, w.(edsQueue := w.edsQueue + [EdsMsg(reason % U16Mod, result % U16Mod, fbWidth, fbHeight, layout)]))
  }

  /** needNoDataUpdate: a desktop size change of some kind is waiting. */
  predicate NeedNoDataUpdate(w: Writer) {
    DesktopSize in w.pending || ExtendedDesktopSize in w.pending || |w.edsQueue| > 0
  }

  /** needFakeUpdate, flag by flag as the source lists them. */
  predicate NeedFakeUpdate(w: Writer) {
    DesktopName in w.pending
    || SetCursor in w.pending || SetXCursor in w.pending
    || CursorWithAlpha in w.pending || VMwareCursor in w.pending
    || CursorPos in w.pending
    || LEDState in w.pending
    || QEMUKeyEvent in w.pending
    || NeedNoDataUpdate(w)
  }

  /** A fake update is needed exactly when anything at all is pending. */
  lemma NeedFakeUpdateIffPending(w: Writer)
    ensures NeedFakeUpdate(w) <==> w.pending != {} || |w.edsQueue| > 0
  {
    if w.pending != {} {
      var k :| k in w.pending;
      assert k.DesktopSize? || k.ExtendedDesktopSize? || k.DesktopName? || k.SetCursor?
          || k.SetXCursor? || k.CursorWithAlpha? || k.VMwareCursor? || k.CursorPos?
          || k.LEDState? || k.QEMUKeyEvent?;
    }
  }

  // ---------------------------------------------------------------------
  // Rectangle payloads

  /** CursorWithAlpha pixels: each colour channel multiplied by alpha / 255,
      alpha itself unchanged. One output group per complete input pixel. */
  function Premultiply(rgba: seq<Byte>): (out: seq<Byte>)
    ensures |out| == |rgba| / 4 * 4
    ensures forall k :: 0 <= k < |out| && k % 4 == 3 ==> out[k] == rgba[k]
    ensures forall k :: 0 <= k < |out| ==> AlphaAt(k) < |rgba|
    ensures forall k :: 0 <= k < |out| && k % 4 != 3 ==> out[k] <= rgba[AlphaAt(k)] && out[k] <= rgba[k]
    ensures forall k :: 0 <= k < |out| && k % 4 != 3 && rgba[AlphaAt(k)] == 255 ==> out[k] == rgba[k]
  {
    var n := |rgba| / 4 * 4;
    seq(n, k requires 0 <= k < n => Channel(rgba, k))
  }

  /** Index of the alpha byte of the pixel holding byte `k`. */
  function AlphaAt(k: nat): nat {
    k - k % 4 + 3
  }

  function Channel(rgba: seq<Byte>, k: nat): (c: Byte)
    requires k < |rgba| / 4 * 4
    ensures AlphaAt(k) < |rgba|
    ensures k % 4 == 3 ==> c == rgba[k]
    ensures k % 4 != 3 ==> c <= rgba[AlphaAt(k)] && c <= rgba[k]
    ensures k % 4 != 3 && rgba[AlphaAt(k)] == 255 ==> c == rgba[k]
  {
    AlphaIndex(k, |rgba|);
    if k % 4 == 3 then rgba[k]
    else Scale(rgba[k], rgba[AlphaAt(k)])
  }

  /** One premultiplied channel, c * a / 255 in unsigned arithmetic. */
  function Scale(c: int, a: int): (v: int)
    requires 0 <= c < 256 && 0 <= a < 256
    ensures 0 <= v <= a && v <= c
    ensures a == 255 ==> v == c
  {
    ScaleBounds(c, a);
    c * a / 255
  }

  /** The alpha byte of the pixel holding byte `k` lies inside the buffer. */
  lemma AlphaIndex(k: nat, n: nat)
    requires k < n / 4 * 4
    ensures AlphaAt(k) < n
  {
    var m := n / 4;
    var q := k / 4;
    assert k == 4 * q + k % 4;
    assert n == 4 * m + n % 4;
  }

  lemma ScaleBounds(c: int, a: int)
    requires 0 <= c < 256 && 0 <= a < 256
    ensures 0 <= c * a / 255 <= a && c * a / 255 <= c
    ensures a == 255 ==> c * a / 255 == c
  {
    MulLe(c, 255, a);
    MulLe(a, 255, c);
    assert c * a == a * c;
    DivLe(c * a, a, 255);
    DivLe(c * a, c, 255);
    assert c * a >= 0 by {
      MulLe(0, c, a);
    }
  }

  lemma MulLe(x: int, y: int, z: int)
    requires 0 <= x <= y && 0 <= z
    ensures x * z <= y * z
  {
  }

  lemma DivLe(x: int, y: int, d: int)
    requires 0 <= x <= d * y && d > 0
    ensures x / d <= y
  {
  }

  /** The 12-byte header of one pseudo-rectangle. */
  function PseudoHeader(cp: ConnParams, k: Pseudo): (h: Tok)
    ensures IsRect(h) && h.enc == PseudoEncoding(k) % U32Mod
  {
    var c := cp.cursor;
    match k
    case DesktopSize => RectHeader(0, 0, cp.width, cp.height, PseudoDesktopSize)
    case SetCursor => RectHeader(c.hotX, c.hotY, c.width, c.height, PseudoCursor)
    case SetXCursor => RectHeader(c.hotX, c.hotY, c.width, c.height, PseudoXCursor)
    case CursorWithAlpha => RectHeader(c.hotX, c.hotY, c.width, c.height, PseudoCursorWithAlpha)
    case VMwareCursor => RectHeader(c.hotX, c.hotY, c.width, c.height, PseudoVMwareCursor)
    case CursorPos => RectHeader(cp.cursorX, cp.cursorY, 0, 0, PseudoVMwareCursorPosition)
    case _ => RectHeader(0, 0, 0, 0, PseudoEncoding(k))
  }

  /** What follows the header of one pseudo-rectangle: no further header. */
  function PseudoPayload(cp: ConnParams, k: Pseudo): (t: seq<Tok>)
    ensures forall i :: 0 <= i < |t| ==> !t[i].Hdr?
  {
    var c := cp.cursor;
    match k
    case DesktopName => [Str(cp.name)]
    case SetCursor => [Blob(c.converted), Blob(c.mask)]
    case SetXCursor =>
      if c.width * c.height > 0
      then [WU8(255), WU8(255), WU8(255), WU8(0), WU8(0), WU8(0), Blob(c.bitmap), Blob(c.mask)]
      else []
    case CursorWithAlpha => [WU32(EncodingRaw), Blob(Premultiply(c.rgba))]
    case VMwareCursor => [WU8(1), Pad(1), Blob(c.rgba)]
    case LEDState => [WU8(cp.ledState)]
    case _ => []
  }

  function PseudoEncoding(k: Pseudo): int {
    match k
    case DesktopSize => PseudoDesktopSize
    case ExtendedDesktopSize => PseudoExtendedDesktopSize
    case DesktopName => PseudoDesktopName
    case SetCursor => PseudoCursor
    case SetXCursor => PseudoXCursor
    case CursorWithAlpha => PseudoCursorWithAlpha
    case VMwareCursor => PseudoVMwareCursor
    case CursorPos => PseudoVMwareCursorPosition
    case LEDState => PseudoLEDState
    case QEMUKeyEvent => PseudoQEMUKeyEvent
  }

  /** One screen of an ExtendedDesktopSize rectangle. */
  function ScreenTokens(s: seq<Screen>): (t: seq<Tok>)
    ensures forall i :: 0 <= i < |t| ==> !t[i].Hdr?
    ensures |t| == 6 * |s|
  {
    if |s| == 0 then []
    else
      var d := s[0].dimensions;
      [WU32(s[0].id), WU16(d.tlx), WU16(d.tly), WU16(d.Width()), WU16(d.Height()), WU32(s[0].flags)]
      + ScreenTokens(s[1..])
  }

  function EdsTokens(m: EdsMsg): (t: seq<Tok>)
    ensures |t| >= 1 && IsRect(t[0]) && t[0].enc == PseudoExtendedDesktopSize % U32Mod
    ensures forall i :: 1 <= i < |t| ==> !t[i].Hdr?
  {
    var st := ScreenTokens(m.layout.screens);
    var t := [RectHeader(m.reason, m.result, m.fbWidth, m.fbHeight, PseudoExtendedDesktopSize),
              WU8(|m.layout.screens|), Pad(3)] + st;
    assert forall i :: 3 <= i < |t| ==> t[i] == st[i - 3];
    t
  }

  // ---------------------------------------------------------------------
  // Counting

  /** Encodings of the rectangle headers in `toks`, in order. */
  function Encodings(toks: seq<Tok>): seq<nat>
  {
    if |toks| == 0 then []
    else Encodings(toks[..|toks| - 1]) + (if toks[|toks| - 1].Hdr? then [toks[|toks| - 1].enc] else [])
  }

  lemma {:induction false} EncodingsAppend(a: seq<Tok>, b: seq<Tok>)
    ensures Encodings(a + b) == Encodings(a) + Encodings(b)
    decreases |b|
  {
    if |b| == 0 {
      assert a + b == a;
    } else {
      assert (a + b)[..|a + b| - 1] == a + b[..|b| - 1];
      EncodingsAppend(a, b[..|b| - 1]);
    }
  }

  /** A single header followed by header-free payload counts as one
      rectangle, or as one LastRect marker, and nothing else. */
  lemma {:induction false} OneHeader(t: seq<Tok>)
    requires |t| >= 1 && t[0].Hdr?
    requires forall i :: 1 <= i < |t| ==> !t[i].Hdr?
    ensures CountRects(t) == (if IsRect(t[0]) then 1 else 0)
    ensures CountLastRects(t) == (if IsLastRect(t[0]) then 1 else 0)
    ensures Encodings(t) == [t[0].enc]
    decreases |t|
  {
    if |t| > 1 {
      OneHeader(t[..|t| - 1]);
    } else {
      assert t[..0] == [];
    }
  }

  /** `v` continues `w` within one update: both streams only grew, the header
      count is unchanged, and the rectangles appended are exactly the
      increase of nRectsInUpdate, with no LastRect among them. */
  predicate Extends(w: Writer, v: Writer) {
    |w.os| <= |v.os| && v.os[..|w.os|] == w.os
    && |w.udp| <= |v.udp| && v.udp[..|w.udp|] == w.udp
    && v.nRectsInHeader == w.nRectsInHeader
    && CountRects(v.os[|w.os|..]) + CountRects(v.udp[|w.udp|..]) == v.nRectsInUpdate - w.nRectsInUpdate
    && CountLastRects(v.os[|w.os|..]) == 0 && CountLastRects(v.udp[|w.udp|..]) == 0
  }

  lemma ExtendsRefl(w: Writer)
    ensures Extends(w, w)
  {
    assert w.os[|w.os|..] == [];
    assert w.udp[|w.udp|..] == [];
  }

  lemma ExtendsTrans(a: Writer, b: Writer, c: Writer)
    requires Extends(a, b) && Extends(b, c)
    ensures Extends(a, c)
  {
    assert c.os[|a.os|..] == b.os[|a.os|..] + c.os[|b.os|..];
    assert c.udp[|a.udp|..] == b.udp[|a.udp|..] + c.udp[|b.udp|..];
    CountRectsAppend(b.os[|a.os|..], c.os[|b.os|..]);
    CountRectsAppend(b.udp[|a.udp|..], c.udp[|b.udp|..]);
  }

  /** The check every rectangle writer makes: ++nRectsInUpdate must not pass
      a non-zero header count. */
  function CountRect(w: Writer): (r: Result<Writer>)
    ensures r.Err? <==> w.nRectsInHeader != 0 && w.nRectsInUpdate + 1 > w.nRectsInHeader
    ensures r.Err? ==> r.error == RectsOutOfSync
    ensures r.Ok? ==> r.value == w.(nRectsInUpdate := w.nRectsInUpdate + 1)
  {
    var n := w.nRectsInUpdate + 1;
    if n > w.nRectsInHeader && w.nRectsInHeader != 0 then Err(RectsOutOfSync)
    else Ok(w.(nRectsInUpdate := n))
  }

  /** Appends one header-plus-payload group to `os` after a successful count. */
  lemma AppendGroup(w: Writer, t: seq<Tok>)
    requires |t| >= 1 && IsRect(t[0]) && forall i :: 1 <= i < |t| ==> !t[i].Hdr?
    ensures Extends(w, w.(os := w.os + t, nRectsInUpdate := w.nRectsInUpdate + 1))
    ensures Encodings(t) == [t[0].enc]
  {
    var v := w.(os := w.os + t, nRectsInUpdate := w.nRectsInUpdate + 1);
    assert v.os[|w.os|..] == t;
    assert v.udp[|w.udp|..] == [];
    OneHeader(t);
  }

  /** writeSetDesktopSizeRect, writeSetDesktopNameRect, writeSetCursorRect,
      writeSetXCursorRect, writeSetCursorWithAlphaRect,
      writeSetVMwareCursorRect, writeSetVMwareCursorPositionRect,
      writeLEDStateRect, writeQEMUKeyEventRect: refuse without the
      capability, then count, then write header and payload to `os`. */
  function WritePseudoRect(w: Writer, cp: ConnParams, k: Pseudo): (r: Result<Writer>)
    requires k != ExtendedDesktopSize
    ensures r.Err? <==> !Writable(cp, k) || (w.nRectsInHeader != 0 && w.nRectsInUpdate + 1 > w.nRectsInHeader)
    ensures r.Ok? ==> Extends(w, r.value) && r.value.udp == w.udp
                      && r.value.nRectsInUpdate == w.nRectsInUpdate + 1
                      && r.value.dataRectsInUpdate == w.dataRectsInUpdate
                      && r.value.pending == w.pending && r.value.edsQueue == w.edsQueue
                      && Encodings(r.value.os[|w.os|..]) == [PseudoEncoding(k) % U32Mod]
  {
    if !Capable(cp, k) then Err(PseudoError(k))
    else if k == LEDState && cp.ledState == LedUnknown then Err(LedStateUnknown)
    else
      var w1 :- CountRect(w);
      var t := [PseudoHeader(cp, k)] + PseudoPayload(cp, k);
      AppendGroup(w, t);
      assert (w1.os + t)[|w.os|..] == t;
      Ok(w1.(os := w1.os + t))
  }

  function PseudoError(k: Pseudo): Error {
    match k
    case DesktopSize => DesktopResizeUnsupported
    case ExtendedDesktopSize => ExtendedDesktopResizeUnsupported
    case DesktopName => DesktopRenameUnsupported
    case SetCursor => LocalCursorUnsupported
    case SetXCursor => LocalCursorUnsupported
    case CursorWithAlpha => LocalCursorUnsupported
    case VMwareCursor => LocalCursorUnsupported
    case CursorPos => CursorPositionUnsupported
    case LEDState => LedStateUnsupported
    case QEMUKeyEvent => QemuKeyEventUnsupported
  }

  /** writeExtendedDesktopSizeRect. */
  function WriteEdsRect(w: Writer, cp: ConnParams, m: EdsMsg): (r: Result<Writer>)
    ensures r.Err? <==> !cp.supportsExtendedDesktopSize || (w.nRectsInHeader != 0 && w.nRectsInUpdate + 1 > w.nRectsInHeader)
    ensures r.Ok? ==> Extends(w, r.value) && r.value.udp == w.udp
                      && r.value.nRectsInUpdate == w.nRectsInUpdate + 1
                      && r.value.dataRectsInUpdate == w.dataRectsInUpdate
                      && r.value.pending == w.pending && r.value.edsQueue == w.edsQueue
                      && Encodings(r.value.os[|w.os|..]) == [PseudoExtendedDesktopSize % U32Mod]
  {
    if !cp.supportsExtendedDesktopSize then Err(ExtendedDesktopResizeUnsupported)
    else
      var w1 :- CountRect(w);
      var t := EdsTokens(m);
      AppendGroup(w, t);
      assert (w1.os + t)[|w.os|..] == t;
      Ok(w1.(os := w1.os + t))
  }

  /** Encodings appended over two consecutive extensions. */
  lemma ExtendsEncodings(a: Writer, b: Writer, c: Writer)
    requires Extends(a, b) && Extends(b, c)
    ensures Encodings(c.os[|a.os|..]) == Encodings(b.os[|a.os|..]) + Encodings(c.os[|b.os|..])
  {
    assert c.os[|a.os|..] == b.os[|a.os|..] + c.os[|b.os|..];
    EncodingsAppend(b.os[|a.os|..], c.os[|b.os|..]);
  }

  // ---------------------------------------------------------------------
  // Pseudo-rectangles of an update

  /** The fixed order in which writePseudoRects emits pending rectangles. */
  const PseudoOrder: seq<Pseudo> :=
    [SetCursor, SetXCursor, CursorWithAlpha, VMwareCursor, CursorPos, DesktopName, LEDState, QEMUKeyEvent]

  /** The pseudo-rectangles counted in the header by
      writeFramebufferUpdateStart: all but the two size changes. */
  predicate HeaderKind(k: Pseudo) {
    !k.DesktopSize? && !k.ExtendedDesktopSize?
  }

  /** Position of a header kind in PseudoOrder. */
  function Pos(k: Pseudo): nat {
    match k
    case SetCursor => 0
    case SetXCursor => 1
    case CursorWithAlpha => 2
    case VMwareCursor => 3
    case CursorPos => 4
    case DesktopName => 5
    case LEDState => 6
    case QEMUKeyEvent => 7
    case _ => 8
  }

  /** `k` occurs in PseudoOrder[i..]. */
  predicate Later(i: nat, k: Pseudo) {
    HeaderKind(k) && i <= Pos(k)
  }

  lemma PosOfOrder(i: nat)
    requires i < |PseudoOrder|
    ensures Pos(PseudoOrder[i]) == i && HeaderKind(PseudoOrder[i])
  {
  }

  lemma LaterStep(i: nat)
    requires i < |PseudoOrder|
    ensures forall k :: Later(i, k) <==> Later(i + 1, k) || k == PseudoOrder[i]
  {
    PosOfOrder(i);
  }

  /** The header kinds are exactly the members of PseudoOrder. */
  lemma HeaderKindsAreOrder(k: Pseudo)
    ensures HeaderKind(k) <==> k in PseudoOrder
  {
    if HeaderKind(k) {
      assert PseudoOrder[Pos(k)] == k;
    }
  }

  /** How many of PseudoOrder[i..] are pending. */
  function PendingFrom(i: nat, p: set<Pseudo>): nat
    requires i <= |PseudoOrder|
    decreases |PseudoOrder| - i
  {
    if i == |PseudoOrder| then 0
    else (if PseudoOrder[i] in p then 1 else 0) + PendingFrom(i + 1, p)
  }

  /** The wire encodings of the pending members of PseudoOrder[i..], in order. */
  function PendingEncodings(i: nat, p: set<Pseudo>): seq<nat>
    requires i <= |PseudoOrder|
    decreases |PseudoOrder| - i
  {
    if i == |PseudoOrder| then []
    else (if PseudoOrder[i] in p then [PseudoEncoding(PseudoOrder[i]) % U32Mod] else [])
         + PendingEncodings(i + 1, p)
  }

  /** Every pending member of PseudoOrder[i..] is writable. */
  predicate AllWritable(i: nat, p: set<Pseudo>, cp: ConnParams)
    requires i <= |PseudoOrder|
    decreases |PseudoOrder| - i
  {
    i == |PseudoOrder| || ((PseudoOrder[i] in p ==> Writable(cp, PseudoOrder[i])) && AllWritable(i + 1, p, cp))
  }

  lemma AllWritableMeans(p: set<Pseudo>, cp: ConnParams)
    ensures AllWritable(0, p, cp) <==> forall k :: k in p && HeaderKind(k) ==> Writable(cp, k)
  {
  }

  /** Removing a kind that does not occur in PseudoOrder[i..] changes neither
      the count of the suffix, nor its encodings, nor whether it is
      writable. */
  lemma {:induction false} SuffixIgnores(i: nat, p: set<Pseudo>, k: Pseudo)
    requires i <= |PseudoOrder|
    requires !Later(i, k)
    ensures PendingFrom(i, p - {k}) == PendingFrom(i, p)
    decreases |PseudoOrder| - i
  {
    if i < |PseudoOrder| {
      PosOfOrder(i);
      SuffixIgnores(i + 1, p, k);
    }
  }

  lemma {:induction false} SuffixEncodingsIgnore(i: nat, p: set<Pseudo>, k: Pseudo)
    requires i <= |PseudoOrder|
    requires !Later(i, k)
    ensures PendingEncodings(i, p - {k}) == PendingEncodings(i, p)
    decreases |PseudoOrder| - i
  {
    if i < |PseudoOrder| {
      PosOfOrder(i);
      SuffixEncodingsIgnore(i + 1, p, k);
    }
  }

  lemma {:induction false} SuffixWritableIgnores(i: nat, p: set<Pseudo>, k: Pseudo, cp: ConnParams)
    requires i <= |PseudoOrder|
    requires !Later(i, k)
    ensures AllWritable(i, p - {k}, cp) <==> AllWritable(i, p, cp)
    decreases |PseudoOrder| - i
  {
    if i < |PseudoOrder| {
      PosOfOrder(i);
      SuffixWritableIgnores(i + 1, p, k, cp);
    }
  }

  /** writePseudoRects from position `i` of the fixed order: each pending
      rectangle is written once and its flag cleared. */
  function WritePseudoRects(w: Writer, cp: ConnParams, i: nat): (r: Result<Writer>)
    requires i <= |PseudoOrder|
    decreases |PseudoOrder| - i
  {
    if i == |PseudoOrder| then Ok(w)
    else
      var k := PseudoOrder[i];
      if k in w.pending then
        var w1 :- WritePseudoRect(w, cp, k);
        WritePseudoRects(w1.(pending := w1.pending - {k}), cp, i + 1)
      else
        WritePseudoRects(w, cp, i + 1)
  }

  /** writePseudoRects fails exactly when a pending rectangle is not writable
      or their number passes a non-zero header count. */
  lemma {:induction false} PseudoRectsErr(w: Writer, cp: ConnParams, i: nat)
    requires i <= |PseudoOrder|
    ensures WritePseudoRects(w, cp, i).Err? <==>
              !AllWritable(i, w.pending, cp)
              || (w.nRectsInHeader != 0 && PendingFrom(i, w.pending) > 0
                  && w.nRectsInUpdate + PendingFrom(i, w.pending) > w.nRectsInHeader)
    decreases |PseudoOrder| - i
  {
    if i < |PseudoOrder| {
      var k := PseudoOrder[i];
      if k in w.pending {
        var s := WritePseudoRect(w, cp, k);
        if s.Ok? {
          var w2 := s.value.(pending := s.value.pending - {k});
          PosOfOrder(i);
          SuffixIgnores(i + 1, w.pending, k);
          SuffixWritableIgnores(i + 1, w.pending, k, cp);
          PseudoRectsErr(w2, cp, i + 1);
        }
      } else {
        PseudoRectsErr(w, cp, i + 1);
      }
    }
  }

  /** On success, writePseudoRects appends one rectangle per pending flag, in
      the fixed order, touches nothing else, and clears the flags. */
  lemma {:induction false} PseudoRectsOk(w: Writer, cp: ConnParams, i: nat, v: Writer)
    requires i <= |PseudoOrder|
    requires WritePseudoRects(w, cp, i) == Ok(v)
    ensures Extends(w, v) && v.udp == w.udp
    ensures v.nRectsInUpdate == w.nRectsInUpdate + PendingFrom(i, w.pending)
    ensures v.dataRectsInUpdate == w.dataRectsInUpdate && v.edsQueue == w.edsQueue
    ensures Encodings(v.os[|w.os|..]) == PendingEncodings(i, w.pending)
    decreases |PseudoOrder| - i
  {
    if i == |PseudoOrder| {
      ExtendsRefl(w);
      assert w.os[|w.os|..] == [];
    } else {
      var k := PseudoOrder[i];
      PosOfOrder(i);
      if k in w.pending {
        var w2 := PendingStep(w, cp, i);
        SuffixIgnores(i + 1, w.pending, k);
        SuffixEncodingsIgnore(i + 1, w.pending, k);
        PseudoRectsOk(w2, cp, i + 1, v);
        ExtendsTrans(w, w2, v);
        ExtendsEncodings(w, w2, v);
      } else {
        PseudoRectsOk(w, cp, i + 1, v);
      }
    }
  }

  /** On success, writePseudoRects clears exactly the flags of
      PseudoOrder[i..]. */
  lemma {:induction false} PseudoRectsClear(w: Writer, cp: ConnParams, i: nat, v: Writer)
    requires i <= |PseudoOrder|
    requires WritePseudoRects(w, cp, i) == Ok(v)
    ensures forall k :: k in v.pending <==> k in w.pending && !Later(i, k)
    decreases |PseudoOrder| - i
  {
    if i < |PseudoOrder| {
      LaterStep(i);
      if PseudoOrder[i] in w.pending {
        var w2 := PendingStep(w, cp, i);
        PseudoRectsClear(w2, cp, i + 1, v);
      } else {
        PseudoRectsClear(w, cp, i + 1, v);
      }
    }
  }

  /** One pending rectangle of writePseudoRects: the writer the rest of the
      walk starts from when the whole walk succeeds. */
  function PendingStep(w: Writer, cp: ConnParams, i: nat): (w2: Writer)
    requires i < |PseudoOrder| && PseudoOrder[i] in w.pending
    requires WritePseudoRects(w, cp, i).Ok?
    ensures WritePseudoRects(w2, cp, i + 1) == WritePseudoRects(w, cp, i)
    ensures var k := PseudoOrder[i];
            Extends(w, w2) && w2.udp == w.udp && w2.nRectsInUpdate == w.nRectsInUpdate + 1
            && w2.dataRectsInUpdate == w.dataRectsInUpdate && w2.edsQueue == w.edsQueue
            && w2.pending == w.pending - {k}
            && Encodings(w2.os[|w.os|..]) == [PseudoEncoding(k) % U32Mod]
  {
    var k := PseudoOrder[i];
    var w1 := WritePseudoRect(w, cp, k).value;
    w1.(pending := w1.pending - {k})
  }

  // ---------------------------------------------------------------------
  // Framing an update

  /** The count writeFramebufferUpdateStart puts in the header: the caller's
      count plus one per pending flag, or the 0xFFFF sentinel unchanged. */
  function DeclaredRects(w: Writer, nRects: int): int {
    if nRects != 0xFFFF then nRects + PendingFrom(0, w.pending) else nRects
  }

  /** The header count the writer records: the sentinel becomes 0. */
  function RecordedRects(w: Writer, nRects: int): int {
    var n := DeclaredRects(w, nRects);
    if n == 0xFFFF then 0 else n
  }

  /** The writer just after the message type, padding and count are written
      and the counters reset. */
  function Opened(w: Writer, nRects: int): Writer {
    w.(os := w.os + [WU8(MsgFramebufferUpdate), Pad(1), WU16(DeclaredRects(w, nRects))],
       nRectsInUpdate := 0, dataRectsInUpdate := 0,
       nRectsInHeader := RecordedRects(w, nRects))
  }

  /** writeFramebufferUpdateStart: message type, padding, the declared count,
      counters reset, then the pending pseudo-rectangles, which it clears. */
  function StartUpdate(w: Writer, cp: ConnParams, nRects: int): (r: Result<Writer>)
    ensures r.Ok? ==> var o := Opened(w, nRects);
                Extends(o, r.value)
                && r.value.nRectsInUpdate == PendingFrom(0, w.pending)
                && r.value.dataRectsInUpdate == 0
                && r.value.edsQueue == w.edsQueue && r.value.udp == w.udp
                && (forall k :: HeaderKind(k) ==> k !in r.value.pending)
                && (forall k :: !HeaderKind(k) ==> (k in r.value.pending <==> k in w.pending))
    ensures r.Err? <==> !AllWritable(0, w.pending, cp)
                        || (RecordedRects(w, nRects) != 0 && PendingFrom(0, w.pending) > 0
                            && PendingFrom(0, w.pending) > RecordedRects(w, nRects))
  {
    var o := Opened(w, nRects);
    PseudoRectsErr(o, cp, 0);
    var r := WritePseudoRects(o, cp, 0);
    if r.Ok? then
      PseudoRectsOk(o, cp, 0, r.value);
      PseudoRectsClear(o, cp, 0, r.value);
      r
    else r
  }

  /** writeFramebufferUpdateEnd. */
  function EndUpdate(w: Writer, cp: ConnParams): (r: Result<Writer>)
    ensures r.Err? <==> w.nRectsInHeader != 0 && w.nRectsInUpdate != w.nRectsInHeader
    ensures r.Ok? && w.nRectsInHeader != 0 ==> r.value == w
    ensures r.Ok? && w.nRectsInHeader == 0 ==>
              r.value.os == w.os + [LastRectMarker]
              && r.value.udp == w.udp + (if cp.supportsUdp
                                         then [RectHeader(w.dataRectsInUpdate, 0, 0, 0, PseudoLastRect)]
                                         else [])
  {
    if w.nRectsInUpdate != w.nRectsInHeader && w.nRectsInHeader != 0 then Err(RectsOutOfSync)
    else if w.nRectsInHeader == 0 then
      Ok(w.(os := w.os + [RectHeader(0, 0, 0, 0, PseudoLastRect)],
            udp := if cp.supportsUdp
                   then w.udp + [RectHeader(w.dataRectsInUpdate, 0, 0, 0, PseudoLastRect)]
                   else w.udp))
    else Ok(w)
  }

  /** startRect: count the rectangle, count it as data, write its header to
      the UDP stream when negotiated, otherwise to the main stream. */
  function StartRect(w: Writer, cp: ConnParams, r: Rect, encoding: int): (res: Result<Writer>)
    ensures res.Err? <==> w.nRectsInHeader != 0 && w.nRectsInUpdate + 1 > w.nRectsInHeader
    ensures res.Ok? ==> var v := res.value;
      v.nRectsInUpdate == w.nRectsInUpdate + 1 && v.dataRectsInUpdate == w.dataRectsInUpdate + 1
      && v.nRectsInHeader == w.nRectsInHeader && v.pending == w.pending && v.edsQueue == w.edsQueue
      && (cp.supportsUdp ==> v.os == w.os && v.udp == w.udp + [RectHeader(r.tlx, r.tly, r.Width(), r.Height(), encoding)])
      && (!cp.supportsUdp ==> v.udp == w.udp && v.os == w.os + [RectHeader(r.tlx, r.tly, r.Width(), r.Height(), encoding)])
  {
    var w1 :- CountRect(w);
    var h := RectHeader(r.tlx, r.tly, r.Width(), r.Height(), encoding);
    var w2 := w1.(dataRectsInUpdate := w1.dataRectsInUpdate + 1);
    if cp.supportsUdp then Ok(w2.(udp := w2.udp + [h]))
    else Ok(w2.(os := w2.os + [h]))
  }

  /** A data rectangle as the encoders hand it to the writer: a CopyRect with
      its source position, or an encoded rectangle with its payload. */
  datatype DataRect =
    | Copy(r: Rect, srcX: int, srcY: int)
    | Encoded(r: Rect, encoding: int, payload: seq<Byte>)

  /** Encoders never use the LastRect pseudo-encoding for a data rectangle. */
  predicate ProperData(ds: seq<DataRect>) {
    forall i :: 0 <= i < |ds| && ds[i].Encoded? ==> ds[i].encoding % U32Mod != LastRectWire
  }

  function DataTokens(d: DataRect): seq<Tok> {
    match d
    case Copy(r, sx, sy) =>
      [RectHeader(r.tlx, r.tly, r.Width(), r.Height(), EncodingCopyRect), WU16(sx), WU16(sy)]
    case Encoded(r, enc, payload) =>
      [RectHeader(r.tlx, r.tly, r.Width(), r.Height(), enc), Blob(payload)]
  }

  /** writeCopyRect, and startRect followed by an encoder's payload: both go
      to the same stream as the header. */
  function WriteDataRect(w: Writer, cp: ConnParams, d: DataRect): (r: Result<Writer>)
    ensures r.Err? <==> w.nRectsInHeader != 0 && w.nRectsInUpdate + 1 > w.nRectsInHeader
    ensures r.Ok? ==> var v := r.value;
      v.nRectsInUpdate == w.nRectsInUpdate + 1 && v.dataRectsInUpdate == w.dataRectsInUpdate + 1
      && v.nRectsInHeader == w.nRectsInHeader && v.pending == w.pending && v.edsQueue == w.edsQueue
      && (cp.supportsUdp ==> v.os == w.os && v.udp == w.udp + DataTokens(d))
      && (!cp.supportsUdp ==> v.udp == w.udp && v.os == w.os + DataTokens(d))
  {
    var enc := if d.Copy? then EncodingCopyRect else d.encoding;
    var w1 :- StartRect(w, cp, d.r, enc);
    var tail := DataTokens(d)[1..];
    assert DataTokens(d) == [DataTokens(d)[0]] + tail;
    if cp.supportsUdp then Ok(w1.(udp := w1.udp + tail))
    else Ok(w1.(os := w1.os + tail))
  }

  function WriteDataRects(w: Writer, cp: ConnParams, ds: seq<DataRect>): (r: Result<Writer>)
    decreases |ds|
  {
    if |ds| == 0 then Ok(w)
    else
      var w1 :- WriteDataRect(w, cp, ds[0]);
      WriteDataRects(w1, cp, ds[1..])
  }

  lemma DataRectExtends(w: Writer, cp: ConnParams, d: DataRect, v: Writer)
    requires WriteDataRect(w, cp, d) == Ok(v)
    requires d.Encoded? ==> d.encoding % U32Mod != LastRectWire
    ensures Extends(w, v)
  {
    var t := DataTokens(d);
    OneHeader(t);
    if cp.supportsUdp {
      GroupExtends(w.udp, v.udp, w.os, v.os, t);
    } else {
      GroupExtends(w.os, v.os, w.udp, v.udp, t);
    }
  }

  /** One rectangle appended to one stream, the other stream unchanged. */
  lemma GroupExtends(a: seq<Tok>, b: seq<Tok>, c: seq<Tok>, d: seq<Tok>, t: seq<Tok>)
    requires b == a + t && d == c
    requires CountRects(t) == 1 && CountLastRects(t) == 0
    ensures |a| <= |b| && b[..|a|] == a && b[|a|..] == t
    ensures |c| <= |d| && d[..|c|] == c && d[|c|..] == []
    ensures CountRects(b[|a|..]) + CountRects(d[|c|..]) == 1
    ensures CountLastRects(b[|a|..]) == 0 && CountLastRects(d[|c|..]) == 0
  {
    assert b[|a|..] == t;
    assert d[|c|..] == [];
  }

  /** Data rectangles add one rectangle each to the count, and fail exactly
      when they would pass a non-zero header count. */
  lemma {:induction false} DataRectsSpec(w: Writer, cp: ConnParams, ds: seq<DataRect>)
    requires ProperData(ds)
    ensures var r := WriteDataRects(w, cp, ds);
      && (r.Err? <==> w.nRectsInHeader != 0 && |ds| > 0 && w.nRectsInUpdate + |ds| > w.nRectsInHeader)
      && (r.Ok? ==> Extends(w, r.value)
                    && r.value.nRectsInUpdate == w.nRectsInUpdate + |ds|
                    && r.value.dataRectsInUpdate == w.dataRectsInUpdate + |ds|
                    && r.value.pending == w.pending && r.value.edsQueue == w.edsQueue)
    decreases |ds|
  {
    if |ds| == 0 {
      ExtendsRefl(w);
    } else {
      var s := WriteDataRect(w, cp, ds[0]);
      if s.Ok? {
        DataRectExtends(w, cp, ds[0], s.value);
        assert ProperData(ds[1..]);
        DataRectsSpec(s.value, cp, ds[1..]);
        var r := WriteDataRects(w, cp, ds);
        if r.Ok? {
          ExtendsTrans(w, s.value, r.value);
        }
      }
    }
  }

  /** A whole update: start with the caller's count, the data rectangles,
      then the end of the update. */
  function WriteUpdate(w: Writer, cp: ConnParams, nRects: int, ds: seq<DataRect>): Result<Writer>
  {
    var s :- StartUpdate(w, cp, nRects);
    var d :- WriteDataRects(s, cp, ds);
    EndUpdate(d, cp)
  }

  /** Everything between the count and the end of the update. */
  lemma UpdateBody(w: Writer, cp: ConnParams, nRects: int, ds: seq<DataRect>, s: Writer, d: Writer)
    requires ProperData(ds)
    requires StartUpdate(w, cp, nRects) == Ok(s)
    requires WriteDataRects(s, cp, ds) == Ok(d)
    ensures Extends(Opened(w, nRects), d) && d.dataRectsInUpdate == |ds|
    ensures d.nRectsInUpdate == PendingFrom(0, w.pending) + |ds|
  {
    DataRectsSpec(s, cp, ds);
    ExtendsTrans(Opened(w, nRects), s, d);
  }

  /** The count invariant of a FramebufferUpdate.  The header carries the
      declared count (in 16 bits).  When the recorded count is non-zero the
      rectangles that follow, on both streams, are exactly that many and no
      LastRect is written; when it is zero (the 0xFFFF sentinel) the main
      stream ends with exactly one LastRect marker, and with UDP the UDP
      stream ends with a flip marker carrying the number of data rectangles. */
  lemma UpdateFraming(w: Writer, cp: ConnParams, nRects: int, ds: seq<DataRect>, v: Writer)
    requires ProperData(ds)
    requires WriteUpdate(w, cp, nRects, ds) == Ok(v)
    ensures |v.os| >= |w.os| + 3 && |v.udp| >= |w.udp|
    ensures v.os[..|w.os| + 3] == w.os + [U8(0), Pad(1), WU16(DeclaredRects(w, nRects))]
    ensures RecordedRects(w, nRects) != 0 ==>
              CountRects(v.os[|w.os| + 3..]) + CountRects(v.udp[|w.udp|..]) == RecordedRects(w, nRects)
              && CountLastRects(v.os[|w.os| + 3..]) == 0 && CountLastRects(v.udp[|w.udp|..]) == 0
    ensures RecordedRects(w, nRects) == 0 ==>
              CountLastRects(v.os[|w.os| + 3..]) == 1 && v.os[|v.os| - 1] == LastRectMarker
              && (cp.supportsUdp ==> |v.udp| > |w.udp| && v.udp[|v.udp| - 1] == RectHeader(|ds|, 0, 0, 0, PseudoLastRect))
  {
    var o := Opened(w, nRects);
    var s := StartUpdate(w, cp, nRects).value;
    var d := WriteDataRects(s, cp, ds).value;
    assert EndUpdate(d, cp) == Ok(v);
    UpdateBody(w, cp, nRects, ds, s, d);
    assert |o.os| == |w.os| + 3 && o.udp == w.udp;
    assert o.os == w.os + [U8(0), Pad(1), WU16(DeclaredRects(w, nRects))];
    assert d.nRectsInHeader == RecordedRects(w, nRects);
    if RecordedRects(w, nRects) == 0 {
      EndWithMarker(o, d, cp, v);
    } else {
      assert v == d;
    }
  }

  lemma EndWithMarker(o: Writer, d: Writer, cp: ConnParams, v: Writer)
    requires Extends(o, d) && d.nRectsInHeader == 0 && EndUpdate(d, cp) == Ok(v)
    ensures |v.os| > |o.os| && v.os[..|o.os|] == o.os && v.os[|v.os| - 1] == LastRectMarker
    ensures CountLastRects(v.os[|o.os|..]) == 1
    ensures |v.udp| >= |o.udp| && v.udp[..|o.udp|] == o.udp
    ensures cp.supportsUdp ==>
              (|v.udp| > |o.udp| && v.udp[|v.udp| - 1] == RectHeader(d.dataRectsInUpdate, 0, 0, 0, PseudoLastRect))
  {
    assert v.os == d.os + [LastRectMarker];
    MarkerCount(d.os[|o.os|..]);
    assert v.os[|o.os|..] == d.os[|o.os|..] + [LastRectMarker];
  }

  lemma MarkerCount(a: seq<Tok>)
    requires CountLastRects(a) == 0
    ensures CountLastRects(a + [LastRectMarker]) == 1
  {
    CountRectsAppend(a, [LastRectMarker]);
    assert [LastRectMarker][..0] == [];
  }

  /** A non-sentinel update whose data rectangles differ in number from the
      caller's count is refused, whatever the pseudo-rectangles. */
  lemma UpdateCountMismatch(w: Writer, cp: ConnParams, nRects: int, ds: seq<DataRect>)
    requires ProperData(ds)
    requires RecordedRects(w, nRects) != 0
    requires |ds| != nRects
    ensures WriteUpdate(w, cp, nRects, ds).Err?
  {
    var s := StartUpdate(w, cp, nRects);
    if s.Ok? {
      DataRectsSpec(s.value, cp, ds);
    }
  }

  /** A sentinel update never fails on counts: only a pending pseudo-rectangle
      the client cannot take makes it fail. */
  lemma SentinelUpdateSucceeds(w: Writer, cp: ConnParams, ds: seq<DataRect>)
    requires ProperData(ds)
    requires forall k :: k in w.pending && HeaderKind(k) ==> Writable(cp, k)
    ensures WriteUpdate(w, cp, 0xFFFF, ds).Ok?
  {
    AllWritableMeans(w.pending, cp);
    var s := StartUpdate(w, cp, 0xFFFF);
    DataRectsSpec(s.value, cp, ds);
  }

  // ---------------------------------------------------------------------
  // No-data updates

  function WriteEdsQueue(w: Writer, cp: ConnParams, q: seq<EdsMsg>): (r: Result<Writer>)
    decreases |q|
  {
    if |q| == 0 then Ok(w)
    else
      var w1 :- WriteEdsRect(w, cp, q[0]);
      WriteEdsQueue(w1, cp, q[1..])
  }

  lemma {:induction false} EdsQueueSpec(w: Writer, cp: ConnParams, q: seq<EdsMsg>)
    requires WriteEdsQueue(w, cp, q).Ok?
    ensures var v := WriteEdsQueue(w, cp, q).value;
      Extends(w, v) && v.nRectsInUpdate == w.nRectsInUpdate + |q|
      && v.pending == w.pending && v.edsQueue == w.edsQueue
      && v.udp == w.udp && v.dataRectsInUpdate == w.dataRectsInUpdate
      && Encodings(v.os[|w.os|..]) == seq(|q|, _ => PseudoExtendedDesktopSize % U32Mod)
    decreases |q|
  {
    if |q| == 0 {
      ExtendsRefl(w);
      assert w.os[|w.os|..] == [];
    } else {
      var s := WriteEdsRect(w, cp, q[0]).value;
      EdsQueueSpec(s, cp, q[1..]);
      var v := WriteEdsQueue(w, cp, q).value;
      ExtendsTrans(w, s, v);
      ExtendsEncodings(w, s, v);
    }
  }

  /** The queued replies, after which the queue is empty. */
  function WriteQueuedReplies(w: Writer, cp: ConnParams): (r: Result<Writer>)
    ensures r.Ok? ==> Extends(w, r.value) && r.value.nRectsInUpdate == w.nRectsInUpdate + |w.edsQueue|
                      && r.value.pending == w.pending && r.value.edsQueue == []
                      && r.value.udp == w.udp && r.value.dataRectsInUpdate == w.dataRectsInUpdate
                      && Encodings(r.value.os[|w.os|..]) == seq(|w.edsQueue|, _ => PseudoExtendedDesktopSize % U32Mod)
  {
    var w1 :- WriteEdsQueue(w, cp, w.edsQueue);
    EdsQueueSpec(w, cp, w.edsQueue);
    Ok(w1.(edsQueue := []))
  }

  /** The generic ExtendedDesktopSize (with the connection's size and layout)
      or the SetDesktopSize rectangle, when pending; the flag is cleared. */
  function WriteFlagged(w: Writer, cp: ConnParams, k: Pseudo): (r: Result<Writer>)
    requires k == ExtendedDesktopSize || k == DesktopSize
    ensures r.Ok? ==> Extends(w, r.value)
                      && r.value.nRectsInUpdate == w.nRectsInUpdate + (if k in w.pending then 1 else 0)
                      && r.value.pending == w.pending - {k} && r.value.edsQueue == w.edsQueue
                      && r.value.udp == w.udp && r.value.dataRectsInUpdate == w.dataRectsInUpdate
                      && Encodings(r.value.os[|w.os|..])
                         == (if k in w.pending then [PseudoEncoding(k) % U32Mod] else [])
  {
    if k !in w.pending then
      ExtendsRefl(w);
      assert w.os[|w.os|..] == [];
      Ok(w.(pending := w.pending - {k}))
    else
      var w1 :- if k == ExtendedDesktopSize
                then WriteEdsRect(w, cp, EdsMsg(0, 0, cp.width, cp.height, cp.screenLayout))
                else WritePseudoRect(w, cp, k);
      Ok(w1.(pending := w1.pending - {k}))
  }

  /** writeNoDataRects: queued replies first (the queue is emptied), then the
      generic ExtendedDesktopSize, then SetDesktopSize last. */
  function WriteNoDataRects(w: Writer, cp: ConnParams): Result<Writer>
  {
    var w1 :- WriteQueuedReplies(w, cp);
    var w2 :- WriteFlagged(w1, cp, ExtendedDesktopSize);
    WriteFlagged(w2, cp, DesktopSize)
  }

  /** Rectangles a no-data update declares. */
  function NoDataCount(w: Writer): nat {
    (if DesktopSize in w.pending then 1 else 0)
    + (if ExtendedDesktopSize in w.pending then 1 else 0)
    + |w.edsQueue|
  }

  /** The rectangles writeNoDataRects emits, in order: every queued reply,
      then the generic ExtendedDesktopSize, then SetDesktopSize. */
  function NoDataEncodings(w: Writer): seq<nat> {
    seq(|w.edsQueue|, _ => PseudoExtendedDesktopSize % U32Mod)
    + (if ExtendedDesktopSize in w.pending then [PseudoExtendedDesktopSize % U32Mod] else [])
    + (if DesktopSize in w.pending then [PseudoDesktopSize % U32Mod] else [])
  }

  /** writeNoDataRects emits exactly NoDataCount rectangles, in the order
      NoDataEncodings gives, and leaves the queue and both flags empty. */
  lemma NoDataRectsSpec(w: Writer, cp: ConnParams)
    requires WriteNoDataRects(w, cp).Ok?
    ensures var v := WriteNoDataRects(w, cp).value;
      Extends(w, v) && v.udp == w.udp
      && v.nRectsInUpdate == w.nRectsInUpdate + NoDataCount(w)
      && Encodings(v.os[|w.os|..]) == NoDataEncodings(w)
      && v.dataRectsInUpdate == w.dataRectsInUpdate
      && v.edsQueue == [] && v.pending == w.pending - {DesktopSize, ExtendedDesktopSize}
  {
    var w1 := WriteQueuedReplies(w, cp).value;
    var w2 := WriteFlagged(w1, cp, ExtendedDesktopSize).value;
    var v := WriteFlagged(w2, cp, DesktopSize).value;
    ExtendsTrans(w, w1, w2);
    ExtendsTrans(w, w2, v);
    ExtendsEncodings(w, w1, w2);
    ExtendsEncodings(w, w2, v);
  }

  /** writeNoDataUpdate. */
  function WriteNoDataUpdate(w: Writer, cp: ConnParams): Result<Writer>
  {
    var s :- StartUpdate(w, cp, NoDataCount(w));
    var d :- WriteNoDataRects(s, cp);
    EndUpdate(d, cp)
  }

  /** A no-data update declares exactly the rectangles it emits, so once
      its rectangles are written its end never fails on counts; afterwards
      nothing is pending at all. */
  lemma NoDataUpdateConsistent(w: Writer, cp: ConnParams, s: Writer, d: Writer)
    requires StartUpdate(w, cp, NoDataCount(w)) == Ok(s)
    requires WriteNoDataRects(s, cp) == Ok(d)
    ensures WriteNoDataUpdate(w, cp) == EndUpdate(d, cp)
    ensures EndUpdate(d, cp).Ok?
    ensures EndUpdate(d, cp).value.edsQueue == [] && EndUpdate(d, cp).value.pending == {}
  {
    NoDataCountsMatch(w, cp, s, d);
  }

  /** The rectangles counted by the end of a no-data update are the ones
      declared at its start, and nothing is left pending. */
  lemma NoDataCountsMatch(w: Writer, cp: ConnParams, s: Writer, d: Writer)
    requires StartUpdate(w, cp, NoDataCount(w)) == Ok(s)
    requires WriteNoDataRects(s, cp) == Ok(d)
    ensures d.nRectsInHeader == 0 || d.nRectsInUpdate == d.nRectsInHeader
    ensures d.edsQueue == [] && d.pending == {}
  {
    NoDataRectsSpec(s, cp);
    assert NoDataCount(s) == NoDataCount(w);
    Drained(s.pending);
  }

  lemma Drained(p: set<Pseudo>)
    requires forall k :: HeaderKind(k) ==> k !in p
    ensures p - {DesktopSize, ExtendedDesktopSize} == {}
  {
  }

  /** After a successful no-data update no fake update is needed. */
  lemma NoDataUpdateDrains(w: Writer, cp: ConnParams, v: Writer)
    requires v.edsQueue == [] && v.pending == {}
    ensures !NeedFakeUpdate(v) && !NeedNoDataUpdate(v)
  {
    NeedFakeUpdateIffPending(v);
  }
}
