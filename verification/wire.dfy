/** The server's output as a sequence of field writes, and the RFB constants
    the framer and the connection use.  Every numeric field is stored as the
    unsigned bit pattern that reaches the wire, so the truncation a C++
    conversion to U8/U16/U32 performs is explicit here.

    The numeric values of message types, encodings and fence flags come from
    rfb/msgTypes.h, rfb/encodings.h and rfb/fenceTypes.h, which are not part of
    this model; they are the standard RFB values (section 7.7 and 7.8 of
    RFC 6143 for Raw, CopyRect, Cursor and DesktopSize). */
module Wire {

  /** An octet as an integer value. */
  type Byte = x: int | 0 <= x < 256

  /** One write to an output stream. `Hdr` is a whole 12-byte rectangle header
      (x, y, width, height, encoding), the unit the framer counts. */
  datatype Tok =
    | U8(v: nat)
    | U16(v: nat)
    | U32(v: nat)
    | Pad(n: nat)
    | Hdr(x: nat, y: nat, w: nat, h: nat, enc: nat)
    | Blob(bytes: seq<Byte>)
    | Str(s: string)

  const U8Mod: int := 0x100
  const U16Mod: int := 0x1_0000
  const U32Mod: int := 0x1_0000_0000

  /** writeU8: the argument converted to rdr::U8. */
  function WU8(x: int): (t: Tok)
    ensures t.U8? && t.v < U8Mod && (0 <= x < U8Mod ==> t.v == x)
  {
    U8(x % U8Mod)
  }

  /** writeU16 and writeS16: both put the low 16 bits on the wire. */
  function WU16(x: int): (t: Tok)
    ensures t.U16? && t.v < U16Mod && (0 <= x < U16Mod ==> t.v == x)
  {
    U16(x % U16Mod)
  }

  function WU32(x: int): (t: Tok)
    ensures t.U32? && t.v < U32Mod && (0 <= x < U32Mod ==> t.v == x)
  {
    U32(x % U32Mod)
  }

  /** A rectangle header; x and y are S16, width and height U16, encoding U32. */
  function RectHeader(x: int, y: int, w: int, h: int, enc: int): Tok
  {
    Hdr(x % U16Mod, y % U16Mod, w % U16Mod, h % U16Mod, enc % U32Mod)
  }

  // Message types (server to client).
  const MsgFramebufferUpdate: int := 0
  const MsgEndOfContinuousUpdates: int := 150
  const MsgServerFence: int := 248

  // Encodings and pseudo-encodings.
  const EncodingRaw: int := 0
  const EncodingCopyRect: int := 1
  const PseudoCursor: int := -239
  const PseudoXCursor: int := -240
  const PseudoDesktopSize: int := -223
  const PseudoLastRect: int := -224
  const PseudoLEDState: int := -261
  const PseudoQEMUKeyEvent: int := -258
  const PseudoDesktopName: int := -307
  const PseudoExtendedDesktopSize: int := -308
  const PseudoCursorWithAlpha: int := -314
  const PseudoVMwareCursor: int := 0x574d5664
  const PseudoVMwareCursorPosition: int := 0x574d5666

  /** The LastRect pseudo-encoding as it appears in a header. */
  const LastRectWire: nat := PseudoLastRect % U32Mod

  /** The 12-byte zero-sized LastRect marker that closes a sentinel update. */
  const LastRectMarker: Tok := RectHeader(0, 0, 0, 0, PseudoLastRect)

  // Fence flags.
  const FenceBlockBefore: bv32 := 1
  const FenceBlockAfter: bv32 := 2
  const FenceSyncNext: bv32 := 4
  const FenceRequest: bv32 := 0x8000_0000
  const FenceFlagsSupported: bv32 := FenceBlockBefore | FenceBlockAfter | FenceSyncNext | FenceRequest

  /** Number of rectangle headers in `toks`, not counting LastRect markers. */
  function CountRects(toks: seq<Tok>): nat
  {
    if |toks| == 0 then 0
    else CountRects(toks[..|toks| - 1]) + (if IsRect(toks[|toks| - 1]) then 1 else 0)
  }

  predicate IsRect(t: Tok) {
    t.Hdr? && t.enc != LastRectWire
  }

  predicate IsLastRect(t: Tok) {
    t.Hdr? && t.enc == LastRectWire
  }

  /** Number of LastRect markers in `toks`. */
  function CountLastRects(toks: seq<Tok>): nat
  {
    if |toks| == 0 then 0
    else CountLastRects(toks[..|toks| - 1]) + (if IsLastRect(toks[|toks| - 1]) then 1 else 0)
  }

  lemma {:induction false} CountRectsAppend(a: seq<Tok>, b: seq<Tok>)
    ensures CountRects(a + b) == CountRects(a) + CountRects(b)
    ensures CountLastRects(a + b) == CountLastRects(a) + CountLastRects(b)
    decreases |b|
  {
    if |b| == 0 {
      assert a + b == a;
    } else {
      assert (a + b)[..|a + b| - 1] == a + b[..|b| - 1];
      CountRectsAppend(a, b[..|b| - 1]);
    }
  }
}
