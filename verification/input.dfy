/** Keyboard and pointer input of VNCSConnectionST: which key events reach
    the desktop, the pressed-key table that pairs every release with its
    press, and the decoding and clamping of relative pointer moves.  The
    desktop is an event log; the key remapper, the keystroke rate limiter
    and the clock are answers supplied by the caller. */
module Input {
  import opened Outcome
  import opened Region
  import Connection

  type U32 = x: int | 0 <= x < 0x1_0000_0000

  type U16 = x: int | 0 <= x < 0x1_0000

  // X keysyms (keysymdef.h is not part of this model; these are the
  // standard X11 values).
  const XK_Tab: U32 := 0xff09
  const XK_ISO_Left_Tab: U32 := 0xfe20
  const XK_Shift_L: U32 := 0xffe1
  const XK_Shift_R: U32 := 0xffe2
  const XK_Caps_Lock: U32 := 0xffe5
  const XK_Num_Lock: U32 := 0xff7f
  const XK_Scroll_Lock: U32 := 0xff14
  const XK_A: U32 := 0x41
  const XK_Z: U32 := 0x5a
  const XK_a: U32 := 0x61
  const XK_z: U32 := 0x7a
  const XK_KP_Home: U32 := 0xff95
  const XK_KP_Delete: U32 := 0xff9f
  const XK_KP_0: U32 := 0xffb0
  const XK_KP_9: U32 := 0xffb9
  const XK_KP_Separator: U32 := 0xffac
  const XK_KP_Decimal: U32 := 0xffae

  // LED state bits (ledStates.h, standard values).
  const LedScrollLock: int := 1
  const LedNumLock: int := 2
  const LedCapsLock: int := 4
  const LedUnknown: int := -1

  /** Whether LED `bit` is lit in a known LED state. */
  predicate LedOn(state: int, bit: int)
    requires bit in {LedScrollLock, LedNumLock, LedCapsLock}
  {
    state >= 0 && (state / bit) % 2 == 1
  }

  // ---------------------------------------------------------------------
  // Keyboard

  /** A key event delivered to the desktop. */
  datatype KeyEv = KeyEv(keysym: U32, keycode: U32, down: bool)

  /** pressedKeys (lookup index to the keysym sent on press) and the events
      the desktop has received. */
  datatype Keyboard = Keyboard(pressed: map<U32, U32>, desktop: seq<KeyEv>)

  /** What the server and its configuration say about one key event.
      `tooSoon` is the rate limiter's verdict for a press; `remapped` is
      the key remapper's answer (the keysym itself when none is set). */
  datatype KeyEnv = KeyEnv(
    acceptKeyEvents: bool,
    tooSoon: bool,
    remapped: U32,
    supportsLEDState: bool,
    serverLedState: int)

  /** The index under which a key is tracked: its keycode, or the keysym
      with the top bit set when the client gave no keycode. */
  function KeyLookup(keysym: U32, keycode: U32): (l: U32)
    ensures keycode != 0 ==> l == keycode
    ensures keycode == 0 ==> l >= 0x8000_0000 && l % 0x8000_0000 == keysym % 0x8000_0000
  {
    if keycode == 0 then 0x8000_0000 + keysym % 0x8000_0000 else keycode
  }

  /** VNCSConnectionST::isShiftPressed. */
  predicate ShiftPressed(pressed: map<U32, U32>) {
    XK_Shift_L in pressed.Values || XK_Shift_R in pressed.Values
  }

  predicate IsLockKey(k: U32) {
    k == XK_Caps_Lock || k == XK_Num_Lock || k == XK_Scroll_Lock
  }

  /** A press and release of `k` with no keycode, as the heuristics inject. */
  function Tap(k: U32): seq<KeyEv> {
    [KeyEv(k, 0, true), KeyEv(k, 0, false)]
  }

  /** The CapsLock heuristic: a letter whose case disagrees with Shift and
      the server's CapsLock LED gets a CapsLock tap first. */
  function CapsFix(pressed: map<U32, U32>, led: int, k: U32): seq<KeyEv> {
    if (XK_A <= k <= XK_Z) || (XK_a <= k <= XK_z) then
      var uppercase := XK_A <= k <= XK_Z;
      var shift := ShiftPressed(pressed);
      var lock := LedOn(led, LedCapsLock);
      if lock == (uppercase == shift) then Tap(XK_Caps_Lock) else []
    else []
  }

  /** The NumLock heuristic: without Shift, a keypad key whose meaning
      disagrees with the server's NumLock LED gets a NumLock tap first. */
  function NumFix(pressed: map<U32, U32>, led: int, k: U32): seq<KeyEv> {
    if (XK_KP_Home <= k <= XK_KP_Delete) || (XK_KP_0 <= k <= XK_KP_9)
       || k == XK_KP_Separator || k == XK_KP_Decimal then
      var number := (XK_KP_0 <= k <= XK_KP_9) || k == XK_KP_Separator || k == XK_KP_Decimal;
      var shift := ShiftPressed(pressed);
      var lock := LedOn(led, LedNumLock);
      if shift then []
      else if lock == (number == shift) then Tap(XK_Num_Lock) else []
    else []
  }

  /** The checks that drop a key event before any tracking: the key right,
      the acceptKeyEvents setting, the rate limit on presses, lock keys
      while the server LED state is unknown, and ScrollLock for clients
      without the LED extension. */
  predicate Admitted(rights: set<Connection.Right>, env: KeyEnv, down: bool) {
    Connection.KeyEvents in rights
    && env.acceptKeyEvents
    && !(env.tooSoon && down)
    && !(env.serverLedState == LedUnknown && IsLockKey(env.remapped))
    && !(!env.supportsLEDState && env.remapped == XK_Scroll_Lock)
  }

  /** VNCSConnectionST::keyEvent from the access check on. */
  function KeyEvent(kb: Keyboard, rights: set<Connection.Right>, env: KeyEnv, keycode: U32, down: bool): (r: Keyboard)
    ensures !Admitted(rights, env, down) ==> r == kb
    ensures |r.desktop| >= |kb.desktop| && r.desktop[..|kb.desktop|] == kb.desktop
  {
    if !Admitted(rights, env, down) then kb
    else
      var k0 := env.remapped;
      var fixes :=
        if !env.supportsLEDState && down && env.serverLedState != LedUnknown
        then CapsFix(kb.pressed, env.serverLedState, k0) + NumFix(kb.pressed, env.serverLedState, k0)
        else [];
      var fakeShift := k0 == XK_ISO_Left_Tab && !ShiftPressed(kb.pressed);
      var k1 := if k0 == XK_ISO_Left_Tab then XK_Tab else k0;
      var before := kb.desktop + fixes + (if fakeShift then [KeyEv(XK_Shift_L, 0, true)] else []);
      var after := if fakeShift then [KeyEv(XK_Shift_L, 0, false)] else [];
      var lookup := KeyLookup(k1, keycode);
      var k2 := if lookup in kb.pressed then kb.pressed[lookup] else k1;
      if down then
        Keyboard(kb.pressed[lookup := k2], before + [KeyEv(k2, keycode, true)] + after)
      else if lookup !in kb.pressed then
        Keyboard(kb.pressed, before + after)
      else
        Keyboard(kb.pressed - {lookup}, before + [KeyEv(k2, keycode, false)] + after)
  }

  /** The keysym tracked for an admitted event (ISO_Left_Tab becomes Tab). */
  function Tracked(env: KeyEnv): U32 {
    if env.remapped == XK_ISO_Left_Tab then XK_Tab else env.remapped
  }

  /** The pressed-key table after an admitted event: a press records the
      keysym unless the key is already down, in which case the first keysym
      stays; a release forgets the key; releasing a key that is not down
      changes nothing. */
  lemma PressedTable(kb: Keyboard, rights: set<Connection.Right>, env: KeyEnv, keycode: U32, down: bool)
    requires Admitted(rights, env, down)
    ensures var l := KeyLookup(Tracked(env), keycode);
      var r := KeyEvent(kb, rights, env, keycode, down);
      (down && l in kb.pressed ==> r.pressed == kb.pressed)
      && (down && l !in kb.pressed ==> r.pressed == kb.pressed[l := Tracked(env)])
      && (!down ==> r.pressed == kb.pressed - {l})
  {
  }

  /** Releasing a key that is not down sends the desktop no event for it;
      the only events are the fake Shift_L tap around an ISO_Left_Tab. */
  lemma UnpressedReleaseDropped(kb: Keyboard, rights: set<Connection.Right>, env: KeyEnv, keycode: U32)
    requires KeyLookup(Tracked(env), keycode) !in kb.pressed
    ensures var r := KeyEvent(kb, rights, env, keycode, false);
      r.pressed == kb.pressed
      && (forall e | e in r.desktop[|kb.desktop|..] :: e.keysym == XK_Shift_L && e.keycode == 0)
      && (env.remapped != XK_ISO_Left_Tab ==> r.desktop == kb.desktop)
  {
  }

  /** A release sends the keysym recorded at press time, so a press and its
      release always reach the desktop with the same keysym, and the table
      is back where it started. */
  lemma PressThenRelease(kb: Keyboard, rights: set<Connection.Right>, e1: KeyEnv, e2: KeyEnv, keycode: U32)
    requires keycode != 0
    requires keycode !in kb.pressed
    requires Admitted(rights, e1, true) && Admitted(rights, e2, false)
    ensures var p := KeyEvent(kb, rights, e1, keycode, true);
      var r := KeyEvent(p, rights, e2, keycode, false);
      r.pressed == kb.pressed
      && KeyEv(Tracked(e1), keycode, true) in p.desktop[|kb.desktop|..]
      && KeyEv(Tracked(e1), keycode, false) in r.desktop[|p.desktop|..]
  {
    var p := KeyEvent(kb, rights, e1, keycode, true);
    assert p.pressed == kb.pressed[keycode := Tracked(e1)];
    assert kb.pressed[keycode := Tracked(e1)] - {keycode} == kb.pressed;
    PressSends(kb, rights, e1, keycode, true, Tracked(e1));
    PressSends(p, rights, e2, keycode, false, Tracked(e1));
  }

  /** An admitted event for a key tracked under `keycode` reaches the desktop
      with keysym `k`: the keysym already recorded for the key, else the
      event's own. */
  lemma PressSends(kb: Keyboard, rights: set<Connection.Right>, env: KeyEnv, keycode: U32, down: bool, k: U32)
    requires keycode != 0 && Admitted(rights, env, down)
    requires down || keycode in kb.pressed
    requires k == if keycode in kb.pressed then kb.pressed[keycode] else Tracked(env)
    ensures KeyEv(k, keycode, down) in KeyEvent(kb, rights, env, keycode, down).desktop[|kb.desktop|..]
  {
    var r := KeyEvent(kb, rights, env, keycode, down);
    var n := |kb.desktop|;
    var fixes :=
      if !env.supportsLEDState && down && env.serverLedState != LedUnknown
      then CapsFix(kb.pressed, env.serverLedState, env.remapped) + NumFix(kb.pressed, env.serverLedState, env.remapped)
      else [];
    var fakeShift := env.remapped == XK_ISO_Left_Tab && !ShiftPressed(kb.pressed);
    var mid := fixes + (if fakeShift then [KeyEv(XK_Shift_L, 0, true)] else []);
    var after := if fakeShift then [KeyEv(XK_Shift_L, 0, false)] else [];
    assert r.desktop == kb.desktop + mid + [KeyEv(k, keycode, down)] + after;
    assert r.desktop[n..] == mid + [KeyEv(k, keycode, down)] + after;
    assert r.desktop[n..][|mid|] == KeyEv(k, keycode, down);
  }

  // ---------------------------------------------------------------------
  // Pointer

  /** A relative-mode coordinate: bit 14 marks relative mode (and is
      cleared on both axes), bit 15 is the sign, the rest the magnitude. */
  function DecodeDelta(v: U16): (d: int)
    ensures -0x4000 < d < 0x4000
    ensures d < 0 ==> v >= 0x8000
    ensures v >= 0x8000 ==> d <= 0
  {
    var mag := v % 0x4000;
    if v >= 0x8000 then -mag else mag
  }

  /** How a client encodes a move of `d` on an axis (with the relative-mode
      bit when `flag` is set). */
  function EncodeDelta(d: int, flag: bool): (v: U16)
    requires -0x4000 < d < 0x4000
  {
    (if d < 0 then 0x8000 - d else d) + (if flag then 0x4000 else 0)
  }

  lemma DeltaRoundTrip(d: int, flag: bool)
    requires -0x4000 < d < 0x4000
    ensures DecodeDelta(EncodeDelta(d, flag)) == d
  {
  }

  predicate Relative(x: U16) {
    (x / 0x4000) % 2 == 1
  }

  /** One axis of a relative move: a move left or up stops at 0, a move
      right or down stops at the framebuffer size itself. */
  function ClampAxis(cur: int, delta: int, limit: int): (p: int)
    ensures delta < 0 ==> p == Max(cur + delta, 0)
    ensures delta >= 0 ==> p == Min(cur + delta, limit)
  {
    if delta < 0 then (if cur + delta >= 0 then cur + delta else 0)
    else if cur + delta >= limit then limit else cur + delta
  }

  /** Starting inside [0, limit], a relative move ends inside it, at the
      requested position clipped to the range. */
  lemma ClampStaysInside(cur: int, delta: int, limit: int)
    requires 0 <= cur <= limit
    ensures 0 <= ClampAxis(cur, delta, limit) <= limit
    ensures ClampAxis(cur, delta, limit) == Min(Max(cur + delta, 0), limit)
  {
  }

  /** A pointer event as the desktop receives it: the decoded coordinates,
      the tracked absolute position, buttons, the DLP click filters and the
      scroll amounts, which are passed through untouched. */
  datatype PtrEv = PtrEv(raw: Point, pos: Point, buttonMask: int, skipClick: bool, skipRelease: bool,
                         scrollX: int, scrollY: int)

  /** pointerEventPos, whether this client holds the pointer, whether a
      permission re-check is due, and what the desktop received. */
  datatype Pointer = Pointer(pos: Point, holder: bool, recheck: bool, desktop: seq<PtrEv>)

  /** The DLP region, when enabled, in framebuffer coordinates. */
  datatype Dlp = Dlp(region: Option<Rect>, allowClick: bool, allowRelease: bool)

  /** The decoded coordinate pair: deltas in relative mode (bit 14 of x
      selects it), else as sent. */
  function Raw(x: U16, y: U16): Point {
    if Relative(x) then (DecodeDelta(x), DecodeDelta(y)) else (x, y)
  }

  /** Whether the coordinates as sent fall outside an enabled DLP region. */
  predicate OutsideDlp(dlp: Dlp, x: U16, y: U16) {
    dlp.region.Some? && (x, y) !in Points(dlp.region.value)
  }

  /** VNCSConnectionST::pointerEvent.  `otherHolds` says another client
      currently holds the pointer.  An admitted event is appended to what
      the desktop received, carrying the decoded move, the new position,
      the buttons, the DLP filters and the scroll amounts. */
  function PointerEvent(pt: Pointer, rights: set<Connection.Right>, acceptPointerEvents: bool,
                        otherHolds: bool, dlp: Dlp, x: U16, y: U16, buttonMask: int,
                        scrollX: int, scrollY: int, width: int, height: int): (r: Pointer)
    ensures Connection.PtrEvents !in rights ==> r == pt.(recheck := true)
    ensures Connection.PtrEvents in rights && (!acceptPointerEvents || otherHolds) ==> r == pt
    ensures Connection.PtrEvents in rights && acceptPointerEvents && !otherHolds ==>
      r.holder == (buttonMask != 0) && r.recheck == pt.recheck
      && (!Relative(x) ==> r.pos == (x, y))
      && (Relative(x) ==> r.pos == (ClampAxis(pt.pos.0, Raw(x, y).0, width),
                                    ClampAxis(pt.pos.1, Raw(x, y).1, height)))
      && |r.desktop| == |pt.desktop| + 1 && r.desktop[..|pt.desktop|] == pt.desktop
      && var ev := r.desktop[|pt.desktop|];
         ev.raw == Raw(x, y) && ev.pos == r.pos && ev.buttonMask == buttonMask
         && (ev.skipClick <==> OutsideDlp(dlp, x, y) && !dlp.allowClick)
         && (ev.skipRelease <==> OutsideDlp(dlp, x, y) && !dlp.allowRelease)
         && ev.scrollX == scrollX && ev.scrollY == scrollY
  {
    if Connection.PtrEvents !in rights then pt.(recheck := true)
    else if !acceptPointerEvents || otherHolds then pt
    else
      var raw := Raw(x, y);
      var pos := if Relative(x) then (ClampAxis(pt.pos.0, raw.0, width), ClampAxis(pt.pos.1, raw.1, height))
                 else (x, y);
      var outside := OutsideDlp(dlp, x, y);
      var ev := PtrEv(raw, pos, buttonMask, outside && !dlp.allowClick, outside && !dlp.allowRelease, scrollX, scrollY);
      Pointer(pos, buttonMask != 0, pt.recheck, pt.desktop + [ev])
  }

  /** A relative move from a position on the framebuffer stays on it, at
      the requested position clipped to each axis; an absolute event lands
      where it says. */
  lemma PointerStaysOnScreen(pt: Pointer, rights: set<Connection.Right>, dlp: Dlp, x: U16, y: U16,
                             buttonMask: int, scrollX: int, scrollY: int, width: int, height: int)
    requires Connection.PtrEvents in rights
    requires 0 <= pt.pos.0 <= width && 0 <= pt.pos.1 <= height
    ensures var r := PointerEvent(pt, rights, true, false, dlp, x, y, buttonMask, scrollX, scrollY, width, height);
      (Relative(x) ==> 0 <= r.pos.0 <= width && 0 <= r.pos.1 <= height
                       && r.pos.0 == Min(Max(pt.pos.0 + DecodeDelta(x), 0), width)
                       && r.pos.1 == Min(Max(pt.pos.1 + DecodeDelta(y), 0), height))
      && (!Relative(x) ==> r.pos == (x as int, y as int))
  {
    if Relative(x) {
      ClampStaysInside(pt.pos.0, DecodeDelta(x), width);
      ClampStaysInside(pt.pos.1, DecodeDelta(y), height);
    }
  }
}
