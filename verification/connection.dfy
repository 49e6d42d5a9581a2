/** Per-client decisions of VNCSConnectionST: access rights, the gate in
    front of writeFramebufferUpdate, congestion, the idle timeout, update
    requests, continuous updates, the status shortcut and close.  The
    socket, timers and the desktop are not modelled; the values they would
    supply (the current time, output-buffer usage, the congestion
    controller's verdict, the password-file entries) are parameters. */
module Connection {
  import opened Outcome
  import opened Region
  import Wire
  import MsgWriter

  // ---------------------------------------------------------------------
  // Access rights.  SConnection's 16-bit AccessRights mask is modelled as
  // the set of rights whose bits are set: bit 0 view, 1 key events,
  // 2 pointer events, 3 clipboard, 4 desktop resize, 5 non-shared, 10
  // no-query; bits 6 to 9 have no name but belong to the default mask.

  datatype Right = View | KeyEvents | PtrEvents | CutText | SetDesktopSize | NonShared
                 | Unnamed(bit: nat) | NoQuery

  /** AccessDefault, 0x3ff. */
  const AccessDefault: set<Right> :=
    {View, KeyEvents, PtrEvents, CutText, SetDesktopSize, NonShared,
     Unnamed(6), Unnamed(7), Unnamed(8), Unnamed(9)}

  /** The rights a read-only user loses. */
  const WriterPerms: set<Right> := {KeyEvents, PtrEvents, CutText, SetDesktopSize}

  /** The three rights the status shortcut manipulates (mask 0x0007). */
  const StatusBits: set<Right> := {PtrEvents, KeyEvents, View}

  datatype Perms = Perms(read: bool, write: bool)

  /** One line of the KasmVNC password file. */
  datatype PasswdEntry = PasswdEntry(user: string, read: bool, write: bool, owner: bool)

  /** Index of the first entry for `user` at or after `from`, or |entries|. */
  function FindUser(entries: seq<PasswdEntry>, user: string, from: nat): (k: nat)
    requires from <= |entries|
    ensures from <= k <= |entries|
    ensures k < |entries| ==> entries[k].user == user
    ensures forall j | from <= j < k :: entries[j].user != user
    decreases |entries| - from
  {
    if from == |entries| || entries[from].user == user then from
    else FindUser(entries, user, from + 1)
  }

  /** VNCSConnectionST::getPerms over the already-read password file: with
      basic authentication disabled everyone may read and write; otherwise
      the first entry for the user decides, and a writer may always read.
      An empty user name or a missing entry is a failure. */
  function GetPerms(disableBasicAuth: bool, user: string, entries: seq<PasswdEntry>): (r: Option<Perms>)
    ensures disableBasicAuth ==> r == Some(Perms(true, true))
    ensures !disableBasicAuth && user == [] ==> r == None
    ensures !disableBasicAuth && user != [] ==>
              (r.Some? <==> exists i | 0 <= i < |entries| :: entries[i].user == user)
    ensures !disableBasicAuth && r.Some? ==>
              exists i | 0 <= i < |entries| ::
                entries[i].user == user && (forall j | 0 <= j < i :: entries[j].user != user)
                && r.value == Perms(entries[i].read || entries[i].write, entries[i].write)
  {
    if disableBasicAuth then Some(Perms(true, true))
    else if user == [] then None
    else
      var k := FindUser(entries, user, 0);
      if k == |entries| then None
      else Some(Perms(entries[k].read || entries[k].write, entries[k].write))
  }

  /** Clears or sets the writer rights and the view right to match `p`. */
  function ApplyPerms(rights: set<Right>, p: Perms): (r: set<Right>)
    ensures View in r <==> p.read
    ensures forall x | x in WriterPerms :: x in r <==> p.write
    ensures r - WriterPerms - {View} == rights - WriterPerms - {View}
  {
    var r1 := if !p.write then rights - WriterPerms else rights + WriterPerms;
    if !p.read then r1 - {View} else r1 + {View}
  }

  /** The rights a new connection starts with.  When getPerms fails the
      constructor goes on to read the read/write flags it never set; `junk`
      stands for whatever they hold, and the result does not depend on it. */
  function InitialRights(p: Option<Perms>, junk: Perms): (r: set<Right>)
    ensures View in r <==> p.Some? && p.value.read
    ensures forall x | x in WriterPerms :: x in r <==> p.Some? && p.value.write
    ensures r - WriterPerms - {View} == AccessDefault - WriterPerms - {View}
  {
    var r0 := if p.None? then AccessDefault - (WriterPerms + {View}) else AccessDefault;
    var q := if p.Some? then p.value else junk;
    var r1 := if !q.write then r0 - WriterPerms else r0;
    if !q.read then r1 - {View} else r1
  }

  // ---------------------------------------------------------------------
  // Connection state

  /** SConnection's protocol states, with the handshake states folded. */
  datatype RfbState = Handshake | Normal | Closing

  datatype Conn = Conn(
    state: RfbState,
    syncFence: bool,
    inProcessMessages: bool,
    continuousUpdates: bool,
    requested: Region,
    cuRegion: Region,
    /** The changed region of the connection's update tracker. */
    changed: Region,
    accessRights: set<Right>,
    needsPermCheck: bool,
    complainedAboutNoViewRights: bool,
    lastEventTime: int,
    closeReason: Option<string>,
    writer: MsgWriter.Writer,
    cp: MsgWriter.ConnParams)

  function Framebuffer(c: Conn): Rect {
    Rect(0, 0, c.cp.width, c.cp.height)
  }

  /** VNCSConnectionST::close: the first reason given is the one kept, and
      the connection ends up closing. */
  function Close(c: Conn, reason: string): (d: Conn)
    ensures d.state == Closing
    ensures d.closeReason == if c.closeReason.Some? then c.closeReason else Some(reason)
    ensures d.(state := c.state, closeReason := c.closeReason) == c
  {
    c.(state := Closing, closeReason := if c.closeReason.None? then Some(reason) else c.closeReason)
  }

  lemma CloseKeepsFirstReason(c: Conn, a: string, b: string)
    requires c.closeReason.None?
    ensures Close(Close(c, a), b).closeReason == Some(a)
    ensures Close(Close(c, a), b) == Close(c, a)
  {
  }

  // ---------------------------------------------------------------------
  // Sending gate

  /** VNCSConnectionST::isCongested: buffered output always counts as
      congestion; otherwise only a client with fences and without UDP can be
      held back, and then the congestion controller decides. */
  function IsCongested(bufferUsage: nat, cp: MsgWriter.ConnParams, controllerCongested: bool): (r: bool)
    ensures bufferUsage > 0 ==> r
    ensures bufferUsage == 0 && (!cp.supportsFence || cp.supportsUdp) ==> !r
    ensures bufferUsage == 0 && cp.supportsFence && !cp.supportsUdp ==> (r <==> controllerCongested)
  {
    if bufferUsage > 0 then true
    else if !cp.supportsFence || cp.supportsUdp then false
    else controllerCongested
  }

  /** The conditions checked before the congestion test. */
  predicate Eligible(c: Conn) {
    !c.syncFence && !c.inProcessMessages && c.state == Normal
    && (c.requested != {} || c.continuousUpdates)
  }

  datatype Gate = Gate(conn: Conn, send: bool)

  /** The checks at the head of writeFramebufferUpdate.  `perms` is the
      answer getPerms would give if a permission re-check is due. */
  function UpdateGate(c: Conn, congested: bool, perms: Option<Perms>): (g: Gate)
    ensures g.send <==> Eligible(c) && !congested
                        && (if c.needsPermCheck then perms.Some? && perms.value.read
                            else View in c.accessRights)
    ensures g.conn.writer == c.writer && g.conn.requested == c.requested && g.conn.changed == c.changed
    ensures g.conn.state == Closing <==>
              c.state == Closing || (Eligible(c) && !congested && c.needsPermCheck && perms.None?)
  {
    if !Eligible(c) || congested then Gate(c, false)
    else
      var c1 :=
        if !c.needsPermCheck then Some(c)
        else if perms.None? then None
        else Some(c.(needsPermCheck := false, accessRights := ApplyPerms(c.accessRights, perms.value)));
      if c1.None? then Gate(Close(c.(needsPermCheck := false), "User was deleted"), false)
      else if View !in c1.value.accessRights then
        Gate(c1.value.(complainedAboutNoViewRights := true), false)
      else Gate(c1.value, true)
  }

  /** While a synchronised fence is being handled or messages are still
      being read, nothing is sent, whatever else holds. */
  lemma GateHoldsDuringSync(c: Conn, congested: bool, perms: Option<Perms>)
    requires c.syncFence || c.inProcessMessages
    ensures UpdateGate(c, congested, perms) == Gate(c, false)
  {
  }

  // ---------------------------------------------------------------------
  // Idle timeout

  const IntMax: int := 0x7fff_ffff

  /** secsToMillis: saturates at INT_MAX for negative or oversized input
      (rfb/util, not part of this model; this is its TigerVNC definition). */
  function SecsToMillis(secs: int): (ms: int)
    ensures 0 <= secs <= IntMax / 1000 ==> ms == secs * 1000
    ensures secs < 0 || secs > IntMax / 1000 ==> ms == IntMax
    ensures 0 <= ms <= IntMax
  {
    if secs < 0 || secs > IntMax / 1000 then IntMax else secs * 1000
  }

  /** The timeout in force: at least 15 seconds before the handshake ends. */
  function EffectiveTimeout(configured: int, s: RfbState): (t: int)
    ensures s == Normal ==> t == configured
    ensures s != Normal ==> t >= 15 && (configured >= 15 ==> t == configured)
  {
    if s != Normal && configured < 15 then 15 else configured
  }

  datatype Idle = Idle(conn: Conn, millis: int, closed: bool)

  /** VNCSConnectionST::checkIdleTimeout at time `now`: the connection after
      the check and the milliseconds until the next one.  A clock that went
      backwards resets the last event time first, also when the connection
      is then closed. */
  function CheckIdleTimeout(c: Conn, configured: int, now: int): (r: Idle)
    ensures configured == 0 ==> r == Idle(c, 0, false)
    ensures r.closed ==>
              r.conn == Close(c.(lastEventTime := if now < c.lastEventTime then now else c.lastEventTime), "Idle timeout")
              && r.millis == 0
    ensures !r.closed ==> r.conn == c || r.conn == c.(lastEventTime := now)
    ensures configured != 0 && now < c.lastEventTime && EffectiveTimeout(configured, c.state) > 0 ==>
              !r.closed && r.conn.lastEventTime == now
  {
    if configured == 0 then Idle(c, 0, false)
    else
      var t := EffectiveTimeout(configured, c.state);
      var last := if now < c.lastEventTime then now else c.lastEventTime;
      var left := last + t - now;
      if left < -60 then Idle(c.(lastEventTime := now), SecsToMillis(t), false)
      else if left <= 0 then Idle(Close(c.(lastEventTime := last), "Idle timeout"), 0, true)
      else Idle(c.(lastEventTime := last), SecsToMillis(left), false)
  }

  /** The time left before the idle deadline, as checkIdleTimeout computes it
      after correcting a clock that went backwards. */
  function TimeLeft(c: Conn, configured: int, now: int): int {
    var last := if now < c.lastEventTime then now else c.lastEventTime;
    last + EffectiveTimeout(configured, c.state) - now
  }

  /** The connection is closed exactly when the deadline has passed by at
      most a minute; a check more than a minute late restarts the count, and
      otherwise the returned wait ends exactly at the deadline. */
  lemma IdleDeadline(c: Conn, configured: int, now: int)
    requires configured != 0
    ensures var r := CheckIdleTimeout(c, configured, now);
      var left := TimeLeft(c, configured, now);
      (r.closed <==> -60 <= left <= 0)
      && (left < -60 ==> r.conn.lastEventTime == now
                         && r.millis == SecsToMillis(EffectiveTimeout(configured, c.state)))
      && (left > 0 ==> r.millis == SecsToMillis(left)
                       && now + left == r.conn.lastEventTime + EffectiveTimeout(configured, c.state))
  {
  }

  // ---------------------------------------------------------------------
  // Update requests

  /** VNCSConnectionST::framebufferUpdateRequest: the request is clipped to
      the framebuffer; it is added to the requested region unless it is an
      incremental request in continuous mode; a non-incremental request also
      marks the area changed and asks for an ExtendedDesktopSize rect. */
  function FramebufferUpdateRequest(c: Conn, r: Rect, incremental: bool): (d: Conn)
    ensures View !in c.accessRights ==> d == c
    ensures View in c.accessRights ==>
      var area := Points(r) * Points(Framebuffer(c));
      d.requested == (if !incremental || !c.continuousUpdates then c.requested + area else c.requested)
      && d.changed == (if !incremental then c.changed + area else c.changed)
      && d.writer == (if !incremental then MsgWriter.Request(c.writer, c.cp, MsgWriter.ExtendedDesktopSize).1
                      else c.writer)
      && d.(requested := c.requested, changed := c.changed, writer := c.writer) == c
  {
    if View !in c.accessRights then c
    else
      var fb := Framebuffer(c);
      var safe := if !r.EnclosedBy(fb) then r.Intersect(fb) else r;
      ClipPoints(r, fb);
      var area := Points(safe);
      var c1 := if !incremental || !c.continuousUpdates then c.(requested := c.requested + area) else c;
      if !incremental then
        c1.(changed := c1.changed + area,
            writer := MsgWriter.Request(c1.writer, c1.cp, MsgWriter.ExtendedDesktopSize).1)
      else c1
  }

  /** Clipping only where needed covers the same pixels as always clipping. */
  lemma ClipPoints(r: Rect, fb: Rect)
    ensures Points(if !r.EnclosedBy(fb) then r.Intersect(fb) else r) == Points(r) * Points(fb)
  {
    if r.EnclosedBy(fb) {
      if r.IsEmpty() {
        EmptyPoints(r);
      } else {
        EnclosedPoints(r, fb);
      }
    }
  }

  /** Requests never reach outside the framebuffer. */
  lemma RequestStaysInside(c: Conn, r: Rect, incremental: bool)
    requires c.requested <= Points(Framebuffer(c))
    ensures FramebufferUpdateRequest(c, r, incremental).requested <= Points(Framebuffer(c))
  {
  }

  /** VNCSConnectionST::enableContinuousUpdates.  Turning the mode off tells
      the client with an EndOfContinuousUpdates message. */
  function EnableContinuousUpdates(c: Conn, enable: bool, x: int, y: int, w: int, h: int): (r: Result<Conn>)
    ensures r.Err? <==> !c.cp.supportsFence || !c.cp.supportsContinuousUpdates
    ensures r.Err? ==> r.error == ContinuousUpdatesNotAllowed
    ensures r.Ok? ==> r.value.continuousUpdates == enable
                      && r.value.cuRegion == Points(XYWH(x, y, w, h))
                      && (enable ==> r.value.requested == {} && r.value.writer == c.writer)
                      && (!enable ==> r.value.requested == c.requested
                                      && r.value.writer.os == c.writer.os + [Wire.U8(Wire.MsgEndOfContinuousUpdates)])
  {
    if !c.cp.supportsFence || !c.cp.supportsContinuousUpdates then Err(ContinuousUpdatesNotAllowed)
    else
      var c1 := c.(continuousUpdates := enable, cuRegion := Points(XYWH(x, y, w, h)));
      if enable then Ok(c1.(requested := {}))
      else
        Ok(c1.(writer := MsgWriter.WriteEndOfContinuousUpdates(c1.writer, c1.cp).value))
  }

  // ---------------------------------------------------------------------
  // Status shortcut

  /** The rights VNCSConnectionST::setStatus installs: 0 grants pointer,
      keyboard and view, 1 keeps view only, 2 removes all three; any other
      value leaves the rights alone.  Other rights never change. */
  function StatusRights(rights: set<Right>, status: int): (r: set<Right>)
    ensures r - StatusBits == rights - StatusBits
    ensures status == 0 ==> r * StatusBits == StatusBits
    ensures status == 1 ==> r * StatusBits == {View}
    ensures status == 2 ==> r * StatusBits == {}
    ensures status !in {0, 1, 2} ==> r == rights
  {
    if status == 0 then rights + StatusBits
    else if status == 1 then (rights - {PtrEvents, KeyEvents}) + {View}
    else if status == 2 then rights - StatusBits
    else rights
  }

  /** VNCSConnectionST::setStatus: the rights change, then a full
      non-incremental request for `fb` follows in every case. */
  function SetStatus(c: Conn, status: int, fb: Rect): (d: Conn)
    ensures d.accessRights == StatusRights(c.accessRights, status)
    ensures View in d.accessRights ==>
              Points(fb) * Points(Framebuffer(c)) <= d.requested
              && Points(fb) * Points(Framebuffer(c)) <= d.changed
    ensures View !in d.accessRights ==> d == c.(accessRights := d.accessRights)
  {
    FramebufferUpdateRequest(c.(accessRights := StatusRights(c.accessRights, status)), fb, false)
  }

  /** VNCSConnectionST::getStatus: 4 when the three rights match no status. */
  function GetStatus(c: Conn): (s: int)
    ensures s in {0, 1, 2, 4}
    ensures s == 0 <==> c.accessRights * StatusBits == StatusBits
    ensures s == 1 <==> c.accessRights * StatusBits == {View}
    ensures s == 2 <==> c.accessRights * StatusBits == {}
  {
    var bits := c.accessRights * StatusBits;
    if bits == StatusBits then 0
    else if bits == {View} then 1
    else if bits == {} then 2
    else 4
  }

  lemma StatusRoundTrip(c: Conn, status: int, fb: Rect)
    requires status in {0, 1, 2}
    ensures GetStatus(SetStatus(c, status, fb)) == status
  {
  }
}
