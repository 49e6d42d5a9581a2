/** The region bookkeeping of VNCSConnectionST::writeDataUpdate: which part
    of the framebuffer an update covers, which copied areas must be sent as
    changed because of the server-side rendered cursor, and what the
    tracker keeps afterwards.  The update tracker (rfb/UpdateTracker, not
    part of this model) is specified abstractly: it holds a changed and a
    copied region plus one copy offset, and getUpdateInfo hands out the part
    of them inside the request, with changed taking precedence. */
module UpdateRegions {
  import opened Region

  datatype Tracker = Tracker(changed: Region, copied: Region, dx: int, dy: int)

  datatype UpdateInfo = UpdateInfo(changed: Region, copied: Region, dx: int, dy: int)

  predicate IsEmpty(ui: UpdateInfo) {
    ui.changed == {} && ui.copied == {}
  }

  /** UpdateTracker::getUpdateInfo restricted to `req`. */
  function GetUpdateInfo(t: Tracker, req: Region): (ui: UpdateInfo)
    ensures ui.changed * ui.copied == {}
    ensures ui.changed + ui.copied == (t.changed + t.copied) * req
    ensures ui.changed == t.changed * req
    ensures ui.dx == t.dx && ui.dy == t.dy
  {
    UpdateInfo(t.changed * req, (t.copied - t.changed) * req, t.dx, t.dy)
  }

  function AddChanged(t: Tracker, r: Region): Tracker {
    t.(changed := t.changed + r)
  }

  /** UpdateTracker::subtract: forget everything inside `r`. */
  function Subtract(t: Tracker, r: Region): (u: Tracker)
    ensures (u.changed + u.copied) * r == {}
    ensures u.changed + u.copied == (t.changed + t.copied) - r
  {
    t.(changed := t.changed - r, copied := t.copied - r)
  }

  // ---------------------------------------------------------------------
  // Cursor rules

  /** Where a copy moves the pixels of the previously rendered cursor,
      clipped to the framebuffer. */
  function BogusCopiedCursor(damaged: Region, dx: int, dy: int, fb: Region): Region {
    Translate(damaged, dx, dy) * fb
  }

  /** The first cursor rule: if a copy would move old cursor pixels onto a
      copied destination, that destination area is marked changed. */
  function CopiedCursorRule(t: Tracker, ui: UpdateInfo, damaged: Region, bogus: Region): (r: (Tracker, bool))
    requires damaged == {} ==> bogus == {}
    ensures r.1 ==> r.0 == AddChanged(t, bogus)
    ensures !r.1 ==> r.0 == t && ui.copied * bogus == {}
  {
    if ui.copied != {} && damaged != {} then
      if ui.copied * bogus != {} then (AddChanged(t, bogus), true) else (t, false)
    else (t, false)
  }

  lemma BogusOfNothing(dx: int, dy: int, fb: Region)
    ensures BogusCopiedCursor({}, dx, dy, fb) == {}
  {
  }

  /** The second cursor rule: copied pixels under the rendered cursor are
      sent as changed instead, so the cursor can be drawn over them. */
  function MoveCursorCopies(ui: UpdateInfo, cursor: Region): (r: UpdateInfo)
    ensures r.copied * cursor == {}
    ensures r.changed + r.copied == ui.changed + ui.copied
    ensures ui.changed * ui.copied == {} ==> r.changed * r.copied == {}
    ensures r.dx == ui.dx && r.dy == ui.dy
  {
    if ui.copied * cursor != {} then
      ui.(changed := ui.changed + ui.copied * cursor, copied := ui.copied - cursor)
    else ui
  }

  // ---------------------------------------------------------------------
  // One data update

  /** The connection fields writeDataUpdate reads and writes. */
  datatype DataState = DataState(
    tracker: Tracker,
    requested: Region,
    continuousUpdates: bool,
    cuRegion: Region,
    damagedCursor: Region,
    removeRenderedCursor: bool,
    updateRenderedCursor: bool,
    udpFramesSinceFull: nat)

  /** What the server and the encoder side supply: the region still queued
      in the server, the server framebuffer's pixels (which clip the bogus
      copied cursor), the pixels of the client's framebuffer size (which a
      UDP full frame sends; the two differ while a resize is pending), the pixels of the cursor's
      effective rectangle and whether this client needs it rendered, the union of copy-passed
      rectangles, the full-frame period for UDP clients (0 = never),
      whether the writer has a pending fake update, and whether a lossless
      refresh of the request is due. */
  datatype DataEnv = DataEnv(
    pending: Region,
    fb: Region,
    clientFb: Region,
    cursor: Region,
    needRenderedCursor: bool,
    copyPassed: Region,
    udpFullFrameFrequency: nat,
    supportsUdp: bool,
    needFakeUpdate: bool,
    refreshDue: bool)

  datatype Action = Nothing | Update(ui: UpdateInfo) | LosslessRefresh(req: Region)

  datatype DataPlan = DataPlan(state: DataState, action: Action)

  /** The region an update answers. */
  function Requested(st: DataState): Region {
    if st.continuousUpdates then st.cuRegion + st.requested else st.requested
  }

  /** The tracker after the cursor flags are honoured, and whether the
      update info must be recomputed. */
  function CursorFlags(st: DataState, env: DataEnv, t: Tracker, again: bool): (r: (DataState, bool))
    ensures !r.0.removeRenderedCursor && !r.0.updateRenderedCursor
    ensures st.removeRenderedCursor ==> r.0.damagedCursor == {} && st.damagedCursor <= r.0.tracker.changed
    ensures st.updateRenderedCursor ==> env.cursor <= r.0.tracker.changed
    ensures t.changed <= r.0.tracker.changed && r.0.tracker.copied == t.copied
  {
    var t1 := if st.removeRenderedCursor then AddChanged(t, st.damagedCursor) else t;
    var d1 := if st.removeRenderedCursor then {} else st.damagedCursor;
    var t2 := if st.updateRenderedCursor then AddChanged(t1, env.cursor) else t1;
    (st.(tracker := t2, damagedCursor := d1, removeRenderedCursor := false, updateRenderedCursor := false),
     again || st.removeRenderedCursor || st.updateRenderedCursor)
  }

  /** The update info after the cursor rules, before a queued server update
      or a forced UDP full frame is considered. */
  function CursorSafeInfo(st: DataState, env: DataEnv, req: Region): (r: (DataState, UpdateInfo))
    ensures r.1.copied * BogusCopiedCursor(st.damagedCursor, st.tracker.dx, st.tracker.dy, env.fb) == {}
    ensures r.1.copied <= st.tracker.copied
    ensures r.1.changed * r.1.copied == {}
    ensures r.1.changed + r.1.copied <= req
    ensures (st.tracker.changed + st.tracker.copied) * req <= r.1.changed + r.1.copied
    ensures r.0.requested == st.requested && r.0.continuousUpdates == st.continuousUpdates
    ensures r.0.cuRegion == st.cuRegion && r.0.udpFramesSinceFull == st.udpFramesSinceFull
  {
    var ui0 := GetUpdateInfo(st.tracker, req);
    var bogus := BogusCopiedCursor(st.damagedCursor, st.tracker.dx, st.tracker.dy, env.fb);
    BogusOfNothing(st.tracker.dx, st.tracker.dy, env.fb);
    var rule := CopiedCursorRule(st.tracker, ui0, st.damagedCursor, bogus);
    var flags := CursorFlags(st, env, rule.0, rule.1);
    var ui1 := if flags.1 then GetUpdateInfo(flags.0.tracker, req) else ui0;
    (flags.0, ui1)
  }

  /** VNCSConnectionST::writeDataUpdate as far as regions go. */
  function DataUpdate(st: DataState, env: DataEnv): (p: DataPlan)
    ensures Requested(st) == {} ==> p == DataPlan(st, Nothing)
    ensures p.action.Nothing? ==> p.state.requested == st.requested
    ensures !p.action.Nothing? ==> p.state.requested == {}
    ensures !p.action.Nothing? && env.pending == {} ==>
              (p.state.tracker.changed + p.state.tracker.copied) * Requested(st) == {}
    ensures p.action.Update? && env.pending != {} ==> p.action.ui.copied == {}
    ensures p.action.Update? && env.pending == {} ==>
              (st.tracker.changed + st.tracker.copied) * Requested(st) <= p.action.ui.changed + p.action.ui.copied
    ensures p.action.LosslessRefresh? && env.pending == {} ==>
              p.action.req == Requested(st) && (st.tracker.changed + st.tracker.copied) * Requested(st) == {}
    ensures p.action.Update? ==>
              p.action.ui.copied * BogusCopiedCursor(st.damagedCursor, st.tracker.dx, st.tracker.dy, env.fb) == {}
              && p.action.ui.copied <= st.tracker.copied * Requested(st)
    ensures p.action.Update? && env.needRenderedCursor ==> p.action.ui.copied * env.cursor == {}
    ensures Requested(st) != {} && env.udpFullFrameFrequency != 0 && env.supportsUdp
            && st.udpFramesSinceFull >= env.udpFullFrameFrequency && env.clientFb != {} ==>
              p.action.Update? && env.clientFb <= p.action.ui.changed && p.state.udpFramesSinceFull == 1
  {
    var req := Requested(st);
    if req == {} then DataPlan(st, Nothing)
    else
      var (st2, ui1) := CursorSafeInfo(st, env, req);
      var req2 := if env.pending != {} then req - env.pending - ui1.changed - ui1.copied - env.copyPassed else req;
      var ui2 := if env.pending != {} then ui1.(changed := {}, copied := {}) else ui1;
      var cursor := env.cursor;
      var ui3 := if env.needRenderedCursor then MoveCursorCopies(ui2, cursor) else ui2;
      var damaged := if env.needRenderedCursor then st2.damagedCursor + ui3.changed * cursor else st2.damagedCursor;
      var fullFrame := env.udpFullFrameFrequency != 0 && env.supportsUdp
                       && st2.udpFramesSinceFull >= env.udpFullFrameFrequency;
      var ui4 := if fullFrame then ui3.(changed := ui3.changed + env.clientFb) else ui3;
      var frames := if fullFrame then 0 else st2.udpFramesSinceFull;
      var st3 := st2.(damagedCursor := damaged, udpFramesSinceFull := frames);
      if IsEmpty(ui4) && !env.needFakeUpdate && !env.refreshDue then DataPlan(st3, Nothing)
      else
        var action := if !IsEmpty(ui4) then Update(ui4) else LosslessRefresh(req2);
        var counted := if env.udpFullFrameFrequency != 0 && env.supportsUdp then frames + 1 else frames;
        DataPlan(st3.(tracker := Subtract(st3.tracker, req2), requested := {}, udpFramesSinceFull := counted),
                 action)
  }
}
