/** The per-screen encoder table of ScreenEncoderManager: one video encoder
    slot per screen of the layout, reconciled by position and screen id
    whenever the layout changes.  Creating an encoder is an oracle that may
    fail (the factory throws); a slot is null after a failed creation. */
module ScreenEncoders {
  import opened Outcome
  import opened KasmVideo
  import opened ScreenSets

  /** A live encoder: the id of the screen it was made for and its kind. */
  datatype Made = Made(id: nat, kind: Encoder)

  /** A slot of the table; `None` is a null pointer. */
  type Slot = Option<Made>

  /** Whether the factory succeeds in making `kind` for `screen`. */
  type Oracle = (Encoder, Screen) -> bool

  /** The slot add_screen returns and the encoders it tried, in order. */
  datatype Attempt = Attempt(slot: Slot, tried: seq<Encoder>)

  /** ScreenEncoderManager::add_screen: the base encoder first; if that
      throws and is not already the software H.264 encoder, one retry with
      it.  No exception escapes: a failure leaves the slot null. */
  function AddScreen(base: Encoder, screen: Screen, ok: Oracle): (a: Attempt)
    ensures 1 <= |a.tried| <= 2 && a.tried[0] == base
    ensures |a.tried| == 2 <==> !ok(base, screen) && base != H264Software
    ensures |a.tried| == 2 ==> a.tried[1] == H264Software
    ensures a.slot == None <==> forall k :: 0 <= k < |a.tried| ==> !ok(a.tried[k], screen)
    ensures a.slot != None ==> a.slot == Some(Made(screen.id, a.tried[|a.tried| - 1]))
  {
    if ok(base, screen) then Attempt(Some(Made(screen.id, base)), [base])
    else if base != H264Software then
      Attempt(if ok(H264Software, screen) then Some(Made(screen.id, H264Software)) else None,
              [base, H264Software])
    else Attempt(None, [base])
  }

  /** The live encoders among some slots, in order. */
  function Live(slots: seq<Slot>): (r: seq<Made>)
    ensures |r| <= |slots|
  {
    if |slots| == 0 then []
    else (if slots[0].Some? then [slots[0].value] else []) + Live(slots[1..])
  }

  lemma {:induction false} LiveAppend(a: seq<Slot>, b: seq<Slot>)
    ensures Live(a + b) == Live(a) + Live(b)
    decreases |a|
  {
    if |a| > 0 {
      assert (a + b)[1..] == a[1..] + b;
      LiveAppend(a[1..], b);
    } else {
      assert a + b == b;
    }
  }

  /** A slot that already serves `screen` and is kept. */
  predicate Serves(slot: Slot, screen: Screen) {
    slot.Some? && slot.value.id == screen.id
  }

  /** The outcome of a reconciliation: the new table, the encoders deleted,
      the encoders dropped from the table without being deleted, and the
      encoders created. */
  datatype Sync = Sync(slots: seq<Slot>, deleted: seq<Made>, dropped: seq<Made>, created: seq<Made>)

  /** What the loop over the shared positions leaves in slot `i`: the slot
      itself if it serves its screen, otherwise a fresh add_screen. */
  function Pick(slot: Slot, screen: Screen, base: Encoder, ok: Oracle): Slot {
    if Serves(slot, screen) then slot else AddScreen(base, screen, ok).slot
  }

  /** The slots the shared loop deletes, position by position. */
  function Replaced(slots: seq<Slot>, layout: seq<Screen>): (r: seq<Slot>)
    requires |slots| == |layout|
    ensures |r| == |slots|
    ensures forall i :: 0 <= i < |r| ==> r[i] == if Serves(slots[i], layout[i]) then None else slots[i]
  {
    seq(|slots|, i requires 0 <= i < |slots| => if Serves(slots[i], layout[i]) then None else slots[i])
  }

  /** The slots the shared loop creates, position by position. */
  function Refilled(slots: seq<Slot>, layout: seq<Screen>, base: Encoder, ok: Oracle): (r: seq<Slot>)
    requires |slots| == |layout|
    ensures |r| == |slots|
    ensures forall i :: 0 <= i < |r| ==>
              r[i] == if Serves(slots[i], layout[i]) then None else AddScreen(base, layout[i], ok).slot
  {
    seq(|slots|, i requires 0 <= i < |slots| =>
          if Serves(slots[i], layout[i]) then None else AddScreen(base, layout[i], ok).slot)
  }

  /** The loop over the positions both tables share: a slot that does not
      serve its screen is deleted and refilled by add_screen. */
  function SyncShared(slots: seq<Slot>, layout: seq<Screen>, base: Encoder, ok: Oracle): (r: Sync)
    requires |slots| == |layout|
    ensures |r.slots| == |layout| && r.dropped == []
    ensures forall i :: 0 <= i < |layout| ==> r.slots[i] == Pick(slots[i], layout[i], base, ok)
  {
    var n := |slots|;
    var kept := seq(n, i requires 0 <= i < n => Pick(slots[i], layout[i], base, ok));
    Sync(kept, Live(Replaced(slots, layout)), [], Live(Refilled(slots, layout, base, ok)))
  }

  function LiveOne(s: Slot): multiset<Made> {
    if s.Some? then multiset{s.value} else multiset{}
  }

  lemma LiveCons(a: seq<Slot>)
    requires |a| > 0
    ensures multiset(Live(a)) == LiveOne(a[0]) + multiset(Live(a[1..]))
  {
  }

  /** Two balanced sums add up to a balanced sum. */
  lemma Regroup<T>(x: multiset<T>, y: multiset<T>, x2: multiset<T>, y2: multiset<T>,
                   a: multiset<T>, c: multiset<T>, a2: multiset<T>, c2: multiset<T>)
    requires x + y == x2 + y2 && a + c == a2 + c2
    ensures (x + a) + (y + c) == (x2 + a2) + (y2 + c2)
  {
    forall m
      ensures ((x + a) + (y + c))[m] == ((x2 + a2) + (y2 + c2))[m]
    {
      assert (x + y)[m] == (x2 + y2)[m];
      assert (a + c)[m] == (a2 + c2)[m];
    }
  }

  /** If every position balances, the whole tables balance. */
  lemma {:induction false} LiveBalance(a: seq<Slot>, c: seq<Slot>, a2: seq<Slot>, d: seq<Slot>)
    requires |a| == |c| == |a2| == |d|
    requires forall i :: 0 <= i < |a| ==> LiveOne(a[i]) + LiveOne(c[i]) == LiveOne(a2[i]) + LiveOne(d[i])
    ensures multiset(Live(a)) + multiset(Live(c)) == multiset(Live(a2)) + multiset(Live(d))
    decreases |a|
  {
    if |a| > 0 {
      LiveBalance(a[1..], c[1..], a2[1..], d[1..]);
      LiveCons(a);
      LiveCons(c);
      LiveCons(a2);
      LiveCons(d);
      Regroup(LiveOne(a[0]), LiveOne(c[0]), LiveOne(a2[0]), LiveOne(d[0]),
              multiset(Live(a[1..])), multiset(Live(c[1..])), multiset(Live(a2[1..])), multiset(Live(d[1..])));
    }
  }

  /** One position of the shared loop: the slot and what is created for it
      balance the slot kept and what is deleted. */
  lemma PositionBalances(slot: Slot, screen: Screen, base: Encoder, ok: Oracle)
    ensures var made := if Serves(slot, screen) then None else AddScreen(base, screen, ok).slot;
            var gone := if Serves(slot, screen) then None else slot;
            LiveOne(slot) + LiveOne(made) == LiveOne(Pick(slot, screen, base, ok)) + LiveOne(gone)
  {
    var x := LiveOne(slot);
    var y := LiveOne(AddScreen(base, screen, ok).slot);
    assert forall m :: (x + y)[m] == (y + x)[m];
  }

  /** The shared loop accounts for every encoder it touches. */
  lemma SharedAccounts(slots: seq<Slot>, layout: seq<Screen>, base: Encoder, ok: Oracle)
    requires |slots| == |layout|
    ensures var r := SyncShared(slots, layout, base, ok);
            multiset(Live(slots)) + multiset(r.created) == multiset(Live(r.slots)) + multiset(r.deleted)
  {
    var r := SyncShared(slots, layout, base, ok);
    var gone := Replaced(slots, layout);
    var made := Refilled(slots, layout, base, ok);
    forall i | 0 <= i < |slots|
      ensures LiveOne(slots[i]) + LiveOne(made[i]) == LiveOne(r.slots[i]) + LiveOne(gone[i])
    {
      PositionBalances(slots[i], layout[i], base, ok);
    }
    LiveBalance(slots, made, r.slots, gone);
  }

  /** Adding the same encoders to both sides keeps the balance. */
  lemma AddBoth<T>(p: multiset<T>, q: multiset<T>, u: multiset<T>, v: multiset<T>, t: multiset<T>)
    requires p + q == u + v
    ensures (p + t) + q == u + (v + t) && p + (q + t) == (u + t) + v
  {
    forall m
      ensures ((p + t) + q)[m] == (u + (v + t))[m] && (p + (q + t))[m] == ((u + t) + v)[m]
    {
      assert (p + q)[m] == (u + v)[m];
    }
  }

  /** add_screen for each screen in order. */
  function Fresh(layout: seq<Screen>, base: Encoder, ok: Oracle): (r: seq<Slot>)
    ensures |r| == |layout|
    ensures forall i :: 0 <= i < |layout| ==> r[i] == AddScreen(base, layout[i], ok).slot
  {
    seq(|layout|, i requires 0 <= i < |layout| => AddScreen(base, layout[i], ok).slot)
  }

  function Min(a: nat, b: nat): nat {
    if a < b then a else b
  }

  /** ScreenEncoderManager::sync_layout as written: a shrinking layout erases
      the tail slots without deleting their encoders. */
  function SyncLayoutAsWritten(slots: seq<Slot>, layout: ScreenSet, base: Encoder, ok: Oracle): (r: Sync)
    ensures |r.slots| == |layout.screens|
    ensures r.dropped == if |layout.screens| < |slots| then Live(slots[|layout.screens|..]) else []
  {
    var m := Min(|slots|, |layout.screens|);
    var shared := SyncShared(slots[..m], layout.screens[..m], base, ok);
    if |layout.screens| < |slots| then
      shared.(dropped := Live(slots[m..]))
    else
      var added := Fresh(layout.screens[m..], base, ok);
      Sync(shared.slots + added, shared.deleted, [], shared.created + Live(added))
  }

  /** sync_layout with the tail slots deleted like replaced ones. */
  function SyncLayout(slots: seq<Slot>, layout: ScreenSet, base: Encoder, ok: Oracle): (r: Sync)
    ensures |r.slots| == |layout.screens| && r.dropped == []
    ensures forall i :: 0 <= i < |layout.screens| && i < |slots| && Serves(slots[i], layout.screens[i]) ==>
              r.slots[i] == slots[i]
    ensures forall i :: 0 <= i < |layout.screens| && (i >= |slots| || !Serves(slots[i], layout.screens[i])) ==>
              r.slots[i] == AddScreen(base, layout.screens[i], ok).slot
  {
    var m := Min(|slots|, |layout.screens|);
    var shared := SyncShared(slots[..m], layout.screens[..m], base, ok);
    if |layout.screens| < |slots| then
      shared.(deleted := shared.deleted + Live(slots[m..]))
    else
      var added := Fresh(layout.screens[m..], base, ok);
      Sync(shared.slots + added, shared.deleted, [], shared.created + Live(added))
  }

  /** Both versions agree on the table, and on everything when the layout
      does not shrink. */
  lemma AsWrittenAgrees(slots: seq<Slot>, layout: ScreenSet, base: Encoder, ok: Oracle)
    ensures SyncLayoutAsWritten(slots, layout, base, ok).slots == SyncLayout(slots, layout, base, ok).slots
    ensures |layout.screens| >= |slots| ==> SyncLayoutAsWritten(slots, layout, base, ok) == SyncLayout(slots, layout, base, ok)
  {
  }

  /** Every encoder is accounted for: the live encoders before plus those
      created are the live encoders after plus those deleted. */
  lemma NoLeak(slots: seq<Slot>, layout: ScreenSet, base: Encoder, ok: Oracle)
    ensures var r := SyncLayout(slots, layout, base, ok);
            multiset(Live(slots)) + multiset(r.created) == multiset(Live(r.slots)) + multiset(r.deleted)
  {
    var n := |layout.screens|;
    var m := Min(|slots|, n);
    assert slots == slots[..m] + slots[m..];
    LiveAppend(slots[..m], slots[m..]);
    var shared := SyncShared(slots[..m], layout.screens[..m], base, ok);
    SharedAccounts(slots[..m], layout.screens[..m], base, ok);
    var tail := multiset(Live(slots[m..]));
    if n >= |slots| {
      var added := Fresh(layout.screens[m..], base, ok);
      LiveAppend(shared.slots, added);
      assert tail == multiset{};
      AddBoth(multiset(Live(slots[..m])), multiset(shared.created), multiset(Live(shared.slots)),
              multiset(shared.deleted), multiset(Live(added)));
    } else {
      AddBoth(multiset(Live(slots[..m])), multiset(shared.created), multiset(Live(shared.slots)),
              multiset(shared.deleted), tail);
    }
  }

  /** A shrinking layout loses a live encoder as written: the encoder of
      the dropped screen is neither in the table nor deleted. */
  lemma AsWrittenLeaks()
    ensures var layout := ScreenSet([MakeScreen(1, 0, 0, 640, 480, 0)]);
            var r := SyncLayoutAsWritten([Some(Made(1, H264Software)), Some(Made(2, H264Software))],
                                         layout, H264Software, (e, s) => true);
            r.dropped == [Made(2, H264Software)]
            && Made(2, H264Software) !in Live(r.slots) && Made(2, H264Software) !in r.deleted
  {
    var old1 := Made(1, H264Software);
    var old2 := Made(2, H264Software);
    var slots := [Some(old1), Some(old2)];
    var layout := ScreenSet([MakeScreen(1, 0, 0, 640, 480, 0)]);
    var ok: Oracle := (e, s) => true;
    assert slots[..1] == [Some(old1)] && slots[1..] == [Some(old2)];
    var shared := SyncShared(slots[..1], layout.screens[..1], H264Software, ok);
    assert Pick(Some(old1), layout.screens[0], H264Software, ok) == Some(old1);
    assert shared.slots == [Some(old1)];
    assert Live([Some(old2)]) == [old2];
    assert Live([Some(old1)]) == [old1];
  }

  /** After a reconciliation every live slot serves the screen at its
      position. */
  lemma SlotsServeTheirScreens(slots: seq<Slot>, layout: ScreenSet, base: Encoder, ok: Oracle)
    ensures var r := SyncLayout(slots, layout, base, ok);
            forall i :: 0 <= i < |layout.screens| && r.slots[i].Some? ==> Serves(r.slots[i], layout.screens[i])
  {
  }

  /** Reconciling again with the same layout replaces nothing, provided
      every slot got an encoder the first time. */
  lemma SecondSyncKeepsAll(slots: seq<Slot>, layout: ScreenSet, base: Encoder, ok: Oracle)
    requires forall i :: 0 <= i < |layout.screens| ==> SyncLayout(slots, layout, base, ok).slots[i].Some?
    ensures var r := SyncLayout(slots, layout, base, ok);
            SyncLayout(r.slots, layout, base, ok).slots == r.slots
  {
    var r := SyncLayout(slots, layout, base, ok);
    SlotsServeTheirScreens(slots, layout, base, ok);
    var r2 := SyncLayout(r.slots, layout, base, ok);
    assert forall i :: 0 <= i < |layout.screens| ==> r2.slots[i] == r.slots[i];
  }
}
