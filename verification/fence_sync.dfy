/** Fence sequencing in VNCSConnectionST: how fence requests from the
    client are answered while a batch of incoming messages is processed.
    Fences are an extension to RFC 6143 (the community RFB protocol
    description defines them); the SyncNext flag asks the server to answer
    only after it has handled the next message. */
module FenceSync {
  import opened Outcome
  import opened Wire

  /** A fence answer as handed to SMsgWriter::writeFence. */
  datatype Fence = Fence(flags: bv32, data: seq<Byte>)

  /** An incoming client message, as far as fence handling cares. */
  datatype Msg = FenceMsg(flags: bv32, data: seq<Byte>) | Other

  /** Flags kept on a stored SyncNext request. */
  const SyncMask: bv32 := FenceBlockBefore | FenceBlockAfter | FenceSyncNext

  /** Flags kept on a request answered at once. */
  const EchoMask: bv32 := FenceBlockBefore | FenceBlockAfter

  predicate IsSyncRequest(m: Msg) {
    m.FenceMsg? && m.flags & FenceRequest != 0 && m.flags & FenceSyncNext != 0
  }

  predicate IsPlainRequest(m: Msg) {
    m.FenceMsg? && m.flags & FenceRequest != 0 && m.flags & FenceSyncNext == 0
  }

  /** The per-connection fence fields: pendingSyncFence, syncFence and the
      stored fenceFlags/fenceData.  `armed` is the copy taken when a stored
      request is armed; only the corrected loop uses it. */
  datatype State = State(pendingSyncFence: bool, syncFence: bool, stored: Fence, armed: Fence)

  /** VNCSConnectionST::fence for one message: the new state and the answers
      written while handling it.  Responses (no Request flag) and other
      messages change nothing here. */
  function HandleFence(st: State, m: Msg): (r: (State, seq<Fence>))
    ensures IsSyncRequest(m) ==> r.1 == [] && r.0.pendingSyncFence
                                 && r.0.stored.flags & !SyncMask == 0
                                 && r.0.syncFence == st.syncFence && r.0.armed == st.armed
    ensures IsPlainRequest(m) ==> r.0 == st && |r.1| == 1
                                  && r.1[0].flags & !EchoMask == 0 && r.1[0].data == m.data
    ensures !IsSyncRequest(m) && !IsPlainRequest(m) ==> r == (st, [])
  {
    if IsSyncRequest(m) then
      (st.(pendingSyncFence := true, stored := Fence(m.flags & SyncMask, m.data)), [])
    else if IsPlainRequest(m) then
      (st, [Fence(m.flags & EchoMask, m.data)])
    else
      (st, [])
  }

  /** One iteration of the processMessages loop as written: a pending
      SyncNext request is armed, the message is processed, and if armed the
      fence fields are echoed as they are at that point. */
  function StepAsWritten(st: State, m: Msg): (State, seq<Fence>) {
    var armed := if st.pendingSyncFence then st.(syncFence := true, pendingSyncFence := false) else st;
    var (st2, now) := HandleFence(armed, m);
    if st2.syncFence then (st2.(syncFence := false), now + [st2.stored]) else (st2, now)
  }

  /** The corrected iteration: arming takes a copy of the stored request, so a
      new SyncNext request handled in the same iteration cannot overwrite
      the answer that is due. */
  function Step(st: State, m: Msg): (State, seq<Fence>) {
    var armed := if st.pendingSyncFence
                 then st.(syncFence := true, pendingSyncFence := false, armed := st.stored)
                 else st;
    var (st2, now) := HandleFence(armed, m);
    if st2.syncFence then (st2.(syncFence := false), now + [st2.armed]) else (st2, now)
  }

  function RunAsWritten(st: State, msgs: seq<Msg>): (State, seq<Fence>)
    decreases |msgs|
  {
    if msgs == [] then (st, [])
    else
      var (st1, e) := StepAsWritten(st, msgs[0]);
      var (st2, rest) := RunAsWritten(st1, msgs[1..]);
      (st2, e + rest)
  }

  function Run(st: State, msgs: seq<Msg>): (State, seq<Fence>)
    decreases |msgs|
  {
    if msgs == [] then (st, [])
    else
      var (st1, e) := Step(st, msgs[0]);
      var (st2, rest) := Run(st1, msgs[1..]);
      (st2, e + rest)
  }

  // ---------------------------------------------------------------------
  // The intended answer sequence, stated per message

  /** The SyncNext request carried into a batch from the previous one. */
  function Carry(st: State): Option<Fence> {
    if st.pendingSyncFence then Some(st.stored) else None
  }

  function OptSeq(o: Option<Fence>): seq<Fence> {
    if o.Some? then [o.value] else []
  }

  /** The answer a message itself asks for at once. */
  function Immediate(m: Msg): seq<Fence> {
    if IsPlainRequest(m) then [Fence(m.flags & EchoMask, m.data)] else []
  }

  /** The answer a message defers to after the following message. */
  function Deferred(m: Msg): Option<Fence> {
    if IsSyncRequest(m) then Some(Fence(m.flags & SyncMask, m.data)) else None
  }

  /** What should be written while message i is handled: its own immediate
      answer, then the answer deferred by the message before it (or by the
      previous batch, for the first message). */
  function AnswersAt(carry: Option<Fence>, msgs: seq<Msg>, i: nat): seq<Fence>
    requires i < |msgs|
  {
    Immediate(msgs[i]) + OptSeq(if i == 0 then carry else Deferred(msgs[i - 1]))
  }

  function Flatten(ss: seq<seq<Fence>>): seq<Fence> {
    if ss == [] then [] else ss[0] + Flatten(ss[1..])
  }

  function Answers(carry: Option<Fence>, msgs: seq<Msg>): seq<seq<Fence>> {
    seq(|msgs|, i requires 0 <= i < |msgs| => AnswersAt(carry, msgs, i))
  }

  lemma AnswersShift(carry: Option<Fence>, msgs: seq<Msg>)
    requires msgs != []
    ensures Answers(carry, msgs) == [AnswersAt(carry, msgs, 0)] + Answers(Deferred(msgs[0]), msgs[1..])
  {
    var a := Answers(carry, msgs);
    var b := [AnswersAt(carry, msgs, 0)] + Answers(Deferred(msgs[0]), msgs[1..]);
    assert |a| == |b|;
    forall i | 0 < i < |a| ensures a[i] == b[i] {
      assert b[i] == AnswersAt(Deferred(msgs[0]), msgs[1..], i - 1);
    }
  }

  /** The corrected loop answers every request exactly as the protocol asks:
      plain requests at once, each SyncNext request right after the message
      that follows it; a SyncNext request at the end of the batch stays
      pending for the next one. */
  lemma {:induction false} RunAnswers(st: State, msgs: seq<Msg>)
    requires !st.syncFence
    ensures Run(st, msgs).1 == Flatten(Answers(Carry(st), msgs))
    ensures !Run(st, msgs).0.syncFence
    ensures Carry(Run(st, msgs).0) == (if msgs == [] then Carry(st) else Deferred(msgs[|msgs| - 1]))
    decreases |msgs|
  {
    if msgs != [] {
      var m := msgs[0];
      var (st1, e) := Step(st, m);
      assert e == AnswersAt(Carry(st), msgs, 0);
      assert Carry(st1) == Deferred(m);
      RunAnswers(st1, msgs[1..]);
      AnswersShift(Carry(st), msgs);
      if |msgs| > 1 {
        assert msgs[1..][|msgs[1..]| - 1] == msgs[|msgs| - 1];
      }
    }
  }

  /** Every answer carries only flags writeFence accepts. */
  lemma {:induction false} AnswerFlagsKnown(st: State, msgs: seq<Msg>)
    requires !st.syncFence
    requires st.stored.flags & !SyncMask == 0
    ensures forall f | f in Run(st, msgs).1 :: f.flags & !FenceFlagsSupported == 0
    decreases |msgs|
  {
    if msgs != [] {
      var (st1, e) := Step(st, msgs[0]);
      StepFlagsKnown(st, msgs[0]);
      AnswerFlagsKnown(st1, msgs[1..]);
      var rest := Run(st1, msgs[1..]).1;
      assert Run(st, msgs).1 == e + rest;
      forall f | f in e + rest ensures f.flags & !FenceFlagsSupported == 0 {
        if f in e {
          assert f in Step(st, msgs[0]).1;
        }
      }
    }
  }

  /** One corrected iteration keeps the stored flags inside SyncMask, leaves
      no fence armed and answers only with supported flags. */
  lemma StepFlagsKnown(st: State, m: Msg)
    requires !st.syncFence
    requires st.stored.flags & !SyncMask == 0
    ensures !Step(st, m).0.syncFence
    ensures Step(st, m).0.stored.flags & !SyncMask == 0
    ensures forall f | f in Step(st, m).1 :: f.flags & !FenceFlagsSupported == 0
  {
    MaskedFlags(st.stored.flags);
    if m.FenceMsg? {
      MaskedFlags(m.flags);
    }
  }

  /** The bit-vector facts behind StepFlagsKnown. */
  lemma MaskedFlags(x: bv32)
    ensures (x & SyncMask) & !SyncMask == 0
    ensures (x & SyncMask) & !FenceFlagsSupported == 0
    ensures (x & EchoMask) & !FenceFlagsSupported == 0
    ensures x & !SyncMask == 0 ==> x & !FenceFlagsSupported == 0
  {
  }

  // ---------------------------------------------------------------------
  // The loop as written

  /** Two SyncNext requests in a row: the first one's data is never echoed,
      and the second one's is echoed twice. */
  lemma BackToBackSyncNext()
    ensures var st := State(false, false, Fence(0, []), Fence(0, []));
      var msgs := [FenceMsg(FenceRequest | FenceSyncNext, [1]),
                   FenceMsg(FenceRequest | FenceSyncNext, [2]), Other];
      RunAsWritten(st, msgs).1 == [Fence(FenceSyncNext, [2]), Fence(FenceSyncNext, [2])]
      && Run(st, msgs).1 == [Fence(FenceSyncNext, [1]), Fence(FenceSyncNext, [2])]
  {
    var st := State(false, false, Fence(0, []), Fence(0, []));
    var a := FenceMsg(FenceRequest | FenceSyncNext, [1]);
    var b := FenceMsg(FenceRequest | FenceSyncNext, [2]);
    assert (FenceRequest | FenceSyncNext) & SyncMask == FenceSyncNext;
    var (s1, e1) := StepAsWritten(st, a);
    assert e1 == [];
    var (s2, e2) := StepAsWritten(s1, b);
    assert e2 == [Fence(FenceSyncNext, [2])];
    var (s3, e3) := StepAsWritten(s2, Other);
    assert e3 == [Fence(FenceSyncNext, [2])];
    assert [Other][1..] == [];
    assert e3 + [] == e3;
    assert RunAsWritten(s2, [Other]) == (s3, e3);
    assert RunAsWritten(s1, [b, Other]) == (s3, e2 + e3);
    assert [a, b, Other][1..] == [b, Other];
    var (t1, f1) := Step(st, a);
    var (t2, f2) := Step(t1, b);
    assert f2 == [Fence(FenceSyncNext, [1])];
    var (t3, f3) := Step(t2, Other);
    assert f3 == [Fence(FenceSyncNext, [2])];
    assert Run(t2, [Other]) == (t3, f3);
    assert Run(t1, [b, Other]) == (t3, f2 + f3);
  }

  /** No SyncNext request is followed directly by another one (including one
      carried in from the previous batch). */
  predicate NoBackToBack(carry: bool, msgs: seq<Msg>) {
    (carry && msgs != [] ==> !IsSyncRequest(msgs[0]))
    && forall i | 0 < i < |msgs| :: IsSyncRequest(msgs[i - 1]) ==> !IsSyncRequest(msgs[i])
  }

  /** Without back-to-back SyncNext requests the loop as written answers
      exactly like the corrected one. */
  lemma {:induction false} AsWrittenAgrees(st: State, msgs: seq<Msg>)
    requires !st.syncFence
    requires NoBackToBack(st.pendingSyncFence, msgs)
    ensures RunAsWritten(st, msgs).1 == Run(st, msgs).1
    ensures RunAsWritten(st, msgs).0.pendingSyncFence == Run(st, msgs).0.pendingSyncFence
    ensures RunAsWritten(st, msgs).0.stored == Run(st, msgs).0.stored
    ensures !RunAsWritten(st, msgs).0.syncFence
    decreases |msgs|
  {
    if msgs != [] {
      var (a1, e) := StepAsWritten(st, msgs[0]);
      var (b1, f) := Step(st, msgs[0]);
      assert e == f;
      var st1 := a1.(armed := b1.armed);
      assert Run(b1, msgs[1..]) == Run(st1, msgs[1..]) by {
        assert b1 == st1;
      }
      assert NoBackToBack(st1.pendingSyncFence, msgs[1..]) by {
        forall i | 0 < i < |msgs[1..]| ensures IsSyncRequest(msgs[1..][i - 1]) ==> !IsSyncRequest(msgs[1..][i]) {
          assert msgs[1..][i - 1] == msgs[i];
        }
      }
      AsWrittenAgrees(st1, msgs[1..]);
      ArmedIrrelevant(a1, b1.armed, msgs[1..]);
    }
  }

  /** The loop as written never reads the armed copy. */
  lemma {:induction false} ArmedIrrelevant(st: State, c: Fence, msgs: seq<Msg>)
    ensures RunAsWritten(st, msgs).1 == RunAsWritten(st.(armed := c), msgs).1
    ensures RunAsWritten(st, msgs).0 == RunAsWritten(st.(armed := c), msgs).0.(armed := RunAsWritten(st, msgs).0.armed)
    decreases |msgs|
  {
    if msgs != [] {
      var (a1, e) := StepAsWritten(st, msgs[0]);
      var (b1, f) := StepAsWritten(st.(armed := c), msgs[0]);
      assert b1 == a1.(armed := c);
      ArmedIrrelevant(a1, c, msgs[1..]);
    }
  }
}
