/**
 Retries of the class-2 receiver (`ReceiverSpec`) when no PDU arrives any more: how many ticks it takes until missing data or a
 missing acknowledgement is given up, and which transactions are never given up.
 */
module ReceiverRetries {
  import opened ChunkTheory
  import opened GapTheory
  import opened NakRequests
  import opened ReceiverSpec
  import opened ReceiverSafety
  import opened ReceiverIntegrity

  ghost predicate Quiet(events: seq<Event>) {
    forall e :: e in events ==> e.Tick?
  }

  /** Ticks until the counter reaches the limit: one expiry of the timer for each count. */
  function Deadline(limit: nat, count: nat, ticks: nat, timer: nat): nat {
    (if limit > count + 1 then limit - count - 1 else 0) * (ticks + 1) + timer + 1
  }

  lemma DeadlineShrinks(limit: nat, count: nat, ticks: nat, timer: nat)
    ensures timer > 0 ==> Deadline(limit, count, ticks, timer - 1) == Deadline(limit, count, ticks, timer) - 1
    ensures count + 1 < limit ==> Deadline(limit, count + 1, ticks, ticks) == Deadline(limit, count, ticks, 0) - 1
    ensures count + 1 >= limit ==> Deadline(limit, count, ticks, 0) == 1
  {
    if count + 1 < limit {
      var n := limit - count - 2;
      assert (n + 1) * (ticks + 1) == n * (ticks + 1) + (ticks + 1);
    }
  }

  lemma {:induction false} FreedStays(cfg: Config, t: Txn, events: seq<Event>)
    requires StoreOk(cfg, t.store) && t.freed && Quiet(events) && forall e :: e in events ==> EventOk(e)
    ensures After(cfg, t, events).freed
    decreases |events|
  {
    hide Wf, EventOk;
    if events != [] {
      assert events[0] in events;
      FreedStays(cfg, t, events[1..]);
    }
  }

  // ---------------------------------------------------------------------------------------------------------------
  // Waiting for the acknowledgement of the FIN
  // ---------------------------------------------------------------------------------------------------------------

  /** A FIN has been sent; a transaction without an error got there by being complete. */
  predicate Waiting(t: Txn) {
    !t.freed && t.subState == WaitForFinAck && !t.rx.sendNak && (IsError(t.txnStat) || t.rx.complete)
  }

  predicate SameRetries(t: Txn, t': Txn) {
    && t'.freed == t.freed && t'.subState == t.subState && t'.rx.sendNak == t.rx.sendNak
    && t'.rx.complete == t.rx.complete && t'.ackTimer == t.ackTimer && t'.r2.ackNakCount == t.r2.ackNakCount
  }

  lemma WaitingSends(cfg: Config, t: Txn, e: Event)
    requires Waiting(t) && StoreOk(cfg, t.store) && e.Tick?
    ensures SameRetries(t, SendTick(cfg, InactivityTick(t), e).txn) && Waiting(SendTick(cfg, InactivityTick(t), e).txn)
  {
    hide Wf, CalcCrcChunk, ConditionCode, InactivityTick, SendTick;
    var t1 := InactivityTick(t);
    InactivityKeepsRetries(t);
    SendTickKeepsError(cfg, t1, e);
    SendsWhileWaiting(cfg, t1, e);
  }

  lemma InactivityKeepsRetries(t: Txn)
    ensures SameRetries(t, InactivityTick(t)) && (IsError(t.txnStat) ==> IsError(InactivityTick(t).txnStat))
  {
  }

  lemma SendsWhileWaiting(cfg: Config, t: Txn, e: Event)
    requires Waiting(t) && StoreOk(cfg, t.store) && e.Tick?
    ensures SameRetries(t, SendTick(cfg, t, e).txn)
  {
    hide Wf, CalcCrcChunk, ConditionCode;
    CalcCrcLeaves(cfg, t, e.readsOk);
  }

  lemma WaitingAck(cfg: Config, t: Txn)
    requires Waiting(t) && StoreOk(cfg, t.store)
    ensures var t' := AckTick(cfg, t);
            && t'.rx.complete == t.rx.complete
            && t'.freed == (t.rx.complete && t.ackTimer == 0 && t.r2.ackNakCount + 1 >= cfg.ackLimit)
            && (!t'.freed ==> Waiting(t'))
            && (t.ackTimer > 0 ==> t'.ackTimer == t.ackTimer - 1 && t'.r2.ackNakCount == t.r2.ackNakCount)
            && (t.ackTimer == 0 && !t'.freed && t.rx.complete ==>
                  t'.ackTimer == cfg.ackTicks && t'.r2.ackNakCount == t.r2.ackNakCount + 1)
  {
    hide Wf, HasGap;
  }

  /** Without any PDU a receiver that waits for the acknowledgement of its FIN goes away if and only if it is complete, and
      then exactly when the retries are used up.  One that gave up on an incomplete file stays for good. */
  lemma {:induction false} WaitingIsFreedIff(cfg: Config, t: Txn, ticks: seq<Event>)
    requires Waiting(t) && StoreOk(cfg, t.store) && Quiet(ticks) && forall e :: e in ticks ==> EventOk(e)
    ensures After(cfg, t, ticks).freed
            <==> t.rx.complete && |ticks| >= Deadline(cfg.ackLimit, t.r2.ackNakCount, cfg.ackTicks, t.ackTimer)
    decreases |ticks|
  {
    hide Wf, EventOk, SendTick, InactivityTick, AckTick, Deadline, Waiting;
    DeadlineIsPositive(cfg.ackLimit, t.r2.ackNakCount, cfg.ackTicks, t.ackTimer);
    WaitingIsAlive(t);
    if ticks != [] {
      var e := ticks[0];
      assert e in ticks && e.Tick?;
      var t1 := SendTick(cfg, InactivityTick(t), e).txn;
      WaitingSends(cfg, t, e);
      WaitingAck(cfg, t1);
      var t2 := AckTick(cfg, t1);
      assert Step(cfg, t, e).txn == t2;
      DeadlineShrinks(cfg.ackLimit, t.r2.ackNakCount, cfg.ackTicks, t.ackTimer);
      if t2.freed {
        FreedStays(cfg, t2, ticks[1..]);
      } else {
        WaitingIsFreedIff(cfg, t2, ticks[1..]);
      }
    }
  }

  lemma WaitingIsAlive(t: Txn)
    requires Waiting(t)
    ensures !t.freed
  {
  }

  lemma DeadlineIsPositive(limit: nat, count: nat, ticks: nat, timer: nat)
    ensures Deadline(limit, count, ticks, timer) > 0
  {
  }

  // ---------------------------------------------------------------------------------------------------------------
  // Waiting for missing data
  // ---------------------------------------------------------------------------------------------------------------

  /** The NAK step sees that something is missing; `NakOverlooksGapIff` says when it does not although there is a gap. */
  ghost predicate Seen(cfg: Config, t: Txn)
    requires StoreOk(cfg, t.store)
  {
    NeedsNak(t) && (t.rx.mdRecv ==> NakGaps(cfg, t) != [])
  }

  /** Something is missing, and nothing has gone wrong. */
  ghost predicate Missing(cfg: Config, t: Txn)
    requires StoreOk(cfg, t.store)
  {
    !t.freed && !IsError(t.txnStat) && !t.rx.complete && !t.rx.sendFin && Seen(cfg, t)
  }

  /** The retries are used up, and the FIN that says so is still to be sent. */
  predicate GivingUp(t: Txn) {
    !t.freed && IsError(t.txnStat) && t.rx.complete && t.rx.sendFin && t.subState != WaitForFinAck && t.r2.ackNakCount == 0
  }

  /** The inactivity timer does not run out within n ticks. */
  predicate Patient(t: Txn, n: nat) {
    t.rx.inactivityFired || t.inactivityTimer >= n
  }

  lemma AskedForSome(s: seq<Chunk>, n: nat, total: nat)
    requires Wf(s) && n > 0
    ensures ReportedGaps(s, n, total, 0) == [] <==> ReportedGaps(s, 1, total, 0) == []
  {
    if s != [] && s[0].offset == 0 {
      GapsAfterEmpty(s, 0, n, total);
      GapsAfterEmpty(s, 0, 1, total);
    }
  }

  lemma GapsAfterEmpty(s: seq<Chunk>, i: nat, n: nat, total: nat)
    requires Wf(s) && i < |s| && n > 0
    ensures GapsAfter(s, i, n, total, 0) == [] <==> s[i].End() >= total
  {
    if s[i].End() < total && i + 1 < |s| {
      assert s[i].End() < s[i + 1].offset;
    }
  }

  /** Exactly when the NAK step overlooks a gap that the completeness check sees: with room for one chunk only, once the
      beginning of the file is there.  It then takes the file for complete. */
  lemma NakOverlooksGapIff(cfg: Config, t: Txn)
    requires StoreOk(cfg, t.store)
    ensures (NakGaps(cfg, t) == [] <==> !HasGap(t))
            <==> !(cfg.maxChunks == 1 && |t.store.chunks| == 1 && t.store.chunks[0].offset == 0 && HasGap(t))
  {
    var s := t.store.chunks;
    var n := GapLimit(|s|, cfg.maxChunks);
    if n > 0 {
      AskedForSome(s, n, t.fsize);
    } else {
      assert |s| == 1 && cfg.maxChunks == 1;
    }
  }

  /** Whatever is missing is seen, but for this one case. */
  lemma SeenIff(cfg: Config, t: Txn)
    requires StoreOk(cfg, t.store)
    ensures Seen(cfg, t) <==> NeedsNak(t)
                              && !(t.rx.mdRecv && cfg.maxChunks == 1 && |t.store.chunks| == 1 && t.store.chunks[0].offset == 0)
  {
    hide Wf, NakGaps;
    NakOverlooksGapIff(cfg, t);
  }

  lemma NakDoneWaits(cfg: Config, t: Txn, dataRequested: bool)
    requires StoreOk(cfg, t.store) && Missing(cfg, t)
    ensures Missing(cfg, NakDone(t, false, dataRequested))
    ensures NakDone(t, false, dataRequested).ackTimer == t.ackTimer
    ensures NakDone(t, false, dataRequested).r2 == t.r2
    ensures NakDone(t, false, dataRequested).inactivityTimer == t.inactivityTimer
    ensures NakDone(t, false, dataRequested).rx.inactivityFired == t.rx.inactivityFired
  {
    hide Wf;
  }

  lemma MissingSends(cfg: Config, t: Txn, e: Event, n: nat)
    requires StoreOk(cfg, t.store) && Missing(cfg, t) && e.Tick? && Patient(t, n + 1)
    ensures var t' := SendTick(cfg, InactivityTick(t), e).txn;
            Missing(cfg, t') && Patient(t', n) && t'.ackTimer == t.ackTimer && t'.r2.ackNakCount == t.r2.ackNakCount
  {
    hide Wf, HasGap, NakGaps, NakDone, SendFin;
    var t1 := InactivityTick(t);
    InactivityWaits(cfg, t, n);
    NakDoneWaits(cfg, t1, false);
    NakDoneWaits(cfg, t1, true);
    if t1.rx.sendAck {
      AckSentWaits(cfg, t1);
    }
  }

  lemma InactivityWaits(cfg: Config, t: Txn, n: nat)
    requires StoreOk(cfg, t.store) && Missing(cfg, t) && Patient(t, n + 1)
    ensures var t' := InactivityTick(t);
            Missing(cfg, t') && Patient(t', n) && t'.ackTimer == t.ackTimer
  {
    hide Wf;
  }

  lemma AckSentWaits(cfg: Config, t: Txn)
    requires StoreOk(cfg, t.store) && Missing(cfg, t)
    ensures Missing(cfg, t.(rx := t.rx.(sendAck := false)))
  {
    hide Wf;
  }

  lemma MissingAck(cfg: Config, t: Txn)
    requires StoreOk(cfg, t.store) && Missing(cfg, t)
    ensures var t' := AckTick(cfg, t);
            && t'.inactivityTimer == t.inactivityTimer && t'.rx.inactivityFired == t.rx.inactivityFired
            && (t.ackTimer > 0 ==> Missing(cfg, t') && t'.ackTimer == t.ackTimer - 1 && t'.r2 == t.r2)
            && (t.ackTimer == 0 && t.r2.ackNakCount + 1 < cfg.nakLimit ==>
                  Missing(cfg, t') && t'.rx.sendNak && t'.ackTimer == cfg.ackTicks
                  && t'.r2.ackNakCount == t.r2.ackNakCount + 1)
            && (t.ackTimer == 0 && t.r2.ackNakCount + 1 >= cfg.nakLimit ==>
                  t'.txnStat == NAK_LIMIT_REACHED && GivingUp(t') && t'.ackTimer == cfg.ackTicks)
  {
    hide Wf;
  }

  /**
   Without any PDU a receiver that misses something asks again at each expiry of its timer, and after as many expiries as the
   limit allows declares the NAK limit reached: not a tick earlier, not a tick later.
   */
  lemma {:induction false} MissingIsGivenUp(cfg: Config, t: Txn, ticks: seq<Event>)
    requires StoreOk(cfg, t.store) && Missing(cfg, t) && Patient(t, |ticks|)
    requires Quiet(ticks) && forall e :: e in ticks ==> EventOk(e)
    ensures if |ticks| < Deadline(cfg.nakLimit, t.r2.ackNakCount, cfg.ackTicks, t.ackTimer)
            then Missing(cfg, After(cfg, t, ticks))
            else After(cfg, t, ticks).txnStat == NAK_LIMIT_REACHED
    decreases |ticks|
  {
    hide Wf, EventOk, SendTick, InactivityTick, AckTick, Deadline, Patient, Missing;
    DeadlineIsPositive(cfg.nakLimit, t.r2.ackNakCount, cfg.ackTicks, t.ackTimer);
    MissingIsAlive(cfg, t);
    if ticks != [] {
      var e := ticks[0];
      assert e in ticks && e.Tick?;
      var t1 := SendTick(cfg, InactivityTick(t), e).txn;
      MissingSends(cfg, t, e, |ticks| - 1);
      MissingAck(cfg, t1);
      var t2 := AckTick(cfg, t1);
      assert Step(cfg, t, e).txn == t2;
      DeadlineShrinks(cfg.nakLimit, t.r2.ackNakCount, cfg.ackTicks, t.ackTimer);
      if t1.ackTimer == 0 && t1.r2.ackNakCount + 1 >= cfg.nakLimit {
        ErrorIsSticky(cfg, t2, ticks[1..]);
      } else {
        StillPatient(t1, t2, |ticks| - 1);
        MissingIsGivenUp(cfg, t2, ticks[1..]);
      }
    }
  }

  lemma MissingIsAlive(cfg: Config, t: Txn)
    requires StoreOk(cfg, t.store) && Missing(cfg, t)
    ensures !t.freed
  {
  }

  lemma StillPatient(t: Txn, t': Txn, n: nat)
    requires Patient(t, n) && t'.inactivityTimer == t.inactivityTimer && t'.rx.inactivityFired == t.rx.inactivityFired
    ensures Patient(t', n)
  {
  }

  // ---------------------------------------------------------------------------------------------------------------
  // From the first missing piece to the end of the transaction
  // ---------------------------------------------------------------------------------------------------------------

  /** Everything that the transaction sends on these events. */
  ghost function Sent(cfg: Config, t: Txn, events: seq<Event>): seq<Pdu>
    requires StoreOk(cfg, t.store) && forall e :: e in events ==> EventOk(e)
    decreases |events|
  {
    if events == [] then [] else Step(cfg, t, events[0]).sent + Sent(cfg, Step(cfg, t, events[0]).txn, events[1..])
  }

  ghost predicate Reports(pdus: seq<Pdu>, stat: int) {
    exists p :: p in pdus && p.FinOut? && p.cc == ConditionCode(stat)
  }

  /** What is sent before the FIN gets its turn. */
  function TurnsBeforeFin(t: Txn): nat {
    (if t.rx.sendAck then 1 else 0) + (if t.rx.sendNak then 1 else 0)
  }

  ghost predicate Unhindered(ticks: seq<Event>) {
    forall e :: e in ticks ==> e.Tick? && e.bufferAvailable
  }

  lemma InactivityKeepsGivingUp(t: Txn)
    requires GivingUp(t)
    ensures var t' := InactivityTick(t);
            GivingUp(t') && TurnsBeforeFin(t') == TurnsBeforeFin(t) && t'.txnStat == t.txnStat && t'.ackTimer == t.ackTimer
  {
    assert NewStatus(t.txnStat, INACTIVITY_DETECTED) == t.txnStat;
    var t' := InactivityTick(t);
    assert t'.rx.sendFin && t'.rx.complete == t.rx.complete && t'.rx.sendAck == t.rx.sendAck && t'.rx.sendNak == t.rx.sendNak;
  }

  lemma AckGoesFirst(t: Txn)
    requires GivingUp(t) && t.rx.sendAck
    ensures var t' := t.(rx := t.rx.(sendAck := false));
            GivingUp(t') && TurnsBeforeFin(t') < TurnsBeforeFin(t) && t'.txnStat == t.txnStat && t'.ackTimer == t.ackTimer
  {
  }

  lemma NakGoesFirst(t: Txn, noGap: bool, dataRequested: bool)
    requires GivingUp(t) && t.rx.sendNak
    ensures var t' := NakDone(t, noGap, dataRequested);
            GivingUp(t') && TurnsBeforeFin(t') < TurnsBeforeFin(t) && t'.txnStat == t.txnStat && t'.ackTimer == t.ackTimer
  {
  }

  lemma OthersGoFirst(cfg: Config, t: Txn, e: Event)
    requires StoreOk(cfg, t.store) && GivingUp(t) && e.Tick? && e.bufferAvailable && TurnsBeforeFin(t) > 0
    ensures var t' := SendTick(cfg, t, e).txn;
            GivingUp(t') && TurnsBeforeFin(t') < TurnsBeforeFin(t) && t'.txnStat == t.txnStat && t'.ackTimer == t.ackTimer
  {
    hide Wf, NakGaps, NakFor, SendFin, GivingUp, NakDone;
    if t.rx.sendAck {
      AckGoesFirst(t);
    } else {
      NakGoesFirst(t, false, false);
      NakGoesFirst(t, true, false);
      NakGoesFirst(t, false, true);
    }
  }

  lemma FinIsSent(cfg: Config, t: Txn, e: Event)
    requires StoreOk(cfg, t.store) && GivingUp(t) && e.Tick? && e.bufferAvailable && TurnsBeforeFin(t) == 0
    ensures var r := SendTick(cfg, t, e);
            && Waiting(r.txn) && r.txn.rx.complete && r.txn.r2.ackNakCount == 0
            && r.txn.ackTimer == t.ackTimer && r.sent == [FinOut(t.r2.dc, t.r2.fs, ConditionCode(t.txnStat))]
  {
    hide Wf, SendNak, CalcCrcChunk, ConditionCode;
  }

  lemma GivingUpAck(cfg: Config, t: Txn)
    requires Wf(t.store.chunks) && GivingUp(t) && t.ackTimer <= cfg.ackTicks
    ensures var t' := AckTick(cfg, t);
            GivingUp(t') && TurnsBeforeFin(t') == TurnsBeforeFin(t) && t'.txnStat == t.txnStat && t'.ackTimer <= cfg.ackTicks
  {
    hide Wf, HasGap;
  }

  lemma DeadlineGrows(limit: nat, ticks: nat, timer: nat)
    requires timer <= ticks
    ensures Deadline(limit, 0, ticks, timer) <= Deadline(limit, 0, ticks, ticks)
  {
  }

  lemma TickIs(cfg: Config, t: Txn, e: Event)
    requires StoreOk(cfg, t.store) && EventOk(e) && e.Tick? && !t.freed
    ensures var r := SendTick(cfg, InactivityTick(t), e); Step(cfg, t, e) == Result(AckTick(cfg, r.txn), r.sent)
  {
    hide Wf, SendTick, InactivityTick, AckTick;
  }

  /** The tick on which the FIN goes out, and what is left to wait for then. */
  lemma FinGoesOut(cfg: Config, t: Txn, e: Event, rest: seq<Event>)
    requires StoreOk(cfg, t.store) && GivingUp(t) && TurnsBeforeFin(t) == 0 && t.ackTimer <= cfg.ackTicks
    requires EventOk(e) && e.Tick? && e.bufferAvailable && Quiet(rest) && forall e' :: e' in rest ==> EventOk(e')
    requires |rest| >= Deadline(cfg.ackLimit, 0, cfg.ackTicks, cfg.ackTicks)
    ensures After(cfg, Step(cfg, t, e).txn, rest).freed && Reports(Step(cfg, t, e).sent, t.txnStat)
  {
    hide Wf, EventOk, Step, SendTick, InactivityTick, AckTick, Deadline, Waiting, GivingUp, TurnsBeforeFin, ConditionCode;
    hide After;
    var t0 := InactivityTick(t);
    var t1 := SendTick(cfg, t0, e).txn;
    InactivityKeepsGivingUp(t);
    FinIsSent(cfg, t0, e);
    GivingUpIsAlive(t);
    WaitingIsAlive(t1);
    WaitingAck(cfg, t1);
    TickIs(cfg, t, e);
    var t2 := AckTick(cfg, t1);
    assert FinOut(t0.r2.dc, t0.r2.fs, ConditionCode(t.txnStat)) in Step(cfg, t, e).sent;
    DeadlineShrinks(cfg.ackLimit, 0, cfg.ackTicks, t.ackTimer);
    DeadlineGrows(cfg.ackLimit, cfg.ackTicks, t.ackTimer);
    if t2.freed {
      FreedStays(cfg, t2, rest);
    } else {
      WaitingIsFreedIff(cfg, t2, rest);
    }
  }

  lemma {:induction false} GivingUpIsFreed(cfg: Config, t: Txn, ticks: seq<Event>)
    requires StoreOk(cfg, t.store) && GivingUp(t) && t.ackTimer <= cfg.ackTicks
    requires Unhindered(ticks) && forall e :: e in ticks ==> EventOk(e)
    requires |ticks| >= TurnsBeforeFin(t) + 1 + Deadline(cfg.ackLimit, 0, cfg.ackTicks, cfg.ackTicks)
    ensures After(cfg, t, ticks).freed && Reports(Sent(cfg, t, ticks), t.txnStat)
    decreases |ticks|
  {
    hide Wf, EventOk, SendTick, InactivityTick, AckTick, Deadline, Waiting, GivingUp, TurnsBeforeFin, ConditionCode;
    var e, rest := ticks[0], ticks[1..];
    assert e in ticks && e.Tick? && e.bufferAvailable;
    GivingUpIsAlive(t);
    if TurnsBeforeFin(t) == 0 {
      FinGoesOut(cfg, t, e, rest);
    } else {
      var t1 := SendTick(cfg, InactivityTick(t), e).txn;
      InactivityKeepsGivingUp(t);
      OthersGoFirst(cfg, InactivityTick(t), e);
      GivingUpAck(cfg, t1);
      assert Step(cfg, t, e).txn == AckTick(cfg, t1);
      GivingUpIsFreed(cfg, AckTick(cfg, t1), rest);
    }
  }

  lemma GivingUpIsAlive(t: Txn)
    requires GivingUp(t)
    ensures !t.freed
  {
  }

  /**
   Bounded retries as a whole: without any PDU, and with buffers to send in, a receiver that misses something reports the NAK
   limit in a FIN and is freed, at the latest after the NAK deadline, three ticks and the deadline for the acknowledgement.
   */
  lemma {:induction false} MissingIsReportedAndFreed(cfg: Config, t: Txn, ticks: seq<Event>)
    requires StoreOk(cfg, t.store) && Missing(cfg, t)
    requires Patient(t, Deadline(cfg.nakLimit, t.r2.ackNakCount, cfg.ackTicks, t.ackTimer))
    requires Unhindered(ticks) && forall e :: e in ticks ==> EventOk(e)
    requires |ticks| >= Deadline(cfg.nakLimit, t.r2.ackNakCount, cfg.ackTicks, t.ackTimer) + 3
                        + Deadline(cfg.ackLimit, 0, cfg.ackTicks, cfg.ackTicks)
    ensures After(cfg, t, ticks).freed && Reports(Sent(cfg, t, ticks), NAK_LIMIT_REACHED)
    decreases |ticks|
  {
    hide Wf, EventOk, SendTick, InactivityTick, AckTick, Deadline, Patient, Missing, GivingUp, TurnsBeforeFin, ConditionCode;
    var n := Deadline(cfg.nakLimit, t.r2.ackNakCount, cfg.ackTicks, t.ackTimer);
    DeadlineIsPositive(cfg.nakLimit, t.r2.ackNakCount, cfg.ackTicks, t.ackTimer);
    DeadlineShrinks(cfg.nakLimit, t.r2.ackNakCount, cfg.ackTicks, t.ackTimer);
    MissingIsAlive(cfg, t);
    var e, rest := ticks[0], ticks[1..];
    assert e in ticks && e.Tick?;
    var t1 := SendTick(cfg, InactivityTick(t), e).txn;
    MissingSends(cfg, t, e, n - 1);
    MissingAck(cfg, t1);
    var t2 := AckTick(cfg, t1);
    assert Step(cfg, t, e).txn == t2;
    if t1.ackTimer == 0 && t1.r2.ackNakCount + 1 >= cfg.nakLimit {
      AtMostTwoTurns(t2);
      GivingUpIsFreed(cfg, t2, rest);
    } else {
      StillPatient(t1, t2, n - 1);
      MissingIsReportedAndFreed(cfg, t2, rest);
    }
  }

  lemma AtMostTwoTurns(t: Txn)
    ensures TurnsBeforeFin(t) <= 2
  {
  }

  // ---------------------------------------------------------------------------------------------------------------
  // Inactivity
  // ---------------------------------------------------------------------------------------------------------------

  lemma InactiveTick(cfg: Config, t: Txn, e: Event)
    requires StoreOk(cfg, t.store) && Missing(cfg, t) && e.Tick?
    requires !t.rx.inactivityFired && t.inactivityTimer == 0 && !t.rx.sendAck && !t.rx.sendNak
    ensures var r := Step(cfg, t, e);
            && Waiting(r.txn) && !r.txn.rx.complete && r.txn.txnStat == INACTIVITY_DETECTED
            && OnlyFinLeft(r.txn) && r.txn.rx.sendFin == !e.bufferAvailable
            && r.sent == if e.bufferAvailable then [FinOut(t.r2.dc, t.r2.fs, INACTIVITY_DETECTED)] else []
  {
    hide Wf, HasGap;
  }

  /** An incomplete file that was given up because of inactivity. */
  ghost predicate Stranded(cfg: Config, t: Txn)
    requires StoreOk(cfg, t.store)
  {
    !t.freed && t.txnStat == INACTIVITY_DETECTED && !t.rx.complete && t.rx.inactivityFired && Seen(cfg, t)
  }

  lemma StrandedAckSent(cfg: Config, t: Txn)
    requires StoreOk(cfg, t.store) && Stranded(cfg, t)
    ensures Stranded(cfg, t.(rx := t.rx.(sendAck := false)))
  {
    hide Wf, ReportedGaps;
  }

  lemma StrandedNakDone(cfg: Config, t: Txn, dataRequested: bool)
    requires StoreOk(cfg, t.store) && Stranded(cfg, t)
    ensures Stranded(cfg, NakDone(t, false, dataRequested))
  {
    hide Wf, ReportedGaps;
  }

  lemma StrandedFinSent(cfg: Config, t: Txn, e: Event)
    requires StoreOk(cfg, t.store) && Stranded(cfg, t) && e.Tick?
    ensures Stranded(cfg, SendFin(cfg, t, e).txn)
  {
    hide Wf, ReportedGaps, ConditionCode, CalcCrcChunk;
  }

  lemma StrandedHasGap(cfg: Config, t: Txn)
    requires StoreOk(cfg, t.store) && Stranded(cfg, t)
    ensures t.rx.mdRecv ==> NakGaps(cfg, t) != []
  {
  }

  lemma StrandedSends(cfg: Config, t: Txn, e: Event)
    requires StoreOk(cfg, t.store) && Stranded(cfg, t) && e.Tick?
    ensures Stranded(cfg, SendTick(cfg, t, e).txn)
  {
    hide Wf, NakGaps, NakFor, NakDone, SendFin, Stranded;
    StrandedAckSent(cfg, t);
    StrandedNakDone(cfg, t, true);
    StrandedNakDone(cfg, t, false);
    StrandedFinSent(cfg, t, e);
    StrandedHasGap(cfg, t);
  }

  lemma StrandedAck(cfg: Config, t: Txn)
    requires StoreOk(cfg, t.store) && Stranded(cfg, t)
    ensures Stranded(cfg, AckTick(cfg, t))
  {
    hide Wf, ReportedGaps;
  }

  lemma StrandedIsAlive(cfg: Config, t: Txn)
    requires StoreOk(cfg, t.store) && Stranded(cfg, t)
    ensures !t.freed && t.txnStat == INACTIVITY_DETECTED && InactivityTick(t) == t
  {
    hide Wf, HasGap;
  }

  /** It is never freed: ticks alone do not help it. */
  lemma {:induction false} StrandedStays(cfg: Config, t: Txn, ticks: seq<Event>)
    requires StoreOk(cfg, t.store) && Stranded(cfg, t)
    requires Quiet(ticks) && forall e :: e in ticks ==> EventOk(e)
    ensures Stranded(cfg, After(cfg, t, ticks))
    decreases |ticks|
  {
    hide Wf, EventOk, SendTick, InactivityTick, AckTick, Stranded, Step;
    if ticks != [] {
      var e := ticks[0];
      assert e in ticks && e.Tick?;
      StrandedIsAlive(cfg, t);
      StrandedSends(cfg, t, e);
      StrandedAck(cfg, SendTick(cfg, t, e).txn);
      TickIs(cfg, t, e);
      StrandedStays(cfg, Step(cfg, t, e).txn, ticks[1..]);
    }
  }

  /** The tick on which the timer has run out. */
  lemma TimerRunsOut(cfg: Config, t: Txn)
    requires StoreOk(cfg, t.store) && Missing(cfg, t) && !t.rx.inactivityFired && t.inactivityTimer == 0
    ensures Stranded(cfg, InactivityTick(t))
  {
    hide Wf, ReportedGaps;
  }

  predicate SameTimer(t: Txn, t': Txn) {
    t'.inactivityTimer == t.inactivityTimer && t'.rx.inactivityFired == t.rx.inactivityFired
  }

  lemma SendFinLeavesTimer(cfg: Config, t: Txn, e: Event)
    requires e.Tick?
    ensures SameTimer(t, SendFin(cfg, t, e).txn)
  {
    hide CalcCrcChunk, ConditionCode;
    CalcCrcLeaves(cfg, t, e.readsOk);
  }

  lemma TimerAsItWas(t: Txn)
    ensures SameTimer(t, t) && SameTimer(t, t.(rx := t.rx.(sendAck := false)))
  {
  }

  lemma NakLeavesTimer(t: Txn, noGap: bool, dataRequested: bool)
    ensures SameTimer(t, NakDone(t, noGap, dataRequested))
  {
  }

  lemma SendTickLeavesTimer(cfg: Config, t: Txn, e: Event)
    requires StoreOk(cfg, t.store) && e.Tick?
    ensures SameTimer(t, SendTick(cfg, t, e).txn)
  {
    hide Wf, NakGaps, NakFor, NakDone, SendFin, SameTimer;
    TimerAsItWas(t);
    NakLeavesTimer(t, true, false);
    NakLeavesTimer(t, false, true);
    NakLeavesTimer(t, false, false);
    SendFinLeavesTimer(cfg, t, e);
  }

  /** If the inactivity timer runs out before the retries are used up, no number of ticks frees the receiver. */
  lemma {:induction false} ImpatientIsStuck(cfg: Config, t: Txn, ticks: seq<Event>)
    requires StoreOk(cfg, t.store) && Missing(cfg, t)
    requires !Patient(t, Deadline(cfg.nakLimit, t.r2.ackNakCount, cfg.ackTicks, t.ackTimer))
    requires Quiet(ticks) && forall e :: e in ticks ==> EventOk(e)
    ensures if |ticks| <= t.inactivityTimer then Missing(cfg, After(cfg, t, ticks)) else Stranded(cfg, After(cfg, t, ticks))
    decreases |ticks|
  {
    hide Wf, EventOk, SendTick, InactivityTick, AckTick, Deadline, Missing, Stranded, Step;
    if ticks != [] {
      var e := ticks[0];
      assert e in ticks && e.Tick?;
      MissingIsAlive(cfg, t);
      TickIs(cfg, t, e);
      var t0 := InactivityTick(t);
      var t1 := SendTick(cfg, t0, e).txn;
      if t.inactivityTimer == 0 {
        TimerRunsOut(cfg, t);
        StrandedSends(cfg, t0, e);
        StrandedAck(cfg, t1);
        StrandedStays(cfg, AckTick(cfg, t1), ticks[1..]);
      } else {
        TimerCounts(t);
        MissingSends(cfg, t, e, 0);
        SendTickLeavesTimer(cfg, t0, e);
        MissingAck(cfg, t1);
        DeadlineShrinks(cfg.nakLimit, t.r2.ackNakCount, cfg.ackTicks, t.ackTimer);
        ImpatientIsStuck(cfg, AckTick(cfg, t1), ticks[1..]);
      }
    }
  }

  lemma TimerCounts(t: Txn)
    requires !t.rx.inactivityFired && t.inactivityTimer > 0
    ensures InactivityTick(t).inactivityTimer == t.inactivityTimer - 1 && !InactivityTick(t).rx.inactivityFired
  {
  }

  /**
   Exactly when retries are bounded: given ticks enough and buffers to send in, a receiver that misses something and hears nothing
   is freed if and only if its inactivity timer does not run out before the NAK deadline.  If it does, it is never freed.
   */
  lemma MissingIsFreedIff(cfg: Config, t: Txn, ticks: seq<Event>)
    requires StoreOk(cfg, t.store) && Missing(cfg, t)
    requires Unhindered(ticks) && forall e :: e in ticks ==> EventOk(e)
    requires |ticks| >= Deadline(cfg.nakLimit, t.r2.ackNakCount, cfg.ackTicks, t.ackTimer) + 3
                        + Deadline(cfg.ackLimit, 0, cfg.ackTicks, cfg.ackTicks)
    ensures After(cfg, t, ticks).freed
            <==> Patient(t, Deadline(cfg.nakLimit, t.r2.ackNakCount, cfg.ackTicks, t.ackTimer))
    ensures After(cfg, t, ticks).freed ==> Reports(Sent(cfg, t, ticks), NAK_LIMIT_REACHED)
    ensures !After(cfg, t, ticks).freed ==> After(cfg, t, ticks).txnStat == INACTIVITY_DETECTED
  {
    hide Wf, EventOk, Step, Deadline, Missing, Patient, After, Sent, Reports, NeedsNak;
    var n := Deadline(cfg.nakLimit, t.r2.ackNakCount, cfg.ackTicks, t.ackTimer);
    if Patient(t, n) {
      MissingIsReportedAndFreed(cfg, t, ticks);
    } else {
      ImpatientTimer(t, n);
      ImpatientIsStuck(cfg, t, ticks);
    }
  }

  lemma ImpatientTimer(t: Txn, n: nat)
    requires !Patient(t, n)
    ensures t.inactivityTimer < n
  {
  }

  // ---------------------------------------------------------------------------------------------------------------
  // What a stuck receiver still sends
  // ---------------------------------------------------------------------------------------------------------------

  /** Only a FIN is left to send, at most. */
  predicate OnlyFinLeft(t: Txn) {
    Waiting(t) && !t.rx.complete && !t.rx.sendAck && t.rx.inactivityFired && IsError(t.txnStat)
  }

  lemma OnlyFinSends(cfg: Config, t: Txn, e: Event)
    requires StoreOk(cfg, t.store) && OnlyFinLeft(t) && EventOk(e) && e.Tick?
    ensures var r := Step(cfg, t, e);
            && OnlyFinLeft(r.txn) && |r.sent| <= (if t.rx.sendFin then 1 else 0)
            && (r.txn.rx.sendFin ==> t.rx.sendFin && r.sent == [])
  {
    hide Wf, HasGap, CalcCrcChunk, ConditionCode;
    TickIs(cfg, t, e);
  }

  lemma {:induction false} AtMostOneFin(cfg: Config, t: Txn, ticks: seq<Event>)
    requires StoreOk(cfg, t.store) && OnlyFinLeft(t) && Quiet(ticks) && forall e :: e in ticks ==> EventOk(e)
    ensures |Sent(cfg, t, ticks)| <= if t.rx.sendFin then 1 else 0
    decreases |ticks|
  {
    hide Wf, EventOk, Step, OnlyFinLeft;
    if ticks != [] {
      assert ticks[0] in ticks;
      OnlyFinSends(cfg, t, ticks[0]);
      AtMostOneFin(cfg, Step(cfg, t, ticks[0]).txn, ticks[1..]);
    }
  }

  /** When the inactivity timer runs out on an incomplete file and nothing else is to be sent, the receiver sends one FIN as soon
      as there is a buffer and nothing after it, and without a further PDU it is never freed. */
  lemma InactiveIsStuck(cfg: Config, t: Txn, ticks: seq<Event>)
    requires StoreOk(cfg, t.store) && Missing(cfg, t) && Quiet(ticks) && ticks != []
    requires forall e :: e in ticks ==> EventOk(e)
    requires !t.rx.inactivityFired && t.inactivityTimer == 0 && !t.rx.sendAck && !t.rx.sendNak
    ensures !After(cfg, t, ticks).freed && |Sent(cfg, t, ticks)| <= 1
    ensures ticks[0].bufferAvailable ==> Sent(cfg, t, ticks) == [FinOut(t.r2.dc, t.r2.fs, INACTIVITY_DETECTED)]
  {
    hide Wf, EventOk, Step, Waiting, Missing;
    var e := ticks[0];
    assert e in ticks && e.Tick?;
    InactiveTick(cfg, t, e);
    WaitingIsFreedIff(cfg, Step(cfg, t, e).txn, ticks[1..]);
    AtMostOneFin(cfg, Step(cfg, t, e).txn, ticks[1..]);
  }

  // ---------------------------------------------------------------------------------------------------------------
  // A response starts the count again
  // ---------------------------------------------------------------------------------------------------------------

  /** Stored file data sets the retry count to zero. */
  lemma DataRestartsCount(cfg: Config, t: Txn, e: Event)
    requires StoreOk(cfg, t.store) && EventOk(e) && Accepts(t, e)
    ensures Step(cfg, t, e).txn.r2.ackNakCount == 0
  {
    hide Wf, CheckComplete, Stored;
  }

  lemma LimitKeepsTimers(t: Txn)
    ensures SameTimer(t, NakLimitReached(t))
  {
  }

  lemma NakKeepsTimers(t: Txn)
    ensures SameTimer(t, NakCounted(t))
  {
  }

  lemma FinishingKeepsTimers(t: Txn)
    ensures SameTimer(t, Finished(t))
  {
  }

  lemma WaitingForDataKeepsTimers(t: Txn)
    ensures SameTimer(t, t) && SameTimer(t, t.(subState := FileDataState))
  {
  }

  lemma CompletenessKeepsTimers(cfg: Config, t: Txn, okToSendNak: bool)
    requires Wf(t.store.chunks)
    ensures SameTimer(t, CheckComplete(cfg, t, okToSendNak))
  {
    hide Wf, NeedsNak, NakLimitReached, NakCounted, Finished, SameTimer;
    LimitKeepsTimers(t);
    NakKeepsTimers(t);
    FinishingKeepsTimers(t);
    WaitingForDataKeepsTimers(t);
  }

  lemma DataRestartsTimers(cfg: Config, t: Txn, e: Event)
    requires StoreOk(cfg, t.store) && EventOk(e) && Accepts(t, e)
    ensures var t' := Step(cfg, t, e).txn;
            && (!t'.rx.complete ==> t'.ackTimer == cfg.ackTicks)
            && t'.inactivityTimer == cfg.inactivityTicks && t'.rx.inactivityFired == t.rx.inactivityFired
  {
    hide Wf, CheckComplete, StoreWith;
    CompletenessKeepsTimers(cfg, Stored(cfg, t, e.fd.value), false);
  }

  /**
   Every stored piece starts all the timers again.  So if then something is still missing and nothing more comes, whether the
   receiver is freed is a matter of its configuration only: the inactivity timer must be as long as it takes for all the NAKs.
   */
  lemma DataRestartsDeadline(cfg: Config, t: Txn, e: Event, ticks: seq<Event>)
    requires StoreOk(cfg, t.store) && EventOk(e) && Accepts(t, e)
    requires Missing(cfg, Step(cfg, t, e).txn) && Unhindered(ticks) && forall e' :: e' in ticks ==> EventOk(e')
    requires |ticks| >= Deadline(cfg.nakLimit, 0, cfg.ackTicks, cfg.ackTicks) + 3
                        + Deadline(cfg.ackLimit, 0, cfg.ackTicks, cfg.ackTicks)
    ensures After(cfg, t, [e] + ticks).freed
            <==> t.rx.inactivityFired || cfg.inactivityTicks >= Deadline(cfg.nakLimit, 0, cfg.ackTicks, cfg.ackTicks)
  {
    hide Wf, EventOk, Step, Deadline, Sent, Reports, NeedsNak, Accepts, Seen;
    DataRestartsCount(cfg, t, e);
    DataRestartsTimers(cfg, t, e);
    MissingIsFreedIff(cfg, Step(cfg, t, e).txn, ticks);
    assert ([e] + ticks)[1..] == ticks;
  }

  lemma CheckCompleteCounts(cfg: Config, t: Txn)
    requires Wf(t.store.chunks)
    ensures CheckComplete(cfg, t, true).r2.ackNakCount
            == if IsError(t.txnStat) || !NeedsNak(t) then t.r2.ackNakCount
               else if t.r2.ackNakCount + 1 >= cfg.nakLimit then 0 else t.r2.ackNakCount + 1
  {
    hide Wf, HasGap;
  }

  /** So does metadata accepted in place of the temporary file, which at once counts the first NAK for its data if some is missing
      and there is no error yet; if one NAK is already too many, the count is 0 again. */
  lemma MetadataRestartsCount(cfg: Config, t: Txn, e: Event)
    requires StoreOk(cfg, t.store) && EventOk(e) && !t.freed && e.MetadataPdu? && t.subState != WaitForFinAck
    requires !t.rx.mdRecv && e.outcome.GoodMetadata? && e.renameOk && e.reopenOk
    requires t.rx.eofRecv ==> t.r2.eofSize == e.outcome.size
    ensures Step(cfg, t, e).txn.rx.mdRecv
    ensures Step(cfg, t, e).txn.r2.ackNakCount
            == if !IsError(t.txnStat) && ReportedGaps(t.store.chunks, 1, e.outcome.size, 0) != [] && 1 < cfg.nakLimit
               then 1 else 0
  {
    hide Wf, CheckComplete;
    CheckCompleteCounts(cfg, MetadataNoted(t, e.outcome.size));
  }
}
