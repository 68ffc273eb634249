/**
 When a class-2 receiver (`ReceiverSpec`) that has everything says so: exactly which of its states lead to a FIN without an error,
 if no PDU arrives any more and nothing outside goes wrong.
 */
module ReceiverProgress {
  import opened Bytes
  import opened Options
  import opened ChunkTheory
  import opened GapTheory
  import opened FileChecksum
  import opened NakRequests
  import opened ReceiverSpec
  import opened ReceiverSafety
  import opened ReceiverIntegrity
  import opened ReceiverRetries

  // ---------------------------------------------------------------------------------------------------------------
  // Having everything
  // ---------------------------------------------------------------------------------------------------------------

  /** What has been digested so far is the beginning of the file. */
  ghost predicate Digesting(t: Txn) {
    && t.r2.cachedPos == t.store.filePos && t.r2.rxCrcCalcBytes <= t.fsize <= |t.store.file|
    && (t.r2.rxCrcCalcBytes > 0 ==> t.store.crc == Digested(START, t.store.file[..t.r2.rxCrcCalcBytes]))
  }

  /** And the file has the announced checksum. */
  ghost predicate OnTrack(t: Txn) {
    Digesting(t) && Checksum(t.store.file[..t.fsize]) == t.r2.eofCrc
  }

  /** Metadata, EOF and all data are there and right, there is no error, and no FIN has been sent. */
  ghost predicate Whole(t: Txn)
    requires Wf(t.store.chunks)
  {
    && !t.freed && !IsError(t.txnStat) && t.rx.mdRecv && t.rx.eofRecv && !HasGap(t)
    && !t.crcCalc && t.subState != WaitForFinAck && OnTrack(t)
  }

  /** The reads of a wakeup that has n bytes left to digest succeed. */
  predicate ReadsSucceed(cfg: Config, readsOk: nat, n: nat) {
    1024 * readsOk >= n || 1024 * readsOk >= cfg.crcBytesPerWakeup
  }

  /** Ticks with a buffer and all reads of a file of n bytes that they try. */
  ghost predicate Eager(cfg: Config, ticks: seq<Event>, n: nat) {
    forall e :: e in ticks ==> e.Tick? && e.bufferAvailable && ReadsSucceed(cfg, e.readsOk, n)
  }

  /** Changes that have nothing to do with the file. */
  predicate SameFile(t: Txn, t': Txn) {
    && t'.freed == t.freed && IsError(t'.txnStat) == IsError(t.txnStat) && t'.rx.mdRecv == t.rx.mdRecv
    && t'.rx.eofRecv == t.rx.eofRecv && t'.crcCalc == t.crcCalc && t'.fsize == t.fsize && t'.store == t.store
    && t'.r2.cachedPos == t.r2.cachedPos && t'.r2.rxCrcCalcBytes == t.r2.rxCrcCalcBytes && t'.r2.eofCrc == t.r2.eofCrc
  }

  lemma SameFileIsWhole(t: Txn, t': Txn)
    requires Wf(t.store.chunks) && SameFile(t, t') && Whole(t) && t'.subState != WaitForFinAck
    ensures Whole(t')
  {
    hide Wf, ReportedGaps, Checksum, Digested;
  }

  lemma WholeMeans(t: Txn)
    requires Wf(t.store.chunks) && Whole(t)
    ensures !t.freed && !IsError(t.txnStat) && t.rx.mdRecv && t.rx.eofRecv && !NeedsNak(t) && !t.crcCalc
    ensures t.subState != WaitForFinAck && t.r2.rxCrcCalcBytes <= t.fsize
  {
    hide Wf, ReportedGaps, Checksum, Digested;
  }

  // ---------------------------------------------------------------------------------------------------------------
  // The checksum makes progress
  // ---------------------------------------------------------------------------------------------------------------

  /** What a wakeup digests of a long file: only whole reads, so a budget that is no multiple of the read size is exceeded. */
  function Rounded(budget: int): nat {
    if budget <= 0 then 0 else ((budget - 1) / 1024 + 1) * 1024
  }

  lemma RoundedOnce(budget: int)
    requires budget > 0
    ensures Rounded(budget) == 1024 + Rounded(budget - 1024) && Rounded(budget) >= budget
  {
  }

  /** A wakeup digests exactly what its budget, rounded up, allows. */
  lemma {:induction false} LoopProgress(cfg: Config, file: seq<byte>, fsize: nat, d: Digest, count: nat, readsOk: nat)
    requires d.cachedPos == d.filePos && d.bytes <= fsize <= |file|
    requires 1024 * readsOk >= fsize - d.bytes || 1024 * readsOk >= cfg.crcBytesPerWakeup - count
    ensures var (d', ok) := DigestLoop(cfg, file, fsize, d, count, readsOk);
            ok && d'.bytes == Min(fsize, d.bytes + Rounded(cfg.crcBytesPerWakeup - count))
    decreases fsize - d.bytes
  {
    hide Digested, Rounded;
    var left := cfg.crcBytesPerWakeup - count;
    if left > 0 && d.bytes < fsize {
      var p, n := ReadPos(d), ReadSize(d, fsize);
      var next := Digest(d.bytes + n, d.bytes + n, p + n, Digested(d.crc, file[p..p + n]));
      RoundedOnce(left);
      LoopProgress(cfg, file, fsize, next, count + n, readsOk - 1);
    } else {
      RoundedNothing(left);
    }
  }

  lemma RoundedNothing(budget: int)
    ensures budget <= 0 ==> Rounded(budget) == 0
  {
  }

  /** The steering part of a transaction. */
  predicate SameSteering(t: Txn, t': Txn) {
    && t'.freed == t.freed && t'.rx == t.rx && t'.subState == t.subState && t'.ackTimer == t.ackTimer
    && t'.inactivityTimer == t.inactivityTimer && t'.fsize == t.fsize && t'.r2.eofCrc == t.r2.eofCrc
    && t'.store.chunks == t.store.chunks && t'.store.file == t.store.file
  }

  lemma DigestOfIs(t: Txn)
    requires Digesting(t)
    ensures var d := DigestOf(t);
            && d.cachedPos == d.filePos && d.bytes == t.r2.rxCrcCalcBytes <= t.fsize <= |t.store.file|
            && d.crc == Digested(START, t.store.file[..t.r2.rxCrcCalcBytes])
  {
    hide Checksum;
    assert t.r2.rxCrcCalcBytes == 0 ==> t.store.file[..t.r2.rxCrcCalcBytes] == [];
  }

  /** What a wakeup leaves of the checksum. */
  lemma DigestGoesOn(cfg: Config, t: Txn, readsOk: nat)
    requires Digesting(t) && ReadsSucceed(cfg, readsOk, t.fsize)
    ensures var (d, ok) := DigestLoop(cfg, t.store.file, t.fsize, DigestOf(t), 0, readsOk);
            && ok && d.bytes == Min(t.fsize, t.r2.rxCrcCalcBytes + Rounded(cfg.crcBytesPerWakeup))
            && t.r2.rxCrcCalcBytes <= d.bytes <= t.fsize <= |t.store.file| && d.cachedPos == d.filePos
            && d.crc == Digested(START, t.store.file[..d.bytes])
  {
    hide Checksum, Digested, DigestLoop, DigestOf, Rounded;
    DigestOfIs(t);
    LoopProgress(cfg, t.store.file, t.fsize, DigestOf(t), 0, readsOk);
    LoopDigests(cfg, t.store.file, t.fsize, DigestOf(t), 0, readsOk);
    var d := DigestLoop(cfg, t.store.file, t.fsize, DigestOf(t), 0, readsOk).0;
    var a, b := t.store.file[..t.r2.rxCrcCalcBytes], Slice(t.store.file, t.r2.rxCrcCalcBytes, d.bytes);
    DigestedConcat(START, a, b);
    assert a + b == t.store.file[..d.bytes];
  }

  lemma CalcCrcIs(cfg: Config, t: Txn, readsOk: nat)
    requires DigestLoop(cfg, t.store.file, t.fsize, DigestOf(t), 0, readsOk).1
    ensures var d := DigestLoop(cfg, t.store.file, t.fsize, DigestOf(t), 0, readsOk).0;
            CalcCrcChunk(cfg, t, readsOk)
            == if d.bytes == t.fsize then (Checked(WithDigest(t, d)), true) else (WithDigest(t, d), false)
  {
    hide DigestLoop, DigestOf, Checked, WithDigest;
  }

  lemma CheckedIs(t: Txn)
    requires Finalized(t.store.crc).result == t.r2.eofCrc
    ensures Checked(t).txnStat == t.txnStat && SameSteering(t, Checked(t)) && Checked(t).crcCalc
  {
    hide Finalized;
  }

  lemma WithDigestIs(t: Txn, d: Digest)
    ensures var t' := WithDigest(t, d);
            && SameSteering(t, t') && t'.txnStat == t.txnStat && t'.crcCalc == t.crcCalc && t'.store.crc == d.crc
            && t'.r2.rxCrcCalcBytes == d.bytes && t'.r2.cachedPos == d.cachedPos && t'.store.filePos == d.filePos
  {
  }

  lemma StillWhole(t: Txn, t': Txn)
    requires Wf(t.store.chunks) && Whole(t) && SameSteering(t, t') && t'.txnStat == t.txnStat && t'.crcCalc == t.crcCalc
    requires t'.r2.cachedPos == t'.store.filePos && t'.r2.rxCrcCalcBytes <= t'.fsize
    requires t'.r2.rxCrcCalcBytes <= |t.store.file| && t'.store.crc == Digested(START, t.store.file[..t'.r2.rxCrcCalcBytes])
    ensures Whole(t')
  {
    hide Wf, ReportedGaps, Checksum, Digested;
  }

  /** What of the file is still to be digested. */
  function Remaining(t: Txn): nat {
    if t.r2.rxCrcCalcBytes <= t.fsize then t.fsize - t.r2.rxCrcCalcBytes else 0
  }

  /** A wakeup finishes the checksum without an error if its budget suffices, and otherwise gets on by the budget. */
  lemma CalcCrcProgress(cfg: Config, t: Txn, readsOk: nat)
    requires Wf(t.store.chunks) && Whole(t) && ReadsSucceed(cfg, readsOk, t.fsize)
    ensures var (t', ready) := CalcCrcChunk(cfg, t, readsOk);
            && SameSteering(t, t') && t'.txnStat == t.txnStat && ready == (Remaining(t) <= Rounded(cfg.crcBytesPerWakeup))
            && (!ready ==> Whole(t') && Remaining(t') == Remaining(t) - Rounded(cfg.crcBytesPerWakeup))
  {
    hide Wf, ReportedGaps, Checksum, Digested, DigestLoop, DigestOf, CalcCrcChunk, Checked, WithDigest, Finalized, SameSteering;
    hide Rounded, ReadsSucceed;
    hide HasGap;
    WholeIsOnTrack(t);
    DigestGoesOn(cfg, t, readsOk);
    CalcCrcIs(cfg, t, readsOk);
    var d := DigestLoop(cfg, t.store.file, t.fsize, DigestOf(t), 0, readsOk).0;
    var t1 := WithDigest(t, d);
    WithDigestIs(t, d);
    if d.bytes == t.fsize {
      FinalizedGivesChecksum(t.store.file[..t.fsize]);
      SteeringKeeps(t, t1);
      CheckedIs(t1);
      SteeringTwice(t, t1, Checked(t1));
    } else {
      SteeringKeeps(t, t1);
      StillWhole(t, t1);
    }
  }

  lemma WholeIsOnTrack(t: Txn)
    requires Wf(t.store.chunks) && Whole(t)
    ensures OnTrack(t)
  {
  }

  lemma SteeringKeeps(t: Txn, t': Txn)
    requires SameSteering(t, t')
    ensures t'.fsize == t.fsize && t'.r2.eofCrc == t.r2.eofCrc && t'.store.file == t.store.file
  {
  }

  lemma SteeringTwice(t: Txn, t': Txn, t'': Txn)
    requires SameSteering(t, t') && SameSteering(t', t'')
    ensures SameSteering(t, t'')
  {
  }

  // ---------------------------------------------------------------------------------------------------------------
  // The parts of a tick
  // ---------------------------------------------------------------------------------------------------------------

  /** The inactivity timer has counted a tick and has not run out. */
  predicate Counted(t: Txn, t': Txn) {
    && t'.rx.inactivityFired == t.rx.inactivityFired
    && (!t.rx.inactivityFired ==> t'.inactivityTimer == t.inactivityTimer - 1)
  }

  lemma CountedIsPatient(t: Txn, t': Txn, n: nat)
    requires Counted(t, t')
    ensures Patient(t, n + 1) <==> Patient(t', n)
  {
  }

  lemma InactivityCounts(t: Txn)
    requires Patient(t, 1)
    ensures var t' := InactivityTick(t);
            SameFile(t, t') && t'.rx == t.rx && t'.subState == t.subState && t'.ackTimer == t.ackTimer && Counted(t, t')
  {
  }

  lemma CountedStays(t: Txn, t': Txn, t'': Txn)
    requires Counted(t, t') && t''.inactivityTimer == t'.inactivityTimer
    requires t''.rx.inactivityFired == t'.rx.inactivityFired
    ensures Counted(t, t'')
  {
  }

  /** With no gap and metadata there, the NAK step latches completeness, and asks for no FIN. */
  lemma NakStepLatches(cfg: Config, t: Txn, e: Event)
    requires StoreOk(cfg, t.store) && e.Tick? && e.bufferAvailable && t.rx.mdRecv && !NeedsNak(t)
    ensures SendNak(cfg, t, e) == Result(t.(rx := t.rx.(sendNak := false, complete := true)), [])
  {
    hide Wf, ReportedGaps, NakGaps;
    NakOverlooksGapIff(cfg, t);
  }

  /** Nothing but the acknowledgement of the EOF or the NAK step takes a turn before the FIN. */
  lemma TurnBeforeFin(cfg: Config, t: Txn, e: Event)
    requires StoreOk(cfg, t.store) && Whole(t) && e.Tick? && e.bufferAvailable && TurnsBeforeFin(t) > 0
    ensures var r := SendTick(cfg, t, e);
            && r.txn == (if t.rx.sendAck then t.(rx := t.rx.(sendAck := false))
                         else t.(rx := t.rx.(sendNak := false, complete := true)))
            && (forall p :: p in r.sent ==> !p.FinOut?)
  {
    hide Wf, ReportedGaps, HasGap, OnTrack, SendNak;
    WholeMeans(t);
    NakStepLatches(cfg, t, e);
  }

  lemma SameFileAckSent(t: Txn)
    ensures SameFile(t, t.(rx := t.rx.(sendAck := false)))
  {
  }

  lemma SameFileLatched(t: Txn)
    ensures SameFile(t, t.(rx := t.rx.(sendNak := false, complete := true)))
  {
  }

  /** The acknowledgement timer: an expiry before completeness is latched makes the FIN due, one after it does nothing. */
  lemma AckTickOfWhole(cfg: Config, t: Txn)
    requires Wf(t.store.chunks) && Whole(t)
    ensures var t' := AckTick(cfg, t);
            && SameFile(t, t') && t'.subState != WaitForFinAck && t'.rx.inactivityFired == t.rx.inactivityFired
            && t'.inactivityTimer == t.inactivityTimer && t'.rx.sendAck == t.rx.sendAck && t'.rx.sendNak == t.rx.sendNak
            && (if t.ackTimer == 0 && !t.rx.complete then t'.rx.sendFin && t'.rx.complete
                else t'.rx == t.rx)
            && (t.ackTimer > 0 ==> t'.ackTimer == t.ackTimer - 1)
  {
    hide Wf, ReportedGaps, OnTrack;
  }

  // ---------------------------------------------------------------------------------------------------------------
  // A FIN that is due
  // ---------------------------------------------------------------------------------------------------------------

  lemma SendFinOfWhole(cfg: Config, t: Txn, e: Event)
    requires Wf(t.store.chunks) && Whole(t) && e.Tick? && e.bufferAvailable && ReadsSucceed(cfg, e.readsOk, t.fsize)
    ensures var r := SendFin(cfg, t, e); var (t', ready) := CalcCrcChunk(cfg, t, e.readsOk);
            if ready then Reports(r.sent, NO_ERROR) else r == Result(t', [])
  {
    hide Wf, ReportedGaps, HasGap, OnTrack, CalcCrcChunk, SameSteering, Rounded, ReadsSucceed;
    CalcCrcProgress(cfg, t, e.readsOk);
    var (t', ready) := CalcCrcChunk(cfg, t, e.readsOk);
    if ready {
      var fin := FinOut(t'.r2.dc, t'.r2.fs, ConditionCode(t'.txnStat));
      assert fin in SendFin(cfg, t, e).sent && fin.cc == ConditionCode(NO_ERROR);
    }
  }

  /** A tick on which something else has its turn before a FIN that is due. */
  lemma OtherTurnTick(cfg: Config, t: Txn, e: Event)
    requires StoreOk(cfg, t.store) && Whole(t) && t.rx.sendFin && TurnsBeforeFin(t) > 0 && Patient(t, 1) && EventOk(e)
    requires e.Tick? && e.bufferAvailable
    ensures var r := Step(cfg, t, e);
            && Whole(r.txn) && r.txn.rx.sendFin && TurnsBeforeFin(r.txn) == TurnsBeforeFin(t) - 1 && Counted(t, r.txn)
            && r.txn.fsize == t.fsize && Remaining(r.txn) == Remaining(t) && !Reports(r.sent, NO_ERROR)
  {
    hide Wf, HasGap, OnTrack, SendTick, InactivityTick, AckTick, Step, Whole, Counted;
    WholeMeans(t);
    TickIs(cfg, t, e);
    var t0 := InactivityTick(t);
    InactivityCounts(t);
    SameFileIsWhole(t, t0);
    WholeMeans(t0);
    TurnBeforeFin(cfg, t0, e);
    SameFileAckSent(t0);
    SameFileLatched(t0);
    var t1 := SendTick(cfg, t0, e).txn;
    SameFileIsWhole(t0, t1);
    AckTickOfWhole(cfg, t1);
    SameFileIsWhole(t1, AckTick(cfg, t1));
    CountedStays(t, t0, AckTick(cfg, t1));
  }

  lemma SteeringMeans(t: Txn, t': Txn)
    requires SameSteering(t, t')
    ensures t'.rx == t.rx && t'.ackTimer == t.ackTimer && t'.inactivityTimer == t.inactivityTimer && t'.fsize == t.fsize
    ensures t'.store.chunks == t.store.chunks
  {
  }

  /** A tick on which a FIN that is due has its turn: it is sent, or the checksum gets on. */
  lemma FinTurnTick(cfg: Config, t: Txn, e: Event)
    requires StoreOk(cfg, t.store) && Whole(t) && t.rx.sendFin && TurnsBeforeFin(t) == 0 && Patient(t, 1) && EventOk(e)
    requires e.Tick? && e.bufferAvailable && ReadsSucceed(cfg, e.readsOk, t.fsize)
    ensures var r := Step(cfg, t, e);
            if Remaining(t) <= Rounded(cfg.crcBytesPerWakeup) then Reports(r.sent, NO_ERROR)
            else && Whole(r.txn) && r.txn.rx.sendFin && TurnsBeforeFin(r.txn) == 0 && Counted(t, r.txn)
                 && r.txn.fsize == t.fsize && Remaining(r.txn) == Remaining(t) - Rounded(cfg.crcBytesPerWakeup) && r.sent == []
  {
    hide Wf, HasGap, OnTrack, SendTick, InactivityTick, AckTick, CalcCrcChunk, Step, Whole, Reports, Counted, Rounded;
    hide ReadsSucceed, SameSteering;
    WholeMeans(t);
    TickIs(cfg, t, e);
    var t0 := InactivityTick(t);
    InactivityCounts(t);
    SameFileIsWhole(t, t0);
    FinHasTurn(cfg, t0, e);
    SendFinOfWhole(cfg, t0, e);
    CalcCrcProgress(cfg, t0, e.readsOk);
    var (t1, ready) := CalcCrcChunk(cfg, t0, e.readsOk);
    if !ready {
      SteeringMeans(t0, t1);
      AckTickOfWhole(cfg, t1);
      SameFileIsWhole(t1, AckTick(cfg, t1));
      CountedStays(t, t0, AckTick(cfg, t1));
    }
  }

  lemma FinHasTurn(cfg: Config, t: Txn, e: Event)
    requires StoreOk(cfg, t.store) && e.Tick? && TurnsBeforeFin(t) == 0
    ensures SendTick(cfg, t, e) == if t.rx.sendFin then SendFin(cfg, t, e) else Result(t, [])
  {
    hide Wf, SendFin, SendNak;
  }

  lemma ReportsMore(a: seq<Pdu>, b: seq<Pdu>, stat: int)
    requires Reports(a, stat) || Reports(b, stat)
    ensures Reports(a + b, stat)
  {
    if Reports(a, stat) {
      var p :| p in a && p.FinOut? && p.cc == ConditionCode(stat);
      assert p in a + b;
    } else {
      var p :| p in b && p.FinOut? && p.cc == ConditionCode(stat);
      assert p in a + b;
    }
  }

  // ---------------------------------------------------------------------------------------------------------------
  // Whether a FIN becomes due
  // ---------------------------------------------------------------------------------------------------------------

  /** A FIN is due, or it will be: completeness has not been latched, and the NAK step, which latches it without a FIN, will not
      have its turn before the timer. */
  predicate WillReport(t: Txn) {
    t.rx.sendFin || (!t.rx.complete && (!t.rx.sendNak || (t.rx.sendAck && t.ackTimer == 0)))
  }

  /** How many ticks pass until the FIN has its turn. */
  function TicksToTurn(t: Txn): nat {
    if t.rx.sendFin then TurnsBeforeFin(t) else if t.rx.sendNak then 2 else t.ackTimer + 1
  }

  lemma WaitingTick(cfg: Config, t: Txn, e: Event)
    requires StoreOk(cfg, t.store) && Whole(t) && !t.rx.sendFin && Patient(t, 1) && EventOk(e)
    requires e.Tick? && e.bufferAvailable
    ensures var r := Step(cfg, t, e);
            && Whole(r.txn) && Counted(t, r.txn) && r.txn.fsize == t.fsize && Remaining(r.txn) == Remaining(t)
            && !Reports(r.sent, NO_ERROR)
            && (WillReport(t) ==> WillReport(r.txn) && TicksToTurn(r.txn) == TicksToTurn(t) - 1)
            && (!WillReport(t) ==> !WillReport(r.txn))
  {
    hide Wf, HasGap, OnTrack, SendTick, InactivityTick, AckTick, Step, Whole, Counted;
    WholeMeans(t);
    TickIs(cfg, t, e);
    var t0 := InactivityTick(t);
    InactivityCounts(t);
    SameFileIsWhole(t, t0);
    WholeMeans(t0);
    var t1 := SendTick(cfg, t0, e).txn;
    if TurnsBeforeFin(t0) > 0 {
      TurnBeforeFin(cfg, t0, e);
      SameFileAckSent(t0);
      SameFileLatched(t0);
    } else {
      FinHasTurn(cfg, t0, e);
    }
    SameFileIsWhole(t0, t1);
    AckTickOfWhole(cfg, t1);
    SameFileIsWhole(t1, AckTick(cfg, t1));
    CountedStays(t, t0, AckTick(cfg, t1));
  }

  // ---------------------------------------------------------------------------------------------------------------
  // A silent receiver ends in an error
  // ---------------------------------------------------------------------------------------------------------------

  lemma ErrorTick(cfg: Config, t: Txn, e: Event)
    requires StoreOk(cfg, t.store) && IsError(t.txnStat) && EventOk(e) && e.Tick?
    ensures !Reports(Step(cfg, t, e).sent, NO_ERROR)
  {
    hide Wf, NakGaps, NakFor, AckTick, CalcCrcChunk;
  }

  lemma NeitherReports(a: seq<Pdu>, b: seq<Pdu>, stat: int)
    requires !Reports(a, stat) && !Reports(b, stat)
    ensures !Reports(a + b, stat)
  {
    forall p | p in a + b
      ensures !(p.FinOut? && p.cc == ConditionCode(stat))
    {
      assert p in a || p in b;
    }
  }

  /** A transaction with an error never sends a FIN without one. */
  lemma {:induction false} ErrorIsReported(cfg: Config, t: Txn, ticks: seq<Event>)
    requires StoreOk(cfg, t.store) && IsError(t.txnStat) && Quiet(ticks) && forall e :: e in ticks ==> EventOk(e)
    ensures !Reports(Sent(cfg, t, ticks), NO_ERROR)
    decreases |ticks|
  {
    hide Wf, EventOk, Step, Reports, IsError;
    if ticks == [] {
      NothingReports();
    } else {
      var e := ticks[0];
      assert e in ticks;
      ErrorTick(cfg, t, e);
      StepKeepsError(cfg, t, e);
      ErrorIsReported(cfg, Step(cfg, t, e).txn, ticks[1..]);
      NeitherReports(Step(cfg, t, e).sent, Sent(cfg, Step(cfg, t, e).txn, ticks[1..]), NO_ERROR);
    }
  }

  lemma NothingReports()
    ensures !Reports([], NO_ERROR)
  {
  }

  lemma TimeoutTick(cfg: Config, t: Txn, e: Event)
    requires StoreOk(cfg, t.store) && !t.freed && !t.rx.inactivityFired && t.inactivityTimer == 0 && EventOk(e) && e.Tick?
    ensures IsError(Step(cfg, t, e).txn.txnStat) && !Reports(Step(cfg, t, e).sent, NO_ERROR)
  {
    hide Wf, SendTick, AckTick;
    var t0 := InactivityTick(t);
    TickIs(cfg, t, e);
    SendTickKeepsError(cfg, t0, e);
    AckTickKeepsError(cfg, SendTick(cfg, t0, e).txn);
    ErrorSends(cfg, t0, e);
  }

  lemma ErrorSends(cfg: Config, t: Txn, e: Event)
    requires StoreOk(cfg, t.store) && IsError(t.txnStat) && e.Tick?
    ensures !Reports(SendTick(cfg, t, e).sent, NO_ERROR)
  {
    hide Wf, NakGaps, NakFor, CalcCrcChunk;
  }

  /** Ticks alone never make any other state send a FIN without an error, however long one waits. */
  lemma {:induction false} OthersNeverReport(cfg: Config, t: Txn, ticks: seq<Event>)
    requires StoreOk(cfg, t.store) && Whole(t) && !WillReport(t)
    requires Unhindered(ticks) && forall e :: e in ticks ==> EventOk(e)
    ensures !Reports(Sent(cfg, t, ticks), NO_ERROR)
    decreases |ticks|
  {
    hide Wf, EventOk, Whole, Step, Reports, WillReport, IsError;
    WholeMeans(t);
    if ticks == [] {
      NothingReports();
    } else {
      var e, rest := ticks[0], ticks[1..];
      assert e in ticks;
      var r := Step(cfg, t, e);
      if Patient(t, 1) {
        SilentTick(cfg, t, e);
        OthersNeverReport(cfg, r.txn, rest);
      } else {
        TimeoutTick(cfg, t, e);
        ErrorIsReported(cfg, r.txn, rest);
      }
      NeitherReports(r.sent, Sent(cfg, r.txn, rest), NO_ERROR);
    }
  }

  lemma SilentTick(cfg: Config, t: Txn, e: Event)
    requires StoreOk(cfg, t.store) && Whole(t) && !WillReport(t) && Patient(t, 1) && EventOk(e)
    requires e.Tick? && e.bufferAvailable
    ensures var r := Step(cfg, t, e); Whole(r.txn) && !WillReport(r.txn) && !Reports(r.sent, NO_ERROR)
  {
    hide Wf, EventOk, Whole, Step, WillReport, Patient, Reports, TicksToTurn, Counted;
    SendFinIsOut(t);
    WaitingTick(cfg, t, e);
  }

  lemma SendFinIsOut(t: Txn)
    requires !WillReport(t)
    ensures !t.rx.sendFin
  {
  }

  lemma {:induction false} SentInParts(cfg: Config, t: Txn, a: seq<Event>, b: seq<Event>)
    requires StoreOk(cfg, t.store) && (forall e :: e in a ==> EventOk(e)) && forall e :: e in b ==> EventOk(e)
    ensures Sent(cfg, t, a + b) == Sent(cfg, t, a) + Sent(cfg, After(cfg, t, a), b)
    decreases |a|
  {
    hide StoreOk, EventOk, Step;
    if a == [] {
      assert a + b == b;
    } else {
      var rest := a[1..];
      assert a[0] in a && (a + b)[0] == a[0] && (a + b)[1..] == rest + b;
      var r := Step(cfg, t, a[0]);
      SentInParts(cfg, r.txn, rest, b);
      Associative(r.sent, Sent(cfg, r.txn, rest), Sent(cfg, After(cfg, r.txn, rest), b));
    }
  }

  lemma {:induction false} AfterInParts(cfg: Config, t: Txn, a: seq<Event>, b: seq<Event>)
    requires StoreOk(cfg, t.store) && (forall e :: e in a ==> EventOk(e)) && forall e :: e in b ==> EventOk(e)
    ensures After(cfg, t, a + b) == After(cfg, After(cfg, t, a), b)
    decreases |a|
  {
    hide StoreOk, EventOk, Step;
    if a == [] {
      assert a + b == b;
    } else {
      assert a[0] in a && (a + b)[0] == a[0] && (a + b)[1..] == a[1..] + b;
      AfterInParts(cfg, Step(cfg, t, a[0]).txn, a[1..], b);
    }
  }

  lemma Associative(x: seq<Pdu>, y: seq<Pdu>, z: seq<Pdu>)
    ensures x + (y + z) == (x + y) + z
  {
  }

  // ---------------------------------------------------------------------------------------------------------------
  // Exactly when
  // ---------------------------------------------------------------------------------------------------------------

  /** How many wakeups it takes to digest n bytes; the last one also sends the FIN. */
  function Wakeups(cfg: Config, n: nat): nat {
    if n == 0 || cfg.crcBytesPerWakeup == 0 then 1 else (n - 1) / Rounded(cfg.crcBytesPerWakeup) + 1
  }

  lemma WakeupsShrink(cfg: Config, n: nat)
    requires cfg.crcBytesPerWakeup > 0
    ensures var b := Rounded(cfg.crcBytesPerWakeup);
            Wakeups(cfg, n) == if n <= b then 1 else 1 + Wakeups(cfg, n - b)
  {
    var b := Rounded(cfg.crcBytesPerWakeup);
    RoundedOnce(cfg.crcBytesPerWakeup);
    hide Rounded;
    if n > b {
      OneMore(n - b - 1, b);
    } else if n > 0 {
      NotOne(n - 1, b);
    }
  }

  lemma OneMore(x: nat, b: nat)
    requires b > 0
    ensures (x + b) / b == x / b + 1
  {
    var q, r := x / b, x % b;
    assert x + b == b * (q + 1) + r by {
      assert b * (q + 1) == b * q + b;
    }
    QuotientIs(x + b, b, q + 1, r);
  }

  lemma NotOne(x: nat, b: nat)
    requires x < b
    ensures x / b == 0
  {
    QuotientIs(x, b, 0, x);
  }

  lemma QuotientIs(x: nat, b: nat, q: nat, r: nat)
    requires x == b * q + r && r < b
    ensures x / b == q
  {
    ModUnique(x, b, q, r);
  }

  /** The checksum comes to an end. */
  predicate CanDigest(cfg: Config, t: Txn) {
    Remaining(t) == 0 || cfg.crcBytesPerWakeup > 0
  }

  /** The tick, counted from 1, on which the FIN goes out. */
  function FinAt(cfg: Config, t: Txn): (n: nat)
    ensures n > 0
  {
    TicksToTurn(t) + Wakeups(cfg, Remaining(t))
  }

  /** One tick: the FIN goes out because it is its tick, or that tick comes closer. */
  lemma ReportTick(cfg: Config, t: Txn, e: Event)
    requires StoreOk(cfg, t.store) && Whole(t) && WillReport(t) && Patient(t, 1) && EventOk(e)
    requires e.Tick? && e.bufferAvailable && ReadsSucceed(cfg, e.readsOk, t.fsize)
    ensures var r := Step(cfg, t, e);
            if Reports(r.sent, NO_ERROR) then CanDigest(cfg, t) && FinAt(cfg, t) == 1
            else && Whole(r.txn) && WillReport(r.txn) && Counted(t, r.txn) && r.txn.fsize == t.fsize
                 && CanDigest(cfg, r.txn) == CanDigest(cfg, t)
                 && (CanDigest(cfg, t) ==> FinAt(cfg, t) == FinAt(cfg, r.txn) + 1)
  {
    hide Wf, EventOk, Whole, Step, Patient, Reports, Counted, Rounded, ReadsSucceed, Wakeups, Remaining;
    if !t.rx.sendFin {
      WaitingTick(cfg, t, e);
    } else if TurnsBeforeFin(t) > 0 {
      OtherTurnTick(cfg, t, e);
    } else {
      FinTurnTick(cfg, t, e);
      NothingReports();
      WakeupsOfNothing(cfg);
      if cfg.crcBytesPerWakeup > 0 {
        RoundedOnce(cfg.crcBytesPerWakeup);
        WakeupsShrink(cfg, Remaining(t));
      } else {
        RoundedNothing(cfg.crcBytesPerWakeup);
      }
    }
  }

  lemma WakeupsOfNothing(cfg: Config)
    ensures Wakeups(cfg, 0) == 1
  {
  }

  lemma {:induction false} WillReportIff(cfg: Config, t: Txn, ticks: seq<Event>)
    requires StoreOk(cfg, t.store) && Whole(t) && WillReport(t)
    requires Eager(cfg, ticks, t.fsize) && forall e :: e in ticks ==> EventOk(e)
    ensures Reports(Sent(cfg, t, ticks), NO_ERROR)
            <==> CanDigest(cfg, t) && |ticks| >= FinAt(cfg, t) && Patient(t, FinAt(cfg, t))
    decreases |ticks|
  {
    hide Wf, EventOk, Whole, Step, Reports, WillReport, IsError, FinAt, CanDigest, Counted, Patient, ReadsSucceed;
    if ticks == [] {
      NothingReports();
    } else {
      var e, rest := ticks[0], ticks[1..];
      assert e in ticks;
      var r := Step(cfg, t, e);
      PatientLess(t, 1, FinAt(cfg, t));
      if !Patient(t, 1) {
        Impatient(cfg, t, ticks);
      } else {
        ReportTick(cfg, t, e);
        if Reports(r.sent, NO_ERROR) {
          ReportsMore(r.sent, Sent(cfg, r.txn, rest), NO_ERROR);
        } else {
          CountedIsPatient(t, r.txn, FinAt(cfg, r.txn));
          WillReportIff(cfg, r.txn, rest);
          EitherReports(r.sent, Sent(cfg, r.txn, rest), NO_ERROR);
        }
      }
    }
  }

  lemma PatientLess(t: Txn, m: nat, n: nat)
    requires m <= n
    ensures Patient(t, n) ==> Patient(t, m)
  {
  }

  lemma EitherReports(a: seq<Pdu>, b: seq<Pdu>, stat: int)
    requires !Reports(a, stat)
    ensures Reports(a + b, stat) <==> Reports(b, stat)
  {
    hide Reports;
    if Reports(b, stat) {
      ReportsMore(a, b, stat);
    } else {
      NeitherReports(a, b, stat);
    }
  }

  /** The timer runs out on the first tick. */
  lemma Impatient(cfg: Config, t: Txn, ticks: seq<Event>)
    requires StoreOk(cfg, t.store) && Whole(t) && !Patient(t, 1) && ticks != []
    requires Quiet(ticks) && forall e :: e in ticks ==> EventOk(e)
    ensures !Reports(Sent(cfg, t, ticks), NO_ERROR)
  {
    hide Wf, EventOk, Whole, Step, Reports, IsError;
    var e, rest := ticks[0], ticks[1..];
    assert e in ticks;
    WholeMeans(t);
    TimeoutTick(cfg, t, e);
    ErrorIsReported(cfg, Step(cfg, t, e).txn, rest);
    NeitherReports(Step(cfg, t, e).sent, Sent(cfg, Step(cfg, t, e).txn, rest), NO_ERROR);
  }

  /**
   Exactly when a receiver that has everything says so, if it hears nothing more and has buffers and reads: it sends a FIN without
   an error if and only if the FIN is due already, or completeness will be noticed by the acknowledgement timer and not by the NAK
   step; the checksum can be finished; and there are as many ticks as that takes, before the inactivity timer runs out.
   */
  lemma WholeIsReportedIff(cfg: Config, t: Txn, ticks: seq<Event>)
    requires StoreOk(cfg, t.store) && Whole(t)
    requires Eager(cfg, ticks, t.fsize) && forall e :: e in ticks ==> EventOk(e)
    ensures Reports(Sent(cfg, t, ticks), NO_ERROR)
            <==> WillReport(t) && CanDigest(cfg, t) && |ticks| >= FinAt(cfg, t) && Patient(t, FinAt(cfg, t))
  {
    hide Wf, EventOk, Whole, Sent, Patient, WillReport, CanDigest, FinAt, Reports;
    if WillReport(t) {
      WillReportIff(cfg, t, ticks);
    } else {
      OthersNeverReport(cfg, t, ticks);
    }
  }

  /** Once it runs out, a silent receiver reports inactivity for a file that is complete. */
  lemma SilenceEndsInError(cfg: Config, t: Txn, e: Event)
    requires StoreOk(cfg, t.store) && Whole(t) && t.rx.complete && !t.rx.sendFin && !t.rx.sendAck && !t.rx.sendNak
    requires !t.rx.inactivityFired && t.inactivityTimer == 0 && EventOk(e) && e.Tick? && e.bufferAvailable
    ensures Step(cfg, t, e).sent == [FinOut(t.r2.dc, t.r2.fs, INACTIVITY_DETECTED)]
  {
    hide Wf, ReportedGaps, OnTrack, AckTick;
  }

  /** The inactivity timer is shorter than the acknowledgement timer. */
  const SLOW := Config(3, 3, 5, 2, 4096, 2)

  /** The EOF for one byte, and then the byte, before the first NAK has been sent. */
  function SilentRun(): seq<Event> {
    [EofPdu(Some(EofFields(NO_ERROR, 0x4100_0000, 1))), ByteOfFile(65)]
  }

  function SilentTxn(ackTimer: nat, inactivityTimer: nat, rx: RxFlags): Txn {
    Txn(false, false, false, false, FileDataState, NO_ERROR, 1, ackTimer, inactivityTimer, rx,
        R2(NO_ERROR, 0x4100_0000, 1, 0, Incomplete, Discarded, 0, 1), Store([Chunk(0, 1)], START, [65], 1))
  }

  lemma SilentEof()
    ensures var t := Initial(SLOW, Some(1), NO_ERROR, [], true, START);
            StoreOk(SLOW, t.store)
            && Step(SLOW, t, SilentRun()[0]).txn
               == Txn(false, false, false, false, FileDataState, NO_ERROR, 1, 5, 2,
                      RxFlags(true, false, true, true, false, true, false, false),
                      R2(NO_ERROR, 0x4100_0000, 1, 1, Incomplete, Discarded, 0, 0), Store([], START, [], 0))
  {
  }

  lemma SilentData()
    ensures var t := Txn(false, false, false, false, FileDataState, NO_ERROR, 1, 5, 2,
                         RxFlags(true, false, true, true, false, true, false, false),
                         R2(NO_ERROR, 0x4100_0000, 1, 1, Incomplete, Discarded, 0, 0), Store([], START, [], 0));
            StoreOk(SLOW, t.store)
            && Step(SLOW, t, ByteOfFile(65)).txn == SilentTxn(5, 2, RxFlags(true, false, true, true, false, true, false, false))
  {
    hide Added, Written;
    FirstByte();
  }

  lemma SilentRunLeads()
    ensures forall e :: e in SilentRun() ==> EventOk(e)
    ensures var t := Initial(SLOW, Some(1), NO_ERROR, [], true, START);
            StoreOk(SLOW, t.store)
            && After(SLOW, t, SilentRun()) == SilentTxn(5, 2, RxFlags(true, false, true, true, false, true, false, false))
  {
    hide Step, Initial, StoreOk, EventOk, SilentTxn;
    SilentRunIsOk();
    SilentEof();
    SilentData();
    var t0, es := Initial(SLOW, Some(1), NO_ERROR, [], true, START), SilentRun();
    var t1 := Step(SLOW, t0, es[0]).txn;
    var t2 := Step(SLOW, t1, es[1]).txn;
    assert es[1..] == [es[1]];
    assert After(SLOW, t1, [es[1]]) == After(SLOW, t2, []) == t2;
  }

  /** A receiver that has the whole file and has said nothing about it never says more than that it was inactive. */
  lemma SilentRunEndsInError(ticks: seq<Event>)
    requires Unhindered(ticks) && forall e :: e in ticks ==> EventOk(e)
    ensures forall e :: e in SilentRun() ==> EventOk(e)
    ensures StoreOk(SLOW, Initial(SLOW, Some(1), NO_ERROR, [], true, START).store)
    ensures var t := After(SLOW, Initial(SLOW, Some(1), NO_ERROR, [], true, START), SilentRun());
            && Whole(t) && !Reports(Sent(SLOW, t, ticks), NO_ERROR)
            && (|ticks| >= 3 ==> FinOut(Incomplete, Discarded, INACTIVITY_DETECTED) in Sent(SLOW, t, ticks))
  {
    hide Step, Initial, StoreOk, EventOk, SilentTxn, SilentRun, Whole, WillReport, Reports, After, Sent;
    SilentRunLeads();
    SilentIsWhole();
    var t := After(SLOW, Initial(SLOW, Some(1), NO_ERROR, [], true, START), SilentRun());
    OthersNeverReport(SLOW, t, ticks);
    if |ticks| >= 3 {
      assert ticks[0] in ticks && ticks[1] in ticks && ticks[2] in ticks;
      SilentSends(ticks[0], ticks[1], ticks[2]);
      SentThree(SLOW, t, ticks);
    }
  }

  lemma SilentRunIsOk()
    ensures forall e :: e in SilentRun() ==> EventOk(e)
  {
  }

  lemma SilentIsWhole()
    ensures var t := SilentTxn(5, 2, RxFlags(true, false, true, true, false, true, false, false));
            StoreOk(SLOW, t.store) && Whole(t) && !WillReport(t)
  {
    hide Checksum, Digested;
    var t := SilentTxn(5, 2, RxFlags(true, false, true, true, false, true, false, false));
    ChecksumInNumbers([65]);
    ExampleHasNoGap(t);
    assert t.store.file[..1] == [65];
  }

  lemma SilentSends(e0: Event, e1: Event, e2: Event)
    requires forall e :: e in [e0, e1, e2] ==> e.Tick? && e.bufferAvailable
    ensures var t2 := SilentTxn(5, 2, RxFlags(true, false, true, true, false, true, false, false));
            var t3 := SilentTxn(4, 1, RxFlags(true, false, true, true, false, false, false, false));
            var t4 := SilentTxn(3, 0, RxFlags(true, false, true, false, false, false, true, false));
            && StoreOk(SLOW, t2.store) && StoreOk(SLOW, t3.store) && StoreOk(SLOW, t4.store)
            && EventOk(e0) && EventOk(e1) && EventOk(e2)
            && Step(SLOW, t2, e0).txn == t3 && Step(SLOW, t3, e1).txn == t4
            && Step(SLOW, t4, e2).sent == [FinOut(Incomplete, Discarded, INACTIVITY_DETECTED)]
  {
    assert e0 in [e0, e1, e2] && e1 in [e0, e1, e2] && e2 in [e0, e1, e2];
    SilentAck(e0);
    SilentNak(e1);
    SilentFin(e2);
  }

  lemma SilentAck(e: Event)
    requires e.Tick? && e.bufferAvailable
    ensures var t := SilentTxn(5, 2, RxFlags(true, false, true, true, false, true, false, false));
            StoreOk(SLOW, t.store) && EventOk(e)
            && Step(SLOW, t, e).txn == SilentTxn(4, 1, RxFlags(true, false, true, true, false, false, false, false))
  {
  }

  lemma SilentNak(e: Event)
    requires e.Tick? && e.bufferAvailable
    ensures var t := SilentTxn(4, 1, RxFlags(true, false, true, true, false, false, false, false));
            StoreOk(SLOW, t.store) && EventOk(e)
            && Step(SLOW, t, e).txn == SilentTxn(3, 0, RxFlags(true, false, true, false, false, false, true, false))
  {
    hide NakGaps;
    var t := SilentTxn(4, 0, RxFlags(true, false, true, true, false, false, false, false));
    ExampleHasNoGap(t);
    NakStepLatches(SLOW, t, e);
  }

  lemma SilentFin(e: Event)
    requires e.Tick? && e.bufferAvailable
    ensures var t := SilentTxn(3, 0, RxFlags(true, false, true, false, false, false, true, false));
            StoreOk(SLOW, t.store) && EventOk(e)
            && Step(SLOW, t, e).sent == [FinOut(Incomplete, Discarded, INACTIVITY_DETECTED)]
  {
  }

  lemma SentThree(cfg: Config, t: Txn, events: seq<Event>)
    requires StoreOk(cfg, t.store) && |events| >= 3 && forall e :: e in events ==> EventOk(e)
    ensures var t1 := Step(cfg, t, events[0]).txn;
            var t2 := Step(cfg, t1, events[1]).txn;
            forall p :: p in Step(cfg, t2, events[2]).sent ==> p in Sent(cfg, t, events)
  {
    hide Wf, Step, EventOk;
    var t1 := Step(cfg, t, events[0]).txn;
    var t2 := Step(cfg, t1, events[1]).txn;
    var t3 := Step(cfg, t2, events[2]).txn;
    var a, b := events[1..], events[1..][1..];
    assert a[0] == events[1] && b[0] == events[2];
    assert Sent(cfg, t2, b) == Step(cfg, t2, events[2]).sent + Sent(cfg, t3, b[1..]);
    assert Sent(cfg, t1, a) == Step(cfg, t1, events[1]).sent + Sent(cfg, t2, b);
    assert Sent(cfg, t, events) == Step(cfg, t, events[0]).sent + Sent(cfg, t1, a);
  }
}
