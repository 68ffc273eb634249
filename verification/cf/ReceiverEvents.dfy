/**
 How a transaction of the class-2 receiver (`ReceiverSpec`) ends: exactly which events free it, that nothing is sent
 afterwards, and in numbers what is written to the file and which codes FINs carry.
 */
module ReceiverEvents {
  import opened Bytes
  import opened ChunkTheory
  import opened NakRequests
  import opened ReceiverSpec
  import opened ReceiverIntegrity
  import opened ReceiverRetries
  import opened ReceiverProgress

  // ---------------------------------------------------------------------------------------------------------------
  // The end of a transaction
  // ---------------------------------------------------------------------------------------------------------------

  /** The PDU of an EOF that is taken: the first one, whose size does not contradict the metadata. */
  predicate Takes(t: Txn, e: Event) {
    e.EofPdu? && e.eof.Some? && !t.rx.eofRecv && (t.rx.mdRecv ==> e.eof.value.size == t.fsize)
  }

  /** Exactly which PDUs and requests end a transaction on the spot: the acknowledgement of its FIN, a cancel request
      while it waits for that, an EOF that reports an error, and file data that cannot be stored. */
  predicate Ends(t: Txn, e: Event) {
    match e
    case AckPdu(ok) => ok && t.subState == WaitForFinAck
    case Cancel => !t.canceled && t.subState == WaitForFinAck
    case EofPdu(_) => Takes(t, e) && e.eof.value.cc != 0
    case FileDataPdu(_, _, _) => !IsError(t.txnStat) && !Stores(t, e)
    case _ => false
  }

  lemma CompletenessFreesNone(cfg: Config, t: Txn, okToSendNak: bool)
    requires Wf(t.store.chunks)
    ensures CheckComplete(cfg, t, okToSendNak).freed == t.freed
  {
    hide Wf, CheckComplete;
  }

  lemma FreedIff(cfg: Config, t: Txn, e: Event)
    requires StoreOk(cfg, t.store) && EventOk(e) && !t.freed && !e.Tick?
    ensures Step(cfg, t, e).txn.freed <==> Ends(t, e)
    ensures Step(cfg, t, e).sent == []
  {
    hide Wf, CheckComplete, StoreWith;
    match e
    case EofPdu(eof) =>
      if eof.Some? {
        CompletenessFreesNone(cfg, EofNoted(t, eof.value), true);
      }
    case MetadataPdu(outcome, _, _) =>
      if outcome.GoodMetadata? {
        CompletenessFreesNone(cfg, MetadataNoted(t, outcome.size), true);
      }
    case FileDataPdu(_, _, _) =>
    case _ =>
  }

  /** A tick ends it exactly if the acknowledgement of a FIN is awaited for the last time and does not come. */
  lemma TickFreesIff(cfg: Config, t: Txn, e: Event)
    requires StoreOk(cfg, t.store) && EventOk(e) && !t.freed && e.Tick?
    ensures var t1 := SendTick(cfg, InactivityTick(t), e).txn;
            Step(cfg, t, e).txn.freed <==>
              t1.ackTimer == 0 && t1.rx.complete && t1.subState == WaitForFinAck && t1.r2.ackNakCount + 1 >= cfg.ackLimit
  {
    hide Wf, CheckComplete, InactivityTick, SendTick;
    TickIs(cfg, t, e);
    SendFreesNone(cfg, InactivityTick(t), e);
  }

  lemma SendFreesNone(cfg: Config, t: Txn, e: Event)
    requires StoreOk(cfg, t.store) && e.Tick?
    ensures SendTick(cfg, t, e).txn.freed == t.freed
  {
    hide Wf, SendNak, SendFin;
    SendNakFreesNone(cfg, t, e);
    SendFinFreesNone(cfg, t, e);
  }

  lemma NakDoneFreesNone(t: Txn, noGap: bool, dataRequested: bool)
    ensures NakDone(t, noGap, dataRequested).freed == t.freed
  {
  }

  lemma SendNakFreesNone(cfg: Config, t: Txn, e: Event)
    requires StoreOk(cfg, t.store) && e.Tick?
    ensures SendNak(cfg, t, e).txn.freed == t.freed
  {
    hide Wf, NakGaps, NakFor, NakDone;
    NakDoneFreesNone(t, false, false);
    NakDoneFreesNone(t, true, false);
    NakDoneFreesNone(t, false, true);
  }

  lemma SendFinFreesNone(cfg: Config, t: Txn, e: Event)
    requires e.Tick?
    ensures SendFin(cfg, t, e).txn.freed == t.freed
  {
    hide CalcCrcChunk, ConditionCode;
    CalcCrcLeaves(cfg, t, e.readsOk);
  }

  /** The acknowledgement of the FIN ends a transaction that waits for it; otherwise an acknowledgement only shows that the
      sender is alive. */
  lemma AcknowledgementEndsIff(cfg: Config, t: Txn, ok: bool)
    requires StoreOk(cfg, t.store) && !t.freed
    ensures Step(cfg, t, AckPdu(ok)).txn.freed <==> ok && t.subState == WaitForFinAck
    ensures !(ok && t.subState == WaitForFinAck) ==>
              Step(cfg, t, AckPdu(ok)) == Result(t.(inactivityTimer := cfg.inactivityTicks), [])
  {
    hide Wf;
  }

  lemma {:induction false} FreedIsSilent(cfg: Config, t: Txn, events: seq<Event>)
    requires StoreOk(cfg, t.store) && t.freed && forall e :: e in events ==> EventOk(e)
    ensures After(cfg, t, events) == t && Sent(cfg, t, events) == []
    decreases |events|
  {
    hide Wf, EventOk;
    if events != [] {
      assert events[0] in events;
      FreedIsSilent(cfg, t, events[1..]);
    }
  }

  /**
   Over whole runs: once a receiver waits for the acknowledgement of its FIN, the first acknowledgement is the end.  It is freed,
   and nothing that happens afterwards makes it send anything more.
   */
  lemma AcknowledgedIsOver(cfg: Config, t: Txn, before: seq<Event>, after: seq<Event>)
    requires StoreOk(cfg, t.store) && (forall e :: e in before ==> EventOk(e)) && forall e :: e in after ==> EventOk(e)
    requires After(cfg, t, before).subState == WaitForFinAck
    ensures EventOk(AckPdu(true)) && forall e :: e in before + ([AckPdu(true)] + after) ==> EventOk(e)
    ensures After(cfg, t, before + ([AckPdu(true)] + after)).freed
    ensures Sent(cfg, t, before + ([AckPdu(true)] + after)) == Sent(cfg, t, before)
  {
    hide Wf, EventOk, Step, Sent, After;
    AckIsOk();
    var t1, rest := After(cfg, t, before), [AckPdu(true)] + after;
    AfterInParts(cfg, t, before, rest);
    SentInParts(cfg, t, before, rest);
    AcknowledgedNow(cfg, t1, after);
    assert Sent(cfg, t, before) + [] == Sent(cfg, t, before);
  }

  lemma AckIsOk()
    ensures EventOk(AckPdu(true))
  {
  }

  lemma AcknowledgedNow(cfg: Config, t: Txn, after: seq<Event>)
    requires StoreOk(cfg, t.store) && t.subState == WaitForFinAck && forall e :: e in after ==> EventOk(e)
    requires forall e :: e in [AckPdu(true)] + after ==> EventOk(e)
    ensures After(cfg, t, [AckPdu(true)] + after).freed && Sent(cfg, t, [AckPdu(true)] + after) == []
  {
    hide Wf, EventOk, Step;
    var events := [AckPdu(true)] + after;
    assert events[1..] == after;
    if t.freed {
      FreedIsSilent(cfg, t, events);
    } else {
      AcknowledgementEndsIff(cfg, t, true);
      FreedIff(cfg, t, AckPdu(true));
      FreedIsSilent(cfg, Step(cfg, t, AckPdu(true)).txn, after);
    }
  }

  // ---------------------------------------------------------------------------------------------------------------
  // Contents and codes
  // ---------------------------------------------------------------------------------------------------------------

  /** Data written at its offset is what a reader finds there, and everything else is as before; a hole reads as zeros. */
  lemma WrittenIs(file: seq<byte>, pos: nat, data: seq<byte>)
    requires data != []
    ensures var f := Written(file, pos, data);
            && |f| == Max(|file|, pos + |data|)
            && forall k :: 0 <= k < |f| ==>
                 f[k] == if pos <= k < pos + |data| then data[k - pos] else if k < |file| then file[k] else 0
  {
  }

  /** The codes of table 5-5 of CCSDS 727.0-B-5; statuses without a code of their own are reported as inactivity or
      cancellation. */
  lemma CodesAre()
    ensures ConditionCode(-1) == 0 && ConditionCode(0) == 0
    ensures ConditionCode(FILESTORE_REJECTION) == 4 && ConditionCode(FILE_CHECKSUM_FAILURE) == 5
    ensures ConditionCode(FILE_SIZE_ERROR) == 6 && ConditionCode(NAK_LIMIT_REACHED) == 7
    ensures ConditionCode(INACTIVITY_DETECTED) == 8 && ConditionCode(CANCEL_REQUEST_RECEIVED) == 15
    ensures ConditionCode(ACK_LIMIT_NO_FIN) == 8 && ConditionCode(ACK_LIMIT_NO_EOF) == 8 && ConditionCode(PROTOCOL_ERROR) == 15
    ensures ConditionCode(17) == 8 && ConditionCode(18) == 8 && ConditionCode(16) == 15 && ConditionCode(14) == 14
    ensures forall stat :: 0 < stat <= 11 ==> ConditionCode(stat) == stat
  {
  }

  /** Running out of NAKs and of patience is reported with the codes 7 and 8. */
  lemma GivingUpIsReported(cfg: Config, t: Txn, ticks: seq<Event>)
    requires StoreOk(cfg, t.store) && Missing(cfg, t) && Unhindered(ticks) && forall e :: e in ticks ==> EventOk(e)
    requires |ticks| >= Deadline(cfg.nakLimit, t.r2.ackNakCount, cfg.ackTicks, t.ackTimer) + 3
                        + Deadline(cfg.ackLimit, 0, cfg.ackTicks, cfg.ackTicks)
    ensures After(cfg, t, ticks).freed ==> exists p :: p in Sent(cfg, t, ticks) && p.FinOut? && p.cc == 7
    ensures !After(cfg, t, ticks).freed ==> After(cfg, t, ticks).txnStat == 8
  {
    hide Wf, EventOk, Deadline, Missing, After, Sent, ConditionCode;
    MissingIsFreedIff(cfg, t, ticks);
    CodesAre();
  }
}
