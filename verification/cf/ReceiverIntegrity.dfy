/**
 What the receiver (`ReceiverSpec`) leaves behind: errors stay, data that cannot be stored ends the transaction, and the file
 of a successful transaction is the one the checksum saw, exactly unless file data has altered bytes already digested.
 */
module ReceiverIntegrity {
  import opened Bytes
  import opened Options
  import opened ChunkTheory
  import opened FileChecksum
  import opened PduFormat
  import opened ReceiverSpec
  import opened ReceiverSafety

  // ---------------------------------------------------------------------------------------------------------------
  // Errors stay
  // ---------------------------------------------------------------------------------------------------------------

  predicate KeepsError(t: Txn, t': Txn) {
    IsError(t.txnStat) ==> t'.txnStat == t.txnStat
  }

  lemma CheckCompleteKeepsError(cfg: Config, t: Txn, okToSendNak: bool)
    requires Wf(t.store.chunks)
    ensures KeepsError(t, CheckComplete(cfg, t, okToSendNak))
  {
    hide Wf, HasGap;
  }

  lemma HandledKeepsError(cfg: Config, t: Txn, e: Event)
    requires StoreOk(cfg, t.store) && EventOk(e)
    ensures KeepsError(t, Handled(cfg, t, e))
  {
    hide Wf, CheckComplete, StoreWith;
    match e
    case EofPdu(eof) =>
      if eof.Some? {
        CheckCompleteKeepsError(cfg, EofNoted(t, eof.value), true);
      }
    case MetadataPdu(outcome, _, _) =>
      if outcome.GoodMetadata? {
        CheckCompleteKeepsError(cfg, MetadataNoted(t, outcome.size), true);
      }
    case _ =>
  }

  lemma SendTickKeepsError(cfg: Config, t: Txn, e: Event)
    requires e.Tick? && StoreOk(cfg, t.store)
    ensures KeepsError(t, SendTick(cfg, t, e).txn)
  {
    hide Wf, NakGaps, CalcCrcChunk, ConditionCode;
  }

  lemma AckTickKeepsError(cfg: Config, t: Txn)
    requires Wf(t.store.chunks)
    ensures KeepsError(t, AckTick(cfg, t))
  {
    hide Wf, CheckComplete;
    CheckCompleteKeepsError(cfg, t, true);
  }

  lemma StepKeepsError(cfg: Config, t: Txn, e: Event)
    requires StoreOk(cfg, t.store) && EventOk(e)
    ensures KeepsError(t, Step(cfg, t, e).txn)
  {
    hide Wf, Handled, SendTick, AckTick;
    match e
    case Tick(_, _) =>
      var t1 := InactivityTick(t);
      SendTickKeepsError(cfg, t1, e);
      AckTickKeepsError(cfg, SendTick(cfg, t1, e).txn);
    case Cancel =>
    case _ => HandledKeepsError(cfg, t, e);
  }

  /** Once a transaction has an error status, no events change it. */
  lemma {:induction false} ErrorIsSticky(cfg: Config, t: Txn, events: seq<Event>)
    requires StoreOk(cfg, t.store) && IsError(t.txnStat) && forall e :: e in events ==> EventOk(e)
    ensures After(cfg, t, events).txnStat == t.txnStat
    decreases |events|
  {
    hide Wf, Step, EventOk;
    if events != [] {
      assert events[0] in events;
      StepKeepsError(cfg, t, events[0]);
      ErrorIsSticky(cfg, Step(cfg, t, events[0]).txn, events[1..]);
    }
  }

  /** File data that cannot be stored ends the transaction on the spot: no FIN is sent for it, then or later. */
  lemma UnstorableDataEnds(cfg: Config, t: Txn, e: Event)
    requires StoreOk(cfg, t.store) && EventOk(e) && e.FileDataPdu? && !t.freed && !IsError(t.txnStat) && !Stores(t, e)
    ensures Step(cfg, t, e).txn.freed && Step(cfg, t, e).sent == [] && IsError(Step(cfg, t, e).txn.txnStat)
  {
    hide Wf;
  }

  // ---------------------------------------------------------------------------------------------------------------
  // The file and the checksum
  // ---------------------------------------------------------------------------------------------------------------

  /** The digested bytes are still at the start of the file. */
  ghost predicate Intact(t: Txn, h: History) {
    h.digested <= t.store.file
  }

  /** File data that differs from digested bytes arrives. */
  ghost predicate Alters(t: Txn, e: Event, h: History) {
    Accepts(t, e) && exists i :: 0 <= i < |e.fd.value.data| && Differs(h.digested, e.fd.value, i)
  }

  predicate Differs(digested: seq<byte>, d: DataFields, i: nat)
    requires i < |d.data|
  {
    d.offset + i < |digested| && d.data[i] != digested[d.offset + i]
  }

  lemma WrittenAt(file: seq<byte>, pos: nat, data: seq<byte>, k: nat)
    ensures |file| <= |Written(file, pos, data)|
    ensures k < |file| ==> Written(file, pos, data)[k] == if pos <= k < pos + |data| then data[k - pos] else file[k]
  {
  }

  lemma WrittenKeepsPrefixIff(file: seq<byte>, d: DataFields, digested: seq<byte>)
    requires digested <= file
    ensures digested <= Written(file, d.offset, d.data)
            <==> !exists i :: 0 <= i < |d.data| && Differs(digested, d, i)
  {
    hide Written;
    var after := Written(file, d.offset, d.data);
    WrittenAt(file, d.offset, d.data, 0);
    if i :| 0 <= i < |d.data| && Differs(digested, d, i) {
      WrittenAt(file, d.offset, d.data, d.offset + i);
      assert after[d.offset + i] != digested[d.offset + i];
    } else {
      forall k | 0 <= k < |digested|
        ensures after[k] == digested[k]
      {
        WrittenAt(file, d.offset, d.data, k);
        if d.offset <= k < d.offset + |d.data| {
          assert !Differs(digested, d, k - d.offset);
        }
      }
    }
  }

  lemma WritesAtOffset(cfg: Config, t: Txn, d: DataFields)
    requires StoreOk(cfg, t.store) && d.offset + |d.data| < UINT32 && t.r2.cachedPos == t.store.filePos
    ensures Stored(cfg, t, d).store.file == Written(t.store.file, d.offset, d.data)
  {
    hide Wf, Added, Written;
  }

  lemma AcceptedFile(cfg: Config, t: Txn, e: Event, h: History)
    requires Inv(cfg, t, h) && EventOk(e) && Accepts(t, e)
    ensures Step(cfg, t, e).txn.store.file == Written(t.store.file, e.fd.value.offset, e.fd.value.data)
  {
    hide Wf, Known, Covers, Digested, Checksum, Written, Stored, CheckComplete;
    WritesAtOffset(cfg, t, e.fd.value);
  }

  /** Ticks only read the file, other PDUs leave it alone. */
  lemma OtherFile(cfg: Config, t: Txn, e: Event)
    requires StoreOk(cfg, t.store) && EventOk(e) && !Accepts(t, e)
    ensures Step(cfg, t, e).txn.store.file == t.store.file
  {
    hide Wf, CheckComplete, StoreWith, SendTick, InactivityTick, AckTick;
  }

  /** Nothing is digested any more after an error, or once the checksum has been compared. */
  lemma DigestIsOver(cfg: Config, t: Txn, e: Event)
    requires StoreOk(cfg, t.store) && EventOk(e) && (t.freed || IsError(t.txnStat) || t.crcCalc)
    ensures Step(cfg, t, e).txn.r2.rxCrcCalcBytes == t.r2.rxCrcCalcBytes
  {
    hide Wf, Handled, SendTick, InactivityTick, AckTick;
    if e.Tick? && !t.freed {
      InactivityKeepsFacts(t);
      SendsWithoutDigest(cfg, InactivityTick(t), e);
    }
  }

  lemma SendsWithoutDigest(cfg: Config, t: Txn, e: Event)
    requires StoreOk(cfg, t.store) && e.Tick? && (IsError(t.txnStat) || t.crcCalc)
    ensures SendTick(cfg, t, e).txn.r2.rxCrcCalcBytes == t.r2.rxCrcCalcBytes
  {
    hide Wf, SendNak, CalcCrcChunk, ConditionCode;
    SendNakKeepsFacts(cfg, t, e);
  }

  lemma SliceExtends(digested: seq<byte>, file: seq<byte>, to: nat)
    requires digested <= file
    ensures digested + Slice(file, |digested|, to) <= file
  {
    var more := Slice(file, |digested|, to);
    forall k | 0 <= k < |digested + more|
      ensures (digested + more)[k] == file[k]
    {
      if k < |digested| {
        assert digested[k] == file[k];
      }
    }
  }

  /** Whether the digested bytes are still in the file after one more event: exactly if the event does not alter them. */
  lemma StaysIntactIff(cfg: Config, t: Txn, e: Event, h: History)
    requires Inv(cfg, t, h) && EventOk(e) && Intact(t, h)
    ensures Intact(Step(cfg, t, e).txn, Record(cfg, t, e, h)) <==> !Alters(t, e, h)
  {
    hide Wf, Known, Covers, Digested, Checksum, Step, Differs;
    if Accepts(t, e) {
      AcceptedFile(cfg, t, e, h);
      WrittenKeepsPrefixIff(t.store.file, e.fd.value, h.digested);
    } else {
      OtherFile(cfg, t, e);
      var to := Step(cfg, t, e).txn.r2.rxCrcCalcBytes;
      if t.freed || IsError(t.txnStat) || t.crcCalc {
        DigestIsOver(cfg, t, e);
        DigestedNothing(START, t.store.file, to);
        assert h.digested + [] == h.digested;
      } else {
        SliceExtends(h.digested, t.store.file, to);
      }
    }
  }

  ghost predicate NeverAlters(cfg: Config, t: Txn, h: History, events: seq<Event>)
    requires StoreOk(cfg, t.store) && forall e :: e in events ==> EventOk(e)
    decreases |events|
  {
    events != [] ==>
      && !Alters(t, events[0], h)
      && NeverAlters(cfg, Step(cfg, t, events[0]).txn, Record(cfg, t, events[0], h), events[1..])
  }

  lemma {:induction false} RunStaysIntact(cfg: Config, t: Txn, events: seq<Event>, h: History)
    requires Inv(cfg, t, h) && Intact(t, h) && (forall e :: e in events ==> EventOk(e)) && NeverAlters(cfg, t, h, events)
    ensures Intact(After(cfg, t, events), RunHistory(cfg, t, h, events))
    decreases |events|
  {
    hide Wf, Known, Healthy, Step, Record, EventOk, Alters, Intact;
    if events != [] {
      assert events[0] in events;
      StepKeeps(cfg, t, events[0], h);
      StaysIntactIff(cfg, t, events[0], h);
      RunStaysIntact(cfg, Step(cfg, t, events[0]).txn, events[1..], Record(cfg, t, events[0], h));
    }
  }

  /** If no file data alters digested bytes, a FIN without an error means that the file on the disk has the size of the
      metadata and the checksum of the EOF. */
  lemma FileIsSound(cfg: Config, metadata: Option<nat>, stat: int, chunks: seq<Chunk>, created: bool, crc: CrcState,
                    events: seq<Event>, e: Event)
    requires cfg.Ok() && Wf(chunks) && |chunks| <= cfg.maxChunks
    requires EventOk(e) && forall e' :: e' in events ==> EventOk(e')
    requires NeverAlters(cfg, Initial(cfg, metadata, stat, chunks, created, crc), History(chunks, []), events)
    requires var t := After(cfg, Initial(cfg, metadata, stat, chunks, created, crc), events);
             exists p :: p in Step(cfg, t, e).sent && p.FinOut? && p.cc == NO_ERROR
    ensures var t := After(cfg, Initial(cfg, metadata, stat, chunks, created, crc), events);
            t.fsize <= |t.store.file| && Checksum(t.store.file[..t.fsize]) == t.r2.eofCrc
            && t.r2.eofSize == t.fsize
  {
    hide Wf, Known, Healthy, Initial, After, RunHistory, Step, Record, EventOk, Checksum, Covers, NeverAlters;
    var t0, h0 := Initial(cfg, metadata, stat, chunks, created, crc), History(chunks, []);
    InitialInv(cfg, metadata, stat, chunks, created, crc);
    var t, h := After(cfg, t0, events), RunHistory(cfg, t0, h0, events);
    InitiallyIntact(cfg, metadata, stat, chunks, created, crc);
    RunKeeps(cfg, t0, events, h0);
    RunStaysIntact(cfg, t0, events, h0);
    StepKeeps(cfg, t, e, h);
    FinTicks(cfg, t, e);
    TickAltersNothing(t, e, h);
    StaysIntactIff(cfg, t, e, h);
    OtherFile(cfg, t, e);
    TickKeepsFacts(cfg, t, e);
    var t', h' := Step(cfg, t, e).txn, Record(cfg, t, e, h);
    assert h'.digested == t'.store.file[..|h'.digested|];
  }

  lemma InitiallyIntact(cfg: Config, metadata: Option<nat>, stat: int, chunks: seq<Chunk>, created: bool, crc: CrcState)
    ensures Intact(Initial(cfg, metadata, stat, chunks, created, crc), History(chunks, []))
  {
  }

  lemma FinTicks(cfg: Config, t: Txn, e: Event)
    requires StoreOk(cfg, t.store) && EventOk(e) && Step(cfg, t, e).sent != []
    ensures e.Tick? && !t.freed
  {
    hide Wf, Handled, TickResult;
  }

  lemma TickAltersNothing(t: Txn, e: Event, h: History)
    requires e.Tick?
    ensures !Accepts(t, e) && !Alters(t, e, h)
  {
  }

  lemma TickKeepsFacts(cfg: Config, t: Txn, e: Event)
    requires StoreOk(cfg, t.store) && EventOk(e) && e.Tick? && !t.freed
    ensures SameEof(t, Step(cfg, t, e).txn)
  {
    hide Wf, AckTick, SendTick, InactivityTick;
    var t1 := InactivityTick(t);
    InactivityKeepsFacts(t);
    SendTickKeepsFacts(cfg, t1, e);
  }

  lemma InactivityKeepsFacts(t: Txn)
    ensures InactivityTick(t).fsize == t.fsize && InactivityTick(t).crcCalc == t.crcCalc
    ensures IsError(t.txnStat) ==> IsError(InactivityTick(t).txnStat)
  {
  }

  predicate SameEof(t: Txn, t': Txn) {
    t'.fsize == t.fsize && t'.r2.eofSize == t.r2.eofSize && t'.r2.eofCrc == t.r2.eofCrc
  }

  /** What the checksum leaves alone. */
  predicate SameButChecksum(t: Txn, t': Txn) {
    && SameEof(t, t') && t'.freed == t.freed && t'.subState == t.subState && t'.ackTimer == t.ackTimer
    && t'.inactivityTimer == t.inactivityTimer && t'.r2.ackNakCount == t.r2.ackNakCount && t'.rx.sendNak == t.rx.sendNak
    && t'.rx.complete == t.rx.complete && t'.rx.inactivityFired == t.rx.inactivityFired
  }

  lemma DigestLeaves(t: Txn, d: Digest)
    ensures SameButChecksum(t, WithDigest(t, d))
  {
  }

  lemma StatusLeaves(t: Txn, stat: int)
    ensures SameButChecksum(t, WithStatus(t, stat))
  {
  }

  lemma ComparisonLeaves(t: Txn)
    ensures SameButChecksum(t, Checked(t))
  {
    hide Finalized;
  }

  lemma LeavesTwice(t: Txn, t': Txn, t'': Txn)
    requires SameButChecksum(t, t') && SameButChecksum(t', t'')
    ensures SameButChecksum(t, t'')
  {
  }

  lemma CalcCrcLeaves(cfg: Config, t: Txn, readsOk: nat)
    ensures SameButChecksum(t, CalcCrcChunk(cfg, t, readsOk).0)
  {
    hide DigestLoop, DigestOf, Checked, WithDigest, WithStatus, SameButChecksum;
    var (d, ok) := DigestLoop(cfg, t.store.file, t.fsize, DigestOf(t), 0, readsOk);
    var t1 := WithDigest(t, d);
    DigestLeaves(t, d);
    StatusLeaves(t1, FILE_SIZE_ERROR);
    ComparisonLeaves(t1);
    LeavesTwice(t, t1, WithStatus(t1, FILE_SIZE_ERROR));
    LeavesTwice(t, t1, Checked(t1));
  }

  lemma SendFinKeepsFacts(cfg: Config, t: Txn, e: Event)
    requires e.Tick?
    ensures SameEof(t, SendFin(cfg, t, e).txn)
  {
    hide CalcCrcChunk, ConditionCode;
    CalcCrcLeaves(cfg, t, e.readsOk);
  }

  lemma NakDoneKeepsFacts(t: Txn, noGap: bool, dataRequested: bool)
    ensures NakDone(t, noGap, dataRequested).r2 == t.r2 && NakDone(t, noGap, dataRequested).fsize == t.fsize
  {
  }

  lemma SendNakKeepsFacts(cfg: Config, t: Txn, e: Event)
    requires StoreOk(cfg, t.store) && e.Tick?
    ensures SendNak(cfg, t, e).txn.r2 == t.r2 && SendNak(cfg, t, e).txn.fsize == t.fsize
  {
    hide Wf, NakGaps, NakDone;
    NakDoneKeepsFacts(t, false, false);
    NakDoneKeepsFacts(t, true, false);
    NakDoneKeepsFacts(t, false, true);
  }

  lemma SendTickKeepsFacts(cfg: Config, t: Txn, e: Event)
    requires StoreOk(cfg, t.store) && e.Tick?
    ensures SameEof(t, SendTick(cfg, t, e).txn)
  {
    hide Wf, SendNak, SendFin;
    SendNakKeepsFacts(cfg, t, e);
    SendFinKeepsFacts(cfg, t, e);
  }

  // ---------------------------------------------------------------------------------------------------------------
  // Altered data goes unnoticed
  // ---------------------------------------------------------------------------------------------------------------

  const EXAMPLE := Config(3, 3, 0, 100, 4096, 2)

  function ByteOfFile(b: byte): Event {
    FileDataPdu(Some(DataFields(0, [b])), true, true)
  }

  /** A file of the one byte 65 arrives and is found right; then the byte 66 arrives for the same place. */
  function LateData(): seq<Event> {
    [ByteOfFile(65), EofPdu(Some(EofFields(NO_ERROR, 0x4100_0000, 1))), Tick(true, 10), Tick(true, 10), ByteOfFile(66)]
  }

  function ExampleTxn(keep: bool, subState: SubState, inactivityTimer: nat, rx: RxFlags, r2: R2, crc: CrcState, b: byte): Txn {
    Txn(false, keep, false, keep, subState, NO_ERROR, 1, 0, inactivityTimer, rx, r2, Store([Chunk(0, 1)], crc, [b], 1))
  }

  lemma FirstByte()
    ensures Added([], 2, Chunk(0, 1)) == [Chunk(0, 1)]
    ensures Written([], 0, [65]) == [65]
  {
    assert Extended([], 1) == [0];
  }

  lemma SecondByte()
    ensures Added([Chunk(0, 1)], 2, Chunk(0, 1)) == [Chunk(0, 1)]
    ensures Written([65], 0, [66]) == [66]
  {
    AddedInside([Chunk(0, 1)], 2, Chunk(0, 1), 0);
  }

  lemma ExampleHasNoGap(t: Txn)
    requires t.store.chunks == [Chunk(0, 1)] && t.fsize == 1 && t.rx.mdRecv
    ensures Wf(t.store.chunks) && !HasGap(t) && !NeedsNak(t)
  {
  }

  lemma ExampleData()
    ensures var t0 := Initial(EXAMPLE, Some(1), NO_ERROR, [], true, START);
            StoreOk(EXAMPLE, t0.store)
            && Step(EXAMPLE, t0, ByteOfFile(65)).txn
               == ExampleTxn(false, FileDataState, 100, RxFlags(true, false, false, false, false, false, false, false),
                             R2(0, 0, 0, 0, Incomplete, Discarded, 0, 1), START, 65)
  {
    hide Added, Written;
    FirstByte();
  }

  lemma ExampleEof()
    ensures var t := ExampleTxn(false, FileDataState, 100, RxFlags(true, false, false, false, false, false, false, false),
                                R2(0, 0, 0, 0, Incomplete, Discarded, 0, 1), START, 65);
            StoreOk(EXAMPLE, t.store)
            && Step(EXAMPLE, t, LateData()[1]).txn
               == ExampleTxn(false, FileDataState, 100, RxFlags(true, false, true, false, true, true, true, false),
                             R2(0, 0x4100_0000, 1, 0, Incomplete, Discarded, 0, 1), START, 65)
  {
    hide HasGap;
    var t := ExampleTxn(false, FileDataState, 100, RxFlags(true, false, false, false, false, false, false, false),
                        R2(0, 0, 0, 0, Incomplete, Discarded, 0, 1), START, 65);
    ExampleHasNoGap(EofNoted(t, EofFields(NO_ERROR, 0x4100_0000, 1)));
  }

  lemma ExampleAck()
    ensures var t := ExampleTxn(false, FileDataState, 100, RxFlags(true, false, true, false, true, true, true, false),
                                R2(0, 0x4100_0000, 1, 0, Incomplete, Discarded, 0, 1), START, 65);
            StoreOk(EXAMPLE, t.store)
            && Step(EXAMPLE, t, Tick(true, 10)).txn
               == ExampleTxn(false, FileDataState, 99, RxFlags(true, false, true, false, true, false, true, false),
                             R2(0, 0x4100_0000, 1, 0, Incomplete, Discarded, 0, 1), START, 65)
  {
  }

  lemma DigestOfOneByte(b: byte)
    ensures Digested(START, [b]) == CrcState(b, 0, 1)
    ensures Finalized(CrcState(b, 0, 1)) == CrcState(0, 0x100_0000 * b, 0)
  {
    assert Digested(START, []) == START;
    assert [b][..0] == [];
    assert Wrap(b * 0x100_0000) == b * 0x100_0000;
  }

  lemma ExampleDigest()
    ensures DigestLoop(EXAMPLE, [65], 1, Digest(0, 1, 1, START), 0, 10) == (Digest(1, 1, 1, CrcState(65, 0, 1)), true)
  {
    hide Digested;
    DigestOfOneByte(65);
    assert [65 as byte][0..1] == [65];
    assert DigestLoop(EXAMPLE, [65], 1, Digest(1, 1, 1, CrcState(65, 0, 1)), 1, 9) == (Digest(1, 1, 1, CrcState(65, 0, 1)), true);
  }

  lemma ExampleCrc(t: Txn)
    requires t == ExampleTxn(false, FileDataState, 98, RxFlags(true, false, true, false, true, false, true, false),
                             R2(0, 0x4100_0000, 1, 0, Incomplete, Discarded, 0, 1), START, 65)
    ensures CalcCrcChunk(EXAMPLE, t, 10)
            == (ExampleTxn(true, FileDataState, 98, RxFlags(true, false, true, false, true, false, true, false),
                           R2(0, 0x4100_0000, 1, 0, Complete, Retained, 1, 1), CrcState(0, 0x4100_0000, 0), 65), true)
  {
    hide DigestLoop, Finalized, Digested, Checksum;
    ExampleDigest();
    DigestOfOneByte(65);
    assert DigestOf(t) == Digest(0, 1, 1, START);
  }

  lemma ExampleFin()
    ensures var t := ExampleTxn(false, FileDataState, 99, RxFlags(true, false, true, false, true, false, true, false),
                                R2(0, 0x4100_0000, 1, 0, Incomplete, Discarded, 0, 1), START, 65);
            StoreOk(EXAMPLE, t.store)
            && Step(EXAMPLE, t, Tick(true, 10)).txn
               == ExampleTxn(true, WaitForFinAck, 98, RxFlags(true, false, true, false, true, false, true, false),
                             R2(0, 0x4100_0000, 1, 1, Complete, Retained, 1, 1), CrcState(0, 0x4100_0000, 0), 65)
  {
    hide CalcCrcChunk, ConditionCode;
    ExampleCrc(ExampleTxn(false, FileDataState, 98, RxFlags(true, false, true, false, true, false, true, false),
                          R2(0, 0x4100_0000, 1, 0, Incomplete, Discarded, 0, 1), START, 65));
  }

  lemma ExampleLate()
    ensures var t := ExampleTxn(true, WaitForFinAck, 98, RxFlags(true, false, true, false, true, false, true, false),
                                R2(0, 0x4100_0000, 1, 1, Complete, Retained, 1, 1), CrcState(0, 0x4100_0000, 0), 65);
            StoreOk(EXAMPLE, t.store)
            && Step(EXAMPLE, t, ByteOfFile(66)).txn
               == ExampleTxn(true, WaitForFinAck, 100, RxFlags(true, false, true, false, true, false, true, false),
                             R2(0, 0x4100_0000, 1, 0, Complete, Retained, 1, 1), CrcState(0, 0x4100_0000, 0), 66)
  {
    hide Added, Written;
    SecondByte();
  }

  lemma ExampleFinAgain(t: Txn)
    requires t == ExampleTxn(true, WaitForFinAck, 100, RxFlags(true, false, true, false, true, false, true, false),
                             R2(0, 0x4100_0000, 1, 0, Complete, Retained, 1, 1), CrcState(0, 0x4100_0000, 0), 66)
    ensures StoreOk(EXAMPLE, t.store) && Step(EXAMPLE, t, Tick(true, 10)).sent == [FinOut(Complete, Retained, NO_ERROR)]
  {
  }

  lemma LateDataRun()
    ensures forall e :: e in LateData() ==> EventOk(e)
    ensures var t0 := Initial(EXAMPLE, Some(1), NO_ERROR, [], true, START);
            StoreOk(EXAMPLE, t0.store)
            && After(EXAMPLE, t0, LateData())
               == ExampleTxn(true, WaitForFinAck, 100, RxFlags(true, false, true, false, true, false, true, false),
                             R2(0, 0x4100_0000, 1, 0, Complete, Retained, 1, 1), CrcState(0, 0x4100_0000, 0), 66)
  {
    hide Step, StoreOk, ExampleTxn, Initial;
    ExampleData();
    ExampleEof();
    ExampleAck();
    ExampleFin();
    ExampleLate();
    var t0, es := Initial(EXAMPLE, Some(1), NO_ERROR, [], true, START), LateData();
    var t1 := Step(EXAMPLE, t0, es[0]).txn;
    var t2 := Step(EXAMPLE, t1, es[1]).txn;
    var t3 := Step(EXAMPLE, t2, es[2]).txn;
    var t4 := Step(EXAMPLE, t3, es[3]).txn;
    var t5 := Step(EXAMPLE, t4, es[4]).txn;
    assert es[1..] == [es[1], es[2], es[3], es[4]];
    assert es[1..][1..] == [es[2], es[3], es[4]];
    assert es[1..][1..][1..] == [es[3], es[4]];
    assert es[1..][1..][1..][1..] == [es[4]];
    assert After(EXAMPLE, t4, [es[4]]) == After(EXAMPLE, t5, []) == t5;
    assert After(EXAMPLE, t3, [es[3], es[4]]) == t5;
    assert After(EXAMPLE, t2, [es[2], es[3], es[4]]) == t5;
    assert After(EXAMPLE, t1, [es[1], es[2], es[3], es[4]]) == t5;
  }

  /** Data that arrives for a place already digested is written into the file, and the next FIN still says that the file is
      complete and retained without an error, although its checksum is no longer the one of the EOF. */
  lemma LateDataGoesUnnoticed()
    ensures forall e :: e in LateData() ==> EventOk(e)
    ensures StoreOk(EXAMPLE, Initial(EXAMPLE, Some(1), NO_ERROR, [], true, START).store)
    ensures var t := After(EXAMPLE, Initial(EXAMPLE, Some(1), NO_ERROR, [], true, START), LateData());
            && Step(EXAMPLE, t, Tick(true, 10)).sent == [FinOut(Complete, Retained, NO_ERROR)]
            && |t.store.file| == t.fsize && Checksum(t.store.file) != t.r2.eofCrc
  {
    hide Step, Initial, After, Checksum, LateData;
    LateDataRun();
    var t := After(EXAMPLE, Initial(EXAMPLE, Some(1), NO_ERROR, [], true, START), LateData());
    ExampleFinAgain(t);
    ChecksumInNumbers([66]);
  }
}
