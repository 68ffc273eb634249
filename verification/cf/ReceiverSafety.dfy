/**
 What a FIN without an error means: over every run of the class-2 receiver (`ReceiverSpec`), from any state a new transaction
 can be in.
 */
module ReceiverSafety {
  import opened Bytes
  import opened Options
  import opened ChunkTheory
  import opened GapTheory
  import opened FileChecksum
  import opened PduFormat
  import opened ReceiverSpec

  /** What has happened: the pieces the chunk list may know of (found in it at the start, or received since) and the bytes
      that went into the checksum. */
  datatype History = History(known: seq<Chunk>, digested: seq<byte>)

  function Slice(s: seq<byte>, from: nat, to: nat): seq<byte> {
    if from <= to <= |s| then s[from..to] else []
  }

  predicate Accepts(t: Txn, e: Event) {
    !t.freed && !IsError(t.txnStat) && Stores(t, e)
  }

  ghost function Record(cfg: Config, t: Txn, e: Event, h: History): History
    requires StoreOk(cfg, t.store) && EventOk(e)
  {
    if Accepts(t, e) then h.(known := h.known + [Chunk(e.fd.value.offset, |e.fd.value.data|)])
    else h.(digested := h.digested + Slice(t.store.file, t.r2.rxCrcCalcBytes, Step(cfg, t, e).txn.r2.rxCrcCalcBytes))
  }

  ghost function RunHistory(cfg: Config, t: Txn, h: History, events: seq<Event>): History
    requires StoreOk(cfg, t.store) && forall e :: e in events ==> EventOk(e)
    decreases |events|
  {
    if events == [] then h
    else RunHistory(cfg, Step(cfg, t, events[0]).txn, Record(cfg, t, events[0], h), events[1..])
  }

  // ---------------------------------------------------------------------------------------------------------------
  // The invariant
  // ---------------------------------------------------------------------------------------------------------------

  /** Metadata and EOF are there and agree on the size, and every byte of the file has been received. */
  ghost predicate Arrived(t: Txn, h: History) {
    t.rx.mdRecv && t.rx.eofRecv && t.r2.eofSize == t.fsize && forall x :: 0 <= x < t.fsize ==> Covers(h.known, x)
  }

  /** The checksum has been found right, and the FIN will say so. */
  ghost predicate Verified(t: Txn, h: History) {
    && |h.digested| == t.fsize && Checksum(h.digested) == t.r2.eofCrc
    && t.keep && t.r2.dc == Complete && t.r2.fs == Retained
  }

  ghost predicate InProgress(t: Txn, h: History) {
    && |h.digested| == t.r2.rxCrcCalcBytes <= t.fsize
    && (t.r2.rxCrcCalcBytes > 0 ==> t.store.crc == Digested(START, h.digested))
  }

  ghost predicate Healthy(t: Txn, h: History) {
    && !t.canceled && t.r2.cachedPos == t.store.filePos
    && (t.rx.eofRecv ==> t.r2.eofCc == NO_ERROR)
    && (t.rx.mdRecv && t.rx.eofRecv ==> t.r2.eofSize == t.fsize)
    && (t.rx.sendFin || t.crcCalc || t.subState == WaitForFinAck || t.r2.rxCrcCalcBytes > 0 ==> Arrived(t, h))
    && (t.subState == WaitForFinAck ==> t.crcCalc)
    && (if t.crcCalc then Verified(t, h) else InProgress(t, h))
  }

  ghost predicate Known(s: seq<Chunk>, known: seq<Chunk>) {
    forall x :: Covers(s, x) ==> Covers(known, x)
  }

  ghost predicate Inv(cfg: Config, t: Txn, h: History) {
    && StoreOk(cfg, t.store) && Known(t.store.chunks, h.known)
    && (!t.freed && !IsError(t.txnStat) ==> Healthy(t, h))
  }

  // ---------------------------------------------------------------------------------------------------------------
  // Every part keeps it
  // ---------------------------------------------------------------------------------------------------------------

  lemma NoGapMeansCovered(t: Txn, h: History)
    requires Wf(t.store.chunks) && Known(t.store.chunks, h.known) && !HasGap(t)
    ensures forall x :: 0 <= x < t.fsize ==> Covers(h.known, x)
  {
    if t.fsize > 0 {
      NoGapIff(t.store.chunks, t.fsize);
    }
  }

  lemma CheckCompleteKeeps(cfg: Config, t: Txn, h: History, okToSendNak: bool)
    requires Inv(cfg, t, h) && !t.freed
    ensures Inv(cfg, CheckComplete(cfg, t, okToSendNak), h) && !CheckComplete(cfg, t, okToSendNak).freed
  {
    hide Wf, Covers, Known, HasGap, Digested, Checksum;
    if !NeedsNak(t) {
      NoGapMeansCovered(t, h);
    }
  }

  lemma RecvEofKeeps(cfg: Config, t: Txn, e: Event, h: History)
    requires Inv(cfg, t, h) && !t.freed && e.EofPdu? && EventOk(e)
    ensures Inv(cfg, RecvEof(cfg, t, e), h)
  {
    hide Wf, Covers, Known, CheckComplete, Digested, Checksum;
    if !t.rx.eofRecv && e.eof.Some? && !(t.rx.mdRecv && e.eof.value.size != t.fsize) && e.eof.value.cc == NO_ERROR {
      CheckCompleteKeeps(cfg, EofNoted(t, e.eof.value), h, true);
    }
  }

  lemma RecvMetadataKeeps(cfg: Config, t: Txn, e: Event, h: History)
    requires Inv(cfg, t, h) && !t.freed && e.MetadataPdu? && EventOk(e)
    ensures Inv(cfg, RecvMetadata(cfg, t, e), h)
  {
    hide Wf, Covers, Known, CheckComplete, Digested, Checksum;
    if !t.rx.mdRecv && e.outcome.GoodMetadata? && !(t.rx.eofRecv && t.r2.eofSize != e.outcome.size) {
      CheckCompleteKeeps(cfg, MetadataNoted(t, e.outcome.size), h, true);
    }
  }

  lemma KnownGrows(cfg: Config, s: Store, cachedPos: nat, d: DataFields, known: seq<Chunk>)
    requires StoreOk(cfg, s) && Known(s.chunks, known) && d.offset + |d.data| < UINT32
    ensures Known(StoreWith(cfg, s, cachedPos, d).chunks, known + [Chunk(d.offset, |d.data|)])
  {
    var c := Chunk(d.offset, |d.data|);
    forall x | Covers(Added(s.chunks, cfg.maxChunks, c), x)
      ensures Covers(known + [c], x)
    {
      AddedCovers(s.chunks, cfg.maxChunks, c, x);
      CoversConcat(known, [c], x);
      CoversOne(c, x);
    }
  }

  lemma MoreIsKnown(known: seq<Chunk>, c: Chunk, x: int)
    ensures Covers(known, x) ==> Covers(known + [c], x)
  {
    CoversConcat(known, [c], x);
  }

  lemma ArrivedStays(t: Txn, h: History, c: Chunk)
    requires Arrived(t, h)
    ensures Arrived(t, h.(known := h.known + [c]))
  {
    forall x | 0 <= x < t.fsize
      ensures Covers(h.known + [c], x)
    {
      MoreIsKnown(h.known, c, x);
    }
  }

  lemma StoredKeeps(cfg: Config, t: Txn, d: DataFields, h: History)
    requires Inv(cfg, t, h) && !t.freed && d.offset + |d.data| < UINT32
    ensures Inv(cfg, Stored(cfg, t, d), h.(known := h.known + [Chunk(d.offset, |d.data|)]))
  {
    hide Wf, Covers, Known, Added, Written, Digested, Checksum;
    KnownGrows(cfg, t.store, t.r2.cachedPos, d, h.known);
    if Arrived(t, h) {
      ArrivedStays(t, h, Chunk(d.offset, |d.data|));
    }
  }

  lemma FdDoneKeeps(cfg: Config, t: Txn, h: History)
    requires Inv(cfg, t, h)
    ensures Inv(cfg, FdDone(cfg, t), h)
  {
    hide Wf, Covers, Known, Digested, Checksum;
  }

  lemma RecvFileDataKeeps(cfg: Config, t: Txn, e: Event, h: History)
    requires Inv(cfg, t, h) && !t.freed && !IsError(t.txnStat) && e.FileDataPdu? && EventOk(e)
    ensures Stores(t, e) ==>
              Inv(cfg, RecvFileData(cfg, t, e), h.(known := h.known + [Chunk(e.fd.value.offset, |e.fd.value.data|)]))
    ensures !Stores(t, e) ==> Inv(cfg, RecvFileData(cfg, t, e), h)
  {
    hide Wf, Covers, Known, Healthy, Stored, CheckComplete, FdDone;
    if Stores(t, e) {
      var h' := h.(known := h.known + [Chunk(e.fd.value.offset, |e.fd.value.data|)]);
      var stored := Stored(cfg, t, e.fd.value);
      StoredKeeps(cfg, t, e.fd.value, h);
      CheckCompleteKeeps(cfg, stored, h', false);
      FdDoneKeeps(cfg, if t.rx.fdNakSent then CheckComplete(cfg, stored, false) else stored, h');
    }
  }

  lemma CanceledKeeps(cfg: Config, t: Txn, h: History)
    requires Inv(cfg, t, h)
    ensures Inv(cfg, Canceled(t), h)
  {
    hide Wf, Covers, Known, Digested, Checksum;
  }

  lemma InactivityKeeps(cfg: Config, t: Txn, h: History)
    requires Inv(cfg, t, h)
    ensures Inv(cfg, InactivityTick(t), h)
  {
    hide Wf, Covers, Known, Digested, Checksum;
  }

  lemma AckTickKeeps(cfg: Config, t: Txn, h: History)
    requires Inv(cfg, t, h) && !t.freed
    ensures Inv(cfg, AckTick(cfg, t), h)
  {
    hide Wf, Covers, Known, CheckComplete, Digested, Checksum;
    if t.ackTimer == 0 && !t.rx.complete {
      CheckCompleteKeeps(cfg, t, h, true);
    }
  }

  /** Flags that only steer what is sent do not matter. */
  lemma SteeringFlags(t: Txn, rx: RxFlags, h: History)
    requires Healthy(t, h)
    requires rx.mdRecv == t.rx.mdRecv && rx.eofRecv == t.rx.eofRecv && rx.sendFin == t.rx.sendFin
    ensures Healthy(t.(rx := rx), h)
  {
    hide Covers, Digested, Checksum;
  }

  lemma NakDoneKeeps(cfg: Config, t: Txn, noGap: bool, dataRequested: bool, h: History)
    requires Inv(cfg, t, h)
    ensures var t' := NakDone(t, noGap, dataRequested);
            Inv(cfg, t', h) && t'.freed == t.freed && t'.r2 == t.r2
  {
    hide Wf, Covers, Known, Healthy;
    if Healthy(t, h) {
      SteeringFlags(t, NakDone(t, noGap, dataRequested).rx, h);
    }
  }

  lemma SendNakKeeps(cfg: Config, t: Txn, e: Event, h: History)
    requires Inv(cfg, t, h) && e.Tick?
    ensures Inv(cfg, SendNak(cfg, t, e).txn, h)
    ensures SendNak(cfg, t, e).txn.freed == t.freed && SendNak(cfg, t, e).txn.r2 == t.r2
    ensures forall p :: p in SendNak(cfg, t, e).sent ==> !p.FinOut?
  {
    hide Wf, Known, Healthy, NakGaps, NakDone;
    NakDoneKeeps(cfg, t, false, false, h);
    NakDoneKeeps(cfg, t, true, false, h);
    NakDoneKeeps(cfg, t, false, true, h);
  }

  // ---------------------------------------------------------------------------------------------------------------
  // The checksum
  // ---------------------------------------------------------------------------------------------------------------

  /** The loop digests the bytes of the file between the two positions, in order. */
  lemma {:induction false} LoopDigests(cfg: Config, file: seq<byte>, fsize: nat, d: Digest, count: nat, readsOk: nat)
    requires d.cachedPos == d.filePos && d.bytes <= fsize
    ensures var d' := DigestLoop(cfg, file, fsize, d, count, readsOk).0;
            && d.bytes <= d'.bytes <= fsize && (d'.bytes == d.bytes || d'.bytes <= |file|)
            && d'.crc == Digested(d.crc, Slice(file, d.bytes, d'.bytes)) && d'.cachedPos == d'.filePos
    decreases fsize - d.bytes
  {
    hide Digested;
    if count < cfg.crcBytesPerWakeup && d.bytes < fsize {
      var p, n := ReadPos(d), ReadSize(d, fsize);
      if readsOk > 0 && p + n <= |file| {
        var next := Digest(d.bytes + n, d.bytes + n, p + n, Digested(d.crc, file[p..p + n]));
        LoopDigests(cfg, file, fsize, next, count + n, readsOk - 1);
        var d' := DigestLoop(cfg, file, fsize, next, count + n, readsOk - 1).0;
        SliceJoins(file, d.bytes, d.bytes + n, d'.bytes);
        DigestedConcat(d.crc, file[p..p + n], Slice(file, d.bytes + n, d'.bytes));
      } else {
        DigestedNothing(d.crc, file, d.bytes);
      }
    } else {
      DigestedNothing(d.crc, file, d.bytes);
    }
  }

  lemma DigestedNothing(crc: CrcState, file: seq<byte>, from: nat)
    ensures Slice(file, from, from) == [] && Digested(crc, []) == crc
  {
  }

  lemma SliceJoins(s: seq<byte>, a: nat, b: nat, c: nat)
    requires a <= b <= |s| && (b == c || b <= c <= |s|)
    ensures Slice(s, a, c) == s[a..b] + Slice(s, b, c)
  {
  }

  lemma FinalizedGivesChecksum(s: seq<byte>)
    ensures Finalized(Digested(START, s)).result == Checksum(s)
  {
    hide Checksum, Digested, Finalized, SumOfWords, Padded;
    FinalizedIsChecksum(START, s);
    ChecksumIs(s);
    WrapAdd(SumOfWords(Padded(s)), 0);
  }

  /** Progress of the checksum keeps the invariant, for the history with the digested bytes added. */
  lemma CalcCrcKeeps(cfg: Config, t: Txn, readsOk: nat, h: History)
    requires Inv(cfg, t, h) && !t.freed && !IsError(t.txnStat) && !t.crcCalc && Arrived(t, h)
    ensures var (t', ready) := CalcCrcChunk(cfg, t, readsOk);
            var h' := h.(digested := h.digested + Slice(t.store.file, t.r2.rxCrcCalcBytes, t'.r2.rxCrcCalcBytes));
            && Inv(cfg, t', h') && t'.crcCalc == ready && !t'.freed
            && (!IsError(t'.txnStat) ==> Arrived(t', h'))
  {
    hide Wf, Covers, Known, Digested, Checksum, DigestLoop, Finalized;
    var d := DigestOf(t);
    LoopDigests(cfg, t.store.file, t.fsize, d, 0, readsOk);
    var d' := DigestLoop(cfg, t.store.file, t.fsize, d, 0, readsOk).0;
    var more := Slice(t.store.file, d.bytes, d'.bytes);
    DigestSoFar(t, h);
    DigestedConcat(START, h.digested, more);
    FinalizedGivesChecksum(h.digested + more);
    SliceLength(t.store.file, d.bytes, d'.bytes);
  }

  lemma DigestSoFar(t: Txn, h: History)
    requires InProgress(t, h)
    ensures DigestOf(t).crc == Digested(START, h.digested)
  {
  }

  lemma SliceLength(s: seq<byte>, a: nat, b: nat)
    requires a == b || a <= b <= |s|
    ensures |Slice(s, a, b)| == b - a
  {
  }

  ghost function WithDigested(t: Txn, t': Txn, h: History): History {
    h.(digested := h.digested + Slice(t.store.file, t.r2.rxCrcCalcBytes, t'.r2.rxCrcCalcBytes))
  }

  lemma NothingDigested(t: Txn, t': Txn, h: History)
    requires t.r2.rxCrcCalcBytes == t'.r2.rxCrcCalcBytes
    ensures WithDigested(t, t', h) == h
  {
    DigestedNothing(START, t.store.file, t.r2.rxCrcCalcBytes);
    assert h.digested + [] == h.digested;
  }

  /** The FIN says no error only for a file that has arrived and whose checksum is right. */
  ghost predicate FinSound(t: Txn, h: History, sent: seq<Pdu>) {
    forall p :: p in sent && p.FinOut? && p.cc == NO_ERROR ==>
      Arrived(t, h) && t.crcCalc && Verified(t, h) && p.dc == Complete && p.fs == Retained
  }

  lemma FinSentKeeps(cfg: Config, t: Txn, sent: bool, h: History)
    requires Inv(cfg, t, h) && !t.freed && (!IsError(t.txnStat) ==> t.crcCalc)
    ensures Inv(cfg, FinSent(t, sent), h)
    ensures FinSound(FinSent(t, sent), h, [FinOut(t.r2.dc, t.r2.fs, ConditionCode(t.txnStat))])
  {
    hide Wf, Covers, Known, Digested, Checksum;
  }

  lemma SendFinKeeps(cfg: Config, t: Txn, e: Event, h: History)
    requires Inv(cfg, t, h) && !t.freed && e.Tick? && t.rx.sendFin
    ensures var r := SendFin(cfg, t, e);
            && Inv(cfg, r.txn, WithDigested(t, r.txn, h)) && FinSound(r.txn, WithDigested(t, r.txn, h), r.sent)
            && !r.txn.freed
  {
    hide Wf, Covers, Known, CalcCrcChunk, FinSound, Verified, InProgress, ConditionCode;
    if !IsError(t.txnStat) && !t.crcCalc {
      var (t', ready) := CalcCrcChunk(cfg, t, e.readsOk);
      CalcCrcKeeps(cfg, t, e.readsOk, h);
      if ready {
        FinSentKeeps(cfg, t', e.bufferAvailable, WithDigested(t, t', h));
      }
    } else {
      NothingDigested(t, t, h);
      FinSentKeeps(cfg, t, e.bufferAvailable, h);
    }
    NothingIsSound(SendFin(cfg, t, e).txn, WithDigested(t, SendFin(cfg, t, e).txn, h));
  }

  lemma NothingIsSound(t: Txn, h: History)
    ensures FinSound(t, h, [])
  {
  }

  lemma NoFinIsSound(t: Txn, h: History, p: Pdu)
    requires !p.FinOut?
    ensures FinSound(t, h, [p])
  {
  }

  lemma SendTickKeeps(cfg: Config, t: Txn, e: Event, h: History)
    requires Inv(cfg, t, h) && !t.freed && e.Tick?
    ensures var r := SendTick(cfg, t, e);
            && Inv(cfg, r.txn, WithDigested(t, r.txn, h)) && FinSound(r.txn, WithDigested(t, r.txn, h), r.sent)
            && !r.txn.freed
  {
    hide Wf, Known, Healthy, SendFin, SendNak, FinSound, WithDigested;
    var r := SendTick(cfg, t, e);
    if t.rx.sendAck {
      if Healthy(t, h) {
        SteeringFlags(t, t.rx.(sendAck := false), h);
      }
      NothingDigested(t, r.txn, h);
      NothingIsSound(r.txn, h);
      NoFinIsSound(r.txn, h, EofAck(t.r2.eofCc));
    } else if t.rx.sendNak {
      SendNakKeeps(cfg, t, e, h);
      NothingDigested(t, r.txn, h);
      NoFins(r.txn, h, r.sent);
    } else if t.rx.sendFin {
      SendFinKeeps(cfg, t, e, h);
    } else {
      NothingDigested(t, t, h);
      NothingIsSound(t, h);
    }
  }

  lemma NoFins(t: Txn, h: History, sent: seq<Pdu>)
    requires forall p :: p in sent ==> !p.FinOut?
    ensures FinSound(t, h, sent)
  {
  }

  lemma SameFactsSound(t: Txn, t': Txn, h: History, sent: seq<Pdu>)
    requires SameFacts(t, t') && FinSound(t, h, sent)
    ensures FinSound(t', h, sent)
  {
    hide Covers, Checksum;
  }

  lemma TickKeeps(cfg: Config, t: Txn, e: Event, h: History)
    requires Inv(cfg, t, h) && !t.freed && e.Tick?
    ensures var r := TickResult(cfg, t, e);
            Inv(cfg, r.txn, WithDigested(t, r.txn, h)) && FinSound(r.txn, WithDigested(t, r.txn, h), r.sent)
  {
    hide Wf, Covers, Known, Healthy, InactivityTick, SendTick, AckTick, FinSound, SameFacts;
    var t1 := InactivityTick(t);
    InactivityKeeps(cfg, t, h);
    var r := SendTick(cfg, t1, e);
    SendTickKeeps(cfg, t1, e, h);
    AckTickKeeps(cfg, r.txn, WithDigested(t1, r.txn, h));
    SameFactsSound(r.txn, AckTick(cfg, r.txn), WithDigested(t1, r.txn, h), r.sent);
  }

  lemma HandledKeeps(cfg: Config, t: Txn, e: Event, h: History)
    requires Inv(cfg, t, h) && !t.freed && EventOk(e)
    ensures Accepts(t, e) ==>
              Inv(cfg, Handled(cfg, t, e), h.(known := h.known + [Chunk(e.fd.value.offset, |e.fd.value.data|)]))
    ensures !Accepts(t, e) ==> Inv(cfg, Handled(cfg, t, e), h)
  {
    hide Wf, Covers, Known, Healthy, RecvEof, RecvMetadata, RecvFileData, Stores;
    match e
    case EofPdu(_) =>
      RecvEofKeeps(cfg, t, e, h);
      NotStored(t, e);
    case MetadataPdu(_, _, _) =>
      RecvMetadataKeeps(cfg, t, e, h);
      NotStored(t, e);
    case FileDataPdu(_, _, _) =>
      if !IsError(t.txnStat) {
        RecvFileDataKeeps(cfg, t, e, h);
      }
    case AckPdu(_) =>
      NotStored(t, e);
    case _ =>
      NotStored(t, e);
  }

  lemma NotStored(t: Txn, e: Event)
    requires !e.FileDataPdu?
    ensures !Stores(t, e)
  {
  }

  lemma HeardKeeps(cfg: Config, t: Txn, h: History)
    requires Inv(cfg, t, h)
    ensures Inv(cfg, Heard(cfg, t), h)
  {
    hide Wf, Covers, Known, Checksum, Digested;
  }

  // ---------------------------------------------------------------------------------------------------------------
  // Every run
  // ---------------------------------------------------------------------------------------------------------------

  /** One event keeps the invariant, and a FIN it sends is sound. */
  lemma StepKeeps(cfg: Config, t: Txn, e: Event, h: History)
    requires Inv(cfg, t, h) && EventOk(e)
    ensures Inv(cfg, Step(cfg, t, e).txn, Record(cfg, t, e, h))
    ensures FinSound(Step(cfg, t, e).txn, Record(cfg, t, e, h), Step(cfg, t, e).sent)
  {
    hide Wf, Covers, Known, Healthy, TickResult, Canceled, Handled, Heard, FinSound, Stores;
    var r := Step(cfg, t, e);
    if t.freed {
      NothingDigested(t, r.txn, h);
      NothingIsSound(r.txn, h);
    } else {
      match e
      case Tick(_, _) =>
        NotStored(t, e);
        TickKeeps(cfg, t, e, h);
      case Cancel =>
        NotStored(t, e);
        CanceledKeeps(cfg, t, h);
        NothingDigested(t, r.txn, h);
        NothingIsSound(r.txn, h);
      case _ =>
        HandledKeeps(cfg, t, e, h);
        NothingDigested(t, r.txn, h);
        HeardKeeps(cfg, Handled(cfg, t, e), Record(cfg, t, e, h));
        NothingIsSound(r.txn, Record(cfg, t, e, h));
    }
  }

  lemma {:induction false} RunKeeps(cfg: Config, t: Txn, events: seq<Event>, h: History)
    requires Inv(cfg, t, h) && forall e :: e in events ==> EventOk(e)
    ensures Inv(cfg, After(cfg, t, events), RunHistory(cfg, t, h, events))
    decreases |events|
  {
    hide Wf, Known, Healthy, Step, Record, EventOk;
    if events != [] {
      assert events[0] in events;
      StepKeeps(cfg, t, events[0], h);
      RunKeeps(cfg, Step(cfg, t, events[0]).txn, events[1..], Record(cfg, t, events[0], h));
    }
  }

  lemma InitialInv(cfg: Config, metadata: Option<nat>, stat: int, chunks: seq<Chunk>, created: bool, crc: CrcState)
    requires cfg.Ok() && Wf(chunks) && |chunks| <= cfg.maxChunks
    ensures Inv(cfg, Initial(cfg, metadata, stat, chunks, created, crc), History(chunks, []))
  {
    hide Wf, Covers;
  }

  /**
   Success is sound: whatever happens, a FIN with no error is only sent when metadata and EOF have arrived and agree on the
   size, every byte of the file is covered by pieces received (or found in a recycled chunk list), and exactly that many
   bytes went into a checksum that equals the one of the EOF; the FIN then says that the file is complete and retained.
   */
  lemma SuccessIsSound(cfg: Config, metadata: Option<nat>, stat: int, chunks: seq<Chunk>, created: bool, crc: CrcState,
                       events: seq<Event>, e: Event)
    requires cfg.Ok() && Wf(chunks) && |chunks| <= cfg.maxChunks
    requires EventOk(e) && forall e' :: e' in events ==> EventOk(e')
    ensures var t0, h0 := Initial(cfg, metadata, stat, chunks, created, crc), History(chunks, []);
            var t, h := After(cfg, t0, events), RunHistory(cfg, t0, h0, events);
            FinSound(Step(cfg, t, e).txn, Record(cfg, t, e, h), Step(cfg, t, e).sent)
  {
    hide Wf, Known, Healthy, Initial, After, RunHistory, Step, Record, FinSound, EventOk;
    var t0, h0 := Initial(cfg, metadata, stat, chunks, created, crc), History(chunks, []);
    InitialInv(cfg, metadata, stat, chunks, created, crc);
    RunKeeps(cfg, t0, events, h0);
    StepKeeps(cfg, After(cfg, t0, events), e, RunHistory(cfg, t0, h0, events));
  }
}
