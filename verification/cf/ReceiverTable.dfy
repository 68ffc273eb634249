/**
 The class-2 receiver (`ReceiverSpec`) seen from its fields: for each of them, which events change it, when, and to
 what. The handlers say what an event does; the tables here say the same from the other side, with all codes and limits
 in numbers.
 */
module ReceiverTable {
  import opened Options
  import opened ChunkTheory
  import opened GapTheory
  import opened FileChecksum
  import opened PduFormat
  import opened NakRequests
  import opened ReceiverSpec
  import opened ReceiverSafety
  import opened ReceiverRetries
  import opened ReceiverProgress
  import opened ReceiverEvents

  // ---------------------------------------------------------------------------------------------------------------
  // PDUs and requests
  // ---------------------------------------------------------------------------------------------------------------

  /** Metadata that comes into question: the first one, while no acknowledgement is awaited. */
  predicate NewMetadata(t: Txn, e: Event) {
    e.MetadataPdu? && t.subState != WaitForFinAck && !t.rx.mdRecv && !e.outcome.ShortMetadata?
  }

  /** Metadata that is taken: its names are good, its size does not contradict the EOF, and the file is in its place. */
  predicate TakesMetadata(t: Txn, e: Event) {
    && NewMetadata(t, e) && e.outcome.GoodMetadata? && (t.rx.eofRecv ==> t.r2.eofSize == e.outcome.size)
    && e.renameOk && e.reopenOk
  }

  predicate TakesData(t: Txn, e: Event) {
    !IsError(t.txnStat) && Stores(t, e)
  }

  datatype Verdict = NotChecked | StillWaits | Asks | GivesUp | IsDone

  /** Whether completeness is checked, and with which result: something is missing or not, the EOF is there or not. */
  function Judged(missing: bool, eofRecv: bool, mayAsk: bool, count: nat, nakLimit: nat): Verdict {
    if missing then if !mayAsk then StillWaits else if count + 1 >= nakLimit then GivesUp else Asks
    else if eofRecv then IsDone
    else StillWaits
  }

  ghost predicate IsMissing(s: seq<Chunk>, mdRecv: bool, size: nat)
    requires Wf(s)
  {
    !mdRecv || ReportedGaps(s, 1, size, 0) != []
  }

  ghost function ChunksAfter(cfg: Config, t: Txn, e: Event): seq<Chunk> {
    if TakesData(t, e) then Added(t.store.chunks, cfg.maxChunks, Chunk(e.fd.value.offset, |e.fd.value.data|))
    else t.store.chunks
  }

  ghost function VerdictOn(cfg: Config, t: Txn, e: Event): Verdict
    requires StoreOk(cfg, t.store) && EventOk(e) && Wf(ChunksAfter(cfg, t, e))
  {
    if IsError(t.txnStat) then NotChecked
    else if Takes(t, e) && e.eof.value.cc == 0 then
      Judged(IsMissing(t.store.chunks, t.rx.mdRecv, t.fsize), true, true, t.r2.ackNakCount, cfg.nakLimit)
    else if TakesMetadata(t, e) then
      Judged(IsMissing(t.store.chunks, true, e.outcome.size), t.rx.eofRecv, true, 0, cfg.nakLimit)
    else if TakesData(t, e) && t.rx.fdNakSent then
      Judged(IsMissing(ChunksAfter(cfg, t, e), t.rx.mdRecv, t.fsize), t.rx.eofRecv, false, 0, cfg.nakLimit)
    else NotChecked
  }

  /** What is known of metadata and EOF. */
  predicate KnowledgeAfter(t: Txn, e: Event, t': Txn) {
    && t'.rx.mdRecv == (t.rx.mdRecv || TakesMetadata(t, e)) && t'.rx.eofRecv == (t.rx.eofRecv || Takes(t, e))
    && t'.fsize == (if NewMetadata(t, e) then e.outcome.size else t.fsize)
    && t'.r2.eofCc == (if Takes(t, e) then e.eof.value.cc else t.r2.eofCc)
    && t'.r2.eofCrc == (if Takes(t, e) then e.eof.value.crc else t.r2.eofCrc)
    && t'.r2.eofSize == (if Takes(t, e) then e.eof.value.size else t.r2.eofSize)
  }

  /** The error that an event is, in the numbers of `CF_TxnStatus_t`. */
  function ErrorOf(t: Txn, e: Event): Option<nat> {
    match e
    case EofPdu(eof) =>
      if eof.None? || t.rx.eofRecv then None
      else if !Takes(t, e) then Some(6)
      else if eof.value.cc != 0 then Some(eof.value.cc)
      else None
    case MetadataPdu(outcome, renameOk, reopenOk) =>
      if !NewMetadata(t, e) || outcome.BadNames? then None
      else if t.rx.eofRecv && t.r2.eofSize != outcome.size then Some(6)
      else if !renameOk || !reopenOk then Some(4)
      else None
    case FileDataPdu(fd, seekOk, writeOk) =>
      if fd.None? then Some(16)
      else if t.r2.cachedPos != fd.value.offset && !seekOk then Some(6)
      else if !writeOk then Some(4)
      else None
    case Cancel => if t.canceled then None else Some(15)
    case _ => None
  }

  function StatusAfter(t: Txn, e: Event, v: Verdict): int {
    if t.txnStat > 0 then t.txnStat
    else if ErrorOf(t, e).Some? then ErrorOf(t, e).value
    else if v.GivesUp? then 7
    else if v.IsDone? then 0
    else t.txnStat
  }

  /** What is to be sent, and whether the file is taken for complete. */
  predicate DutiesAfter(t: Txn, e: Event, v: Verdict, t': Txn) {
    && t'.rx.sendAck == (t.rx.sendAck || Takes(t, e)) && t'.rx.sendNak == (t.rx.sendNak || v.Asks?)
    && t'.rx.complete == (t.rx.complete || v.GivesUp? || v.IsDone?)
    && t'.rx.sendFin == (|| t.rx.sendFin || v.GivesUp? || v.IsDone?
                         || (ErrorOf(t, e).Some? && (e.MetadataPdu? || (e.EofPdu? && !Takes(t, e))))
                         || (e.Cancel? && !t.canceled && t.subState != WaitForFinAck))
    && t'.rx.inactivityFired == t.rx.inactivityFired && t'.rx.fdNakSent == t.rx.fdNakSent
  }

  function CountAfter(t: Txn, e: Event, v: Verdict): nat {
    if v.GivesUp? || TakesData(t, e) then 0
    else (if TakesMetadata(t, e) then 0 else t.r2.ackNakCount) + if v.Asks? then 1 else 0
  }

  predicate ControlAfter(cfg: Config, t: Txn, e: Event, v: Verdict, t': Txn) {
    && t'.subState == (if !v.NotChecked? || (e.EofPdu? && e.eof.None? && !t.rx.eofRecv) then FileDataState else t.subState)
    && t'.r2.ackNakCount == CountAfter(t, e, v)
    && t'.ackTimer == (if TakesData(t, e) && !t'.rx.complete then cfg.ackTicks else t.ackTimer)
    && t'.inactivityTimer == (if e.Cancel? then t.inactivityTimer else cfg.inactivityTicks)
    && t'.canceled == (t.canceled || e.Cancel?) && t'.crcCalc == t.crcCalc && t'.keep == t.keep
    && t'.r2.dc == t.r2.dc && t'.r2.fs == t.r2.fs && t'.r2.rxCrcCalcBytes == t.r2.rxCrcCalcBytes
  }

  /** The file and the position of its handle, which metadata sets back because the file is opened again. */
  ghost predicate FileAfter(cfg: Config, t: Txn, e: Event, t': Txn) {
    && t'.store.crc == t.store.crc && t'.store.chunks == ChunksAfter(cfg, t, e)
    && (if TakesData(t, e) then
          var pos := if t.r2.cachedPos == e.fd.value.offset then t.store.filePos else e.fd.value.offset;
          && t'.store.file == Written(t.store.file, pos, e.fd.value.data) && t'.store.filePos == pos + |e.fd.value.data|
          && t'.r2.cachedPos == e.fd.value.offset + |e.fd.value.data|
        else
          && t'.store.file == t.store.file
          && t'.store.filePos == (if TakesMetadata(t, e) then 0 else t.store.filePos)
          && t'.r2.cachedPos == (if TakesMetadata(t, e) then 0 else t.r2.cachedPos))
  }

  /** The whole row of an event. */
  ghost predicate Row(cfg: Config, t: Txn, e: Event, v: Verdict, t': Txn) {
    && KnowledgeAfter(t, e, t') && t'.txnStat == StatusAfter(t, e, v) && DutiesAfter(t, e, v, t')
    && ControlAfter(cfg, t, e, v, t') && FileAfter(cfg, t, e, t') && t'.freed == Ends(t, e)
  }

  // ---------------------------------------------------------------------------------------------------------------
  // The completeness check
  // ---------------------------------------------------------------------------------------------------------------

  /** What the completeness check leaves alone. */
  predicate SameKnowledge(t: Txn, t': Txn) {
    && t'.freed == t.freed && t'.fsize == t.fsize && t'.inactivityTimer == t.inactivityTimer && t'.rx.mdRecv == t.rx.mdRecv
    && t'.rx.eofRecv == t.rx.eofRecv && t'.r2.eofCrc == t.r2.eofCrc && t'.r2.eofSize == t.r2.eofSize
    && t'.rx.sendAck == t.rx.sendAck
  }

  /** What a verdict changes. */
  predicate Concluded(t: Txn, v: Verdict, t': Txn) {
    && SameKnowledge(t, t') && t'.store == t.store && t'.keep == t.keep && t'.canceled == t.canceled && t'.crcCalc == t.crcCalc
    && t'.ackTimer == t.ackTimer && t'.rx.inactivityFired == t.rx.inactivityFired && t'.rx.fdNakSent == t.rx.fdNakSent
    && t'.r2.eofCc == t.r2.eofCc && t'.r2.dc == t.r2.dc && t'.r2.fs == t.r2.fs
    && t'.r2.rxCrcCalcBytes == t.r2.rxCrcCalcBytes && t'.r2.cachedPos == t.r2.cachedPos
    && t'.subState == (if v.NotChecked? then t.subState else FileDataState)
    && t'.txnStat == (if v.GivesUp? then 7 else if v.IsDone? then 0 else t.txnStat)
    && t'.r2.ackNakCount == (if v.GivesUp? then 0 else t.r2.ackNakCount + if v.Asks? then 1 else 0)
    && t'.rx.sendNak == (t.rx.sendNak || v.Asks?) && t'.rx.sendFin == (t.rx.sendFin || v.GivesUp? || v.IsDone?)
    && t'.rx.complete == (t.rx.complete || v.GivesUp? || v.IsDone?)
  }

  lemma ConcludedLimit(t: Txn)
    requires !IsError(t.txnStat)
    ensures Concluded(t, GivesUp, NakLimitReached(t))
  {
  }

  lemma ConcludedAsks(t: Txn)
    ensures Concluded(t, Asks, NakCounted(t))
  {
  }

  lemma ConcludedDone(t: Txn)
    requires !IsError(t.txnStat)
    ensures Concluded(t, IsDone, Finished(t))
  {
  }

  lemma ConcludedWaits(t: Txn)
    ensures Concluded(t, StillWaits, t.(subState := FileDataState)) && Concluded(t, NotChecked, t)
  {
  }

  lemma CheckIs(cfg: Config, t: Txn, mayAsk: bool)
    requires Wf(t.store.chunks)
    ensures Concluded(t, if IsError(t.txnStat) then NotChecked
                         else Judged(IsMissing(t.store.chunks, t.rx.mdRecv, t.fsize), t.rx.eofRecv, mayAsk, t.r2.ackNakCount,
                                     cfg.nakLimit),
                      CheckComplete(cfg, t, mayAsk))
  {
    hide Wf, ReportedGaps, NakLimitReached, NakCounted, Finished, Concluded;
    ConcludedWaits(t);
    ConcludedAsks(t);
    if !IsError(t.txnStat) {
      ConcludedLimit(t);
      ConcludedDone(t);
    }
  }

  // ---------------------------------------------------------------------------------------------------------------
  // The rows
  // ---------------------------------------------------------------------------------------------------------------

  lemma RowOfEof(cfg: Config, t: Txn, e: Event, v: Verdict, t1: Txn)
    requires StoreOk(cfg, t.store) && Takes(t, e) && e.eof.value.cc == 0 && Concluded(EofNoted(t, e.eof.value), v, t1)
    requires IsError(t.txnStat) ==> v.NotChecked?
    ensures var t' := Heard(cfg, t1);
            && KnowledgeAfter(t, e, t') && t'.txnStat == StatusAfter(t, e, v) && DutiesAfter(t, e, v, t')
            && ControlAfter(cfg, t, e, v, t') && FileAfter(cfg, t, e, t') && t'.freed == t.freed
  {
    hide Wf;
  }

  lemma RowOfEofIgnored(cfg: Config, t: Txn, e: Event)
    requires !t.freed && e.EofPdu? && t.rx.eofRecv
    ensures Row(cfg, t, e, NotChecked, Heard(cfg, t))
  {
    hide Added, Written, IsError;
  }

  lemma RowOfNoEof(cfg: Config, t: Txn, e: Event)
    requires !t.freed && e.EofPdu? && !t.rx.eofRecv && e.eof.None?
    ensures Row(cfg, t, e, NotChecked, Heard(cfg, t.(subState := FileDataState)))
  {
    hide Added, Written, IsError;
  }

  lemma RowOfWrongSize(cfg: Config, t: Txn, e: Event)
    requires !t.freed && e.EofPdu? && !t.rx.eofRecv && e.eof.Some? && !Takes(t, e)
    ensures Row(cfg, t, e, NotChecked, Heard(cfg, WithFinStatus(t, 6)))
  {
    hide Added, Written;
  }

  lemma RowOfEofRefused(cfg: Config, t: Txn, e: Event)
    requires StoreOk(cfg, t.store) && !t.freed && e.EofPdu? && !Takes(t, e)
    ensures Row(cfg, t, e, NotChecked, Heard(cfg, RecvEof(cfg, t, e)))
  {
    hide Wf, Row, CheckComplete, Reset, WithFinStatus, Heard;
    if t.rx.eofRecv {
      RowOfEofIgnored(cfg, t, e);
    } else if e.eof.None? {
      RowOfNoEof(cfg, t, e);
    } else {
      RowOfWrongSize(cfg, t, e);
    }
  }

  lemma RowOfEofError(cfg: Config, t: Txn, e: Event)
    requires StoreOk(cfg, t.store) && !t.freed && Takes(t, e) && e.eof.value.cc != 0
    ensures Row(cfg, t, e, NotChecked, Heard(cfg, RecvEof(cfg, t, e)))
  {
    hide Wf, CheckComplete, Added, Written, Judged, IsMissing;
  }

  lemma EofRow(cfg: Config, t: Txn, e: Event)
    requires StoreOk(cfg, t.store) && EventOk(e) && !t.freed && e.EofPdu?
    ensures Row(cfg, t, e, VerdictOn(cfg, t, e), Step(cfg, t, e).txn)
  {
    if Takes(t, e) && e.eof.value.cc == 0 {
      hide Wf, KnowledgeAfter, DutiesAfter, ControlAfter, FileAfter, Concluded, IsMissing, CheckComplete, Heard;
      var t1 := EofNoted(t, e.eof.value);
      CheckIs(cfg, t1, true);
      RowOfEof(cfg, t, e, VerdictOn(cfg, t, e), CheckComplete(cfg, t1, true));
    } else {
      hide Wf, Row, RecvEof, Heard, IsMissing;
      if Takes(t, e) {
        RowOfEofError(cfg, t, e);
      } else {
        RowOfEofRefused(cfg, t, e);
      }
    }
  }

  lemma RowOfMetadata(cfg: Config, t: Txn, e: Event, v: Verdict, t1: Txn)
    requires StoreOk(cfg, t.store) && TakesMetadata(t, e) && Concluded(MetadataNoted(t, e.outcome.size), v, t1)
    requires IsError(t.txnStat) ==> v.NotChecked?
    ensures var t' := Heard(cfg, t1);
            && KnowledgeAfter(t, e, t') && t'.txnStat == StatusAfter(t, e, v) && DutiesAfter(t, e, v, t')
            && ControlAfter(cfg, t, e, v, t') && FileAfter(cfg, t, e, t') && t'.freed == t.freed
  {
    hide Wf;
  }

  lemma RowOfOldMetadata(cfg: Config, t: Txn, e: Event)
    requires StoreOk(cfg, t.store) && !t.freed && e.MetadataPdu? && (!NewMetadata(t, e) || e.outcome.BadNames?)
    ensures Row(cfg, t, e, NotChecked, Heard(cfg, if t.subState == WaitForFinAck then t else RecvMetadata(cfg, t, e)))
  {
    hide Wf, CheckComplete;
  }

  lemma RowOfFailure(cfg: Config, t: Txn, e: Event, code: nat)
    requires StoreOk(cfg, t.store) && !t.freed && NewMetadata(t, e) && !TakesMetadata(t, e)
    requires ErrorOf(t, e) == Some(code) && code > 0
    ensures var t' := Heard(cfg, WithFinStatus(t.(fsize := e.outcome.size), code));
            && KnowledgeAfter(t, e, t') && t'.txnStat == StatusAfter(t, e, NotChecked) && DutiesAfter(t, e, NotChecked, t')
            && ControlAfter(cfg, t, e, NotChecked, t') && FileAfter(cfg, t, e, t') && !t'.freed
  {
    hide Wf, TakesMetadata, ErrorOf;
  }

  lemma ErrorOfMetadata(t: Txn, e: Event)
    requires NewMetadata(t, e) && e.outcome.GoodMetadata? && !TakesMetadata(t, e)
    ensures ErrorOf(t, e) == Some(if t.rx.eofRecv && t.r2.eofSize != e.outcome.size then 6 else 4)
  {
  }

  lemma RowOfBadMetadata(cfg: Config, t: Txn, e: Event)
    requires StoreOk(cfg, t.store) && !t.freed && NewMetadata(t, e) && e.outcome.GoodMetadata? && !TakesMetadata(t, e)
    ensures Row(cfg, t, e, NotChecked, Heard(cfg, RecvMetadata(cfg, t, e)))
  {
    hide Wf, CheckComplete, KnowledgeAfter, StatusAfter, DutiesAfter, ControlAfter, FileAfter, ErrorOf, WithFinStatus, Heard;
    ErrorOfMetadata(t, e);
    RowOfFailure(cfg, t, e, if t.rx.eofRecv && t.r2.eofSize != e.outcome.size then 6 else 4);
  }

  lemma MetadataRow(cfg: Config, t: Txn, e: Event)
    requires StoreOk(cfg, t.store) && EventOk(e) && !t.freed && e.MetadataPdu?
    ensures Row(cfg, t, e, VerdictOn(cfg, t, e), Step(cfg, t, e).txn)
  {
    if TakesMetadata(t, e) {
      hide Wf, KnowledgeAfter, DutiesAfter, ControlAfter, FileAfter, Concluded, IsMissing, CheckComplete, Heard;
      var t1 := MetadataNoted(t, e.outcome.size);
      CheckIs(cfg, t1, true);
      RowOfMetadata(cfg, t, e, VerdictOn(cfg, t, e), CheckComplete(cfg, t1, true));
    } else {
      hide Wf, Row, RecvMetadata, Heard, IsMissing;
      if NewMetadata(t, e) && e.outcome.GoodMetadata? {
        RowOfBadMetadata(cfg, t, e);
      } else {
        RowOfOldMetadata(cfg, t, e);
      }
    }
  }

  lemma RowOfData(cfg: Config, t: Txn, e: Event, v: Verdict, t1: Txn)
    requires StoreOk(cfg, t.store) && EventOk(e) && TakesData(t, e) && Concluded(Stored(cfg, t, e.fd.value), v, t1)
    requires !v.Asks? && !v.GivesUp?
    ensures var t' := Heard(cfg, FdDone(cfg, t1));
            && KnowledgeAfter(t, e, t') && t'.txnStat == StatusAfter(t, e, v) && DutiesAfter(t, e, v, t')
            && ControlAfter(cfg, t, e, v, t') && FileAfter(cfg, t, e, t') && t'.freed == t.freed
  {
    hide Wf, Added, Written;
  }

  lemma RowOfLateData(cfg: Config, t: Txn, e: Event)
    requires StoreOk(cfg, t.store) && !t.freed && e.FileDataPdu? && IsError(t.txnStat)
    ensures Row(cfg, t, e, NotChecked, Heard(cfg, t))
  {
    hide Wf, Stores;
  }

  lemma RowOfLostData(cfg: Config, t: Txn, e: Event, code: nat)
    requires StoreOk(cfg, t.store) && !t.freed && e.FileDataPdu? && !IsError(t.txnStat) && !Stores(t, e)
    requires ErrorOf(t, e) == Some(code) && code > 0
    ensures var t' := Heard(cfg, t.(txnStat := code, freed := true));
            && KnowledgeAfter(t, e, t') && t'.txnStat == StatusAfter(t, e, NotChecked) && DutiesAfter(t, e, NotChecked, t')
            && ControlAfter(cfg, t, e, NotChecked, t') && FileAfter(cfg, t, e, t') && t'.freed == Ends(t, e)
  {
    hide Wf, Stores, ErrorOf;
  }

  lemma LostData(cfg: Config, t: Txn, e: Event)
    requires StoreOk(cfg, t.store) && EventOk(e) && e.FileDataPdu? && !IsError(t.txnStat) && !Stores(t, e)
    ensures ErrorOf(t, e).Some? && ErrorOf(t, e).value > 0
    ensures RecvFileData(cfg, t, e) == t.(txnStat := ErrorOf(t, e).value, freed := true)
  {
    hide Wf;
  }

  lemma DataRow(cfg: Config, t: Txn, e: Event)
    requires StoreOk(cfg, t.store) && EventOk(e) && !t.freed && e.FileDataPdu?
    ensures Wf(ChunksAfter(cfg, t, e)) && Row(cfg, t, e, VerdictOn(cfg, t, e), Step(cfg, t, e).txn)
  {
    if TakesData(t, e) {
      hide Wf, KnowledgeAfter, DutiesAfter, ControlAfter, FileAfter, Concluded, IsMissing, CheckComplete, Heard, FdDone;
      var t1 := Stored(cfg, t, e.fd.value);
      if t.rx.fdNakSent {
        CheckIs(cfg, t1, false);
        RowOfData(cfg, t, e, VerdictOn(cfg, t, e), CheckComplete(cfg, t1, false));
      } else {
        ConcludedWaits(t1);
        RowOfData(cfg, t, e, NotChecked, t1);
      }
    } else {
      hide Wf, Row, RecvFileData, Stores, Heard, IsMissing;
      if IsError(t.txnStat) {
        RowOfLateData(cfg, t, e);
      } else {
        LostData(cfg, t, e);
        RowIsLost(cfg, t, e);
      }
    }
  }

  lemma RowIsLost(cfg: Config, t: Txn, e: Event)
    requires StoreOk(cfg, t.store) && EventOk(e) && !t.freed && e.FileDataPdu? && !IsError(t.txnStat) && !Stores(t, e)
    ensures Row(cfg, t, e, NotChecked, Heard(cfg, RecvFileData(cfg, t, e)))
  {
    hide Wf, Stores, RecvFileData, KnowledgeAfter, StatusAfter, DutiesAfter, ControlAfter, FileAfter, ErrorOf, Heard, Ends;
    LostData(cfg, t, e);
    RowOfLostData(cfg, t, e, ErrorOf(t, e).value);
  }

  lemma OtherRow(cfg: Config, t: Txn, e: Event)
    requires StoreOk(cfg, t.store) && EventOk(e) && !t.freed && (e.AckPdu? || e.OtherPdu? || e.Cancel?)
    ensures Row(cfg, t, e, NotChecked, Step(cfg, t, e).txn)
  {
    hide Wf, RecvFileData, RecvMetadata, RecvEof, TickResult, IsMissing, Added, Written, Judged;
  }

  lemma ChunksStayWf(cfg: Config, t: Txn, e: Event)
    requires StoreOk(cfg, t.store) && EventOk(e)
    ensures Wf(ChunksAfter(cfg, t, e))
  {
    hide Wf, Added;
    if TakesData(t, e) {
      AddedKeepsWf(t.store.chunks, cfg.maxChunks, Chunk(e.fd.value.offset, |e.fd.value.data|));
    }
  }

  /** What every event but a tick does to every field. */
  lemma PduTable(cfg: Config, t: Txn, e: Event)
    requires StoreOk(cfg, t.store) && EventOk(e) && !t.freed && !e.Tick?
    ensures Wf(ChunksAfter(cfg, t, e)) && Row(cfg, t, e, VerdictOn(cfg, t, e), Step(cfg, t, e).txn)
    ensures Step(cfg, t, e).sent == []
  {
    hide Wf, Row, Step, IsMissing;
    ChunksStayWf(cfg, t, e);
    FreedIff(cfg, t, e);
    match e
    case EofPdu(_) => EofRow(cfg, t, e);
    case MetadataPdu(_, _, _) => MetadataRow(cfg, t, e);
    case FileDataPdu(_, _, _) => DataRow(cfg, t, e);
    case _ => OtherRow(cfg, t, e);
  }

  /** File data is stored exactly if nothing goes wrong with it. */
  lemma StoresIff(t: Txn, e: Event)
    requires e.FileDataPdu?
    ensures Stores(t, e) <==> ErrorOf(t, e).None?
  {
  }

  // ---------------------------------------------------------------------------------------------------------------
  // Ticks
  // ---------------------------------------------------------------------------------------------------------------

  /** The inactivity timer: it counts down once, and then an error is due unless there is one already. */
  lemma TimerRow(t: Txn)
    ensures var t', out := InactivityTick(t), !t.rx.inactivityFired && t.inactivityTimer == 0;
            && t'.txnStat == (if out && t.txnStat <= 0 then 8 else t.txnStat)
            && t'.rx == t.rx.(sendFin := t.rx.sendFin || out, inactivityFired := t.rx.inactivityFired || out)
            && t'.inactivityTimer == (if t.rx.inactivityFired || out then t.inactivityTimer else t.inactivityTimer - 1)
            && t'.subState == t.subState && t'.ackTimer == t.ackTimer && t'.fsize == t.fsize && t'.r2 == t.r2
            && t'.store == t.store && t'.freed == t.freed && t'.canceled == t.canceled && t'.crcCalc == t.crcCalc
            && t'.keep == t.keep
  {
  }

  datatype Turn = AckTurn | NakTurn | FinTurn | NoTurn

  function TurnOf(rx: RxFlags): Turn {
    if rx.sendAck then AckTurn else if rx.sendNak then NakTurn else if rx.sendFin then FinTurn else NoTurn
  }

  /** One thing is sent per tick: acknowledgement before NAK before FIN.  Without a buffer the first two wait. */
  lemma TurnRow(cfg: Config, t: Txn, e: Event)
    requires StoreOk(cfg, t.store) && e.Tick? && !TurnOf(t.rx).FinTurn?
    ensures var turn, gaps := TurnOf(t.rx), NakGaps(cfg, t);
            SendTick(cfg, t, e)
            == if turn.NoTurn? || !e.bufferAvailable then Result(t, [])
               else if turn.AckTurn? then Result(t.(rx := t.rx.(sendAck := false)), [EofAck(t.r2.eofCc)])
               else if !t.rx.mdRecv then
                 Result(t.(rx := t.rx.(sendNak := false)), [NakOut(Nak(0, 0, [Segment(0, 0)]))])
               else if gaps == [] then Result(t.(rx := t.rx.(sendNak := false, complete := true)), [])
               else
                 Result(t.(rx := t.rx.(sendNak := false, fdNakSent := true)),
                        [NakOut(Nak(0, 0, SegmentsFor(gaps, 0)))])
  {
    hide Wf, ReportedGaps;
  }

  /** A FIN that needs no checksum, or none any more. */
  lemma FinRow(cfg: Config, t: Txn, e: Event)
    requires StoreOk(cfg, t.store) && e.Tick? && TurnOf(t.rx).FinTurn? && (t.txnStat > 0 || t.crcCalc)
    ensures var r := SendTick(cfg, t, e);
            && r.txn == t.(subState := WaitForFinAck, rx := t.rx.(sendFin := !e.bufferAvailable))
            && r.sent == if e.bufferAvailable then [FinOut(t.r2.dc, t.r2.fs, ConditionCode(t.txnStat))] else []
  {
    hide Wf, ConditionCode;
  }

  /** A FIN that needs the checksum first, if all reads succeed: as long as the budget does not suffice nothing is sent;
      then the FIN goes out, or waits for a buffer, and says whether the file is as it should be. */
  lemma ChecksumRow(cfg: Config, t: Txn, e: Event)
    requires StoreOk(cfg, t.store) && e.Tick? && TurnOf(t.rx).FinTurn? && t.txnStat <= 0 && !t.crcCalc
    requires Digesting(t) && ReadsSucceed(cfg, e.readsOk, t.fsize)
    ensures var r, right := SendTick(cfg, t, e), Checksum(t.store.file[..t.fsize]) == t.r2.eofCrc;
            && r.txn.store.file == t.store.file && r.txn.store.chunks == t.store.chunks
            && if Remaining(t) > Rounded(cfg.crcBytesPerWakeup) then
                 && r.sent == [] && r.txn.rx == t.rx && r.txn.txnStat == t.txnStat && !r.txn.crcCalc && r.txn.keep == t.keep
                 && r.txn.subState == t.subState
                 && r.txn.r2.rxCrcCalcBytes == t.r2.rxCrcCalcBytes + Rounded(cfg.crcBytesPerWakeup)
               else
                 && r.txn.subState == WaitForFinAck && r.txn.crcCalc && r.txn.keep == (right || t.keep)
                 && r.txn.txnStat == (if right then t.txnStat else 5) && r.txn.rx == t.rx.(sendFin := !e.bufferAvailable)
                 && r.sent == if !e.bufferAvailable then []
                              else if right then [FinOut(Complete, Retained, 0)] else [FinOut(t.r2.dc, t.r2.fs, 5)]
  {
    hide Wf, CalcCrcChunk, ConditionCode, Digesting, Checksum, Rounded, ReadsSucceed, Remaining;
    CodesAre();
    NoErrorCode(t.txnStat);
    ChecksumStep(cfg, t, e.readsOk);
  }

  lemma NoErrorCode(stat: int)
    ensures stat <= 0 ==> ConditionCode(stat) == 0
  {
  }

  lemma ChecksumStep(cfg: Config, t: Txn, readsOk: nat)
    requires t.txnStat <= 0 && Digesting(t) && ReadsSucceed(cfg, readsOk, t.fsize)
    ensures var (t', ready) := CalcCrcChunk(cfg, t, readsOk);
            var right := Checksum(t.store.file[..t.fsize]) == t.r2.eofCrc;
            && ready == (Remaining(t) <= Rounded(cfg.crcBytesPerWakeup)) && t'.crcCalc == (ready || t.crcCalc)
            && t'.keep == (t.keep || (ready && right)) && t'.subState == t.subState
            && t'.txnStat == (if ready && !right then 5 else t.txnStat)
            && t'.rx == (if ready && !right then t.rx.(sendFin := true) else t.rx)
            && t'.r2.dc == (if ready && right then Complete else t.r2.dc)
            && t'.r2.fs == (if ready && right then Retained else t.r2.fs)
            && (!ready ==> t'.r2.rxCrcCalcBytes == t.r2.rxCrcCalcBytes + Rounded(cfg.crcBytesPerWakeup))
  {
    hide Digested, DigestLoop, DigestOf, Checked, WithDigest, Checksum, Rounded, ReadsSucceed, CalcCrcChunk, Finalized;
    DigestGoesOn(cfg, t, readsOk);
    CalcCrcIs(cfg, t, readsOk);
    var d := DigestLoop(cfg, t.store.file, t.fsize, DigestOf(t), 0, readsOk).0;
    FinalizedGivesChecksum(t.store.file[..t.fsize]);
    DigestRow(t, d);
    CheckedRow(WithDigest(t, d));
  }

  lemma DigestRow(t: Txn, d: Digest)
    ensures var t' := WithDigest(t, d);
            && t'.crcCalc == t.crcCalc && t'.keep == t.keep && t'.subState == t.subState
            && t'.txnStat == t.txnStat && t'.rx == t.rx && t'.r2.dc == t.r2.dc && t'.r2.fs == t.r2.fs
            && t'.r2.eofCrc == t.r2.eofCrc && t'.fsize == t.fsize
            && t'.r2.rxCrcCalcBytes == d.bytes && t'.store.crc == d.crc
  {
  }

  lemma CheckedRow(t: Txn)
    requires t.txnStat <= 0
    ensures var t', right := Checked(t), Finalized(t.store.crc).result == t.r2.eofCrc;
            && t'.crcCalc && t'.keep == (t.keep || right) && t'.subState == t.subState
            && t'.txnStat == (if right then t.txnStat else 5) && t'.rx == (if right then t.rx else t.rx.(sendFin := true))
            && t'.r2.dc == (if right then Complete else t.r2.dc) && t'.r2.fs == (if right then Retained else t.r2.fs)
  {
    hide Finalized;
  }

  /** A reset frees a transaction that waits for the acknowledgement of its FIN, has an EOF with an error, an error
      status or a cancel request; any other one it makes send a FIN. */
  lemma ResetRow(t: Txn)
    ensures Reset(t) == if t.subState == WaitForFinAck || t.r2.eofCc != 0 || t.txnStat > 0 || t.canceled then t.(freed := true)
                        else t.(rx := t.rx.(sendFin := true))
  {
  }

  /** A file that cannot be read is an error of size, which the next FIN reports. */
  lemma UnreadableRow(cfg: Config, t: Txn, e: Event)
    requires StoreOk(cfg, t.store) && e.Tick? && TurnOf(t.rx).FinTurn? && t.txnStat <= 0 && !t.crcCalc
    requires t.r2.rxCrcCalcBytes < t.fsize && 0 < cfg.crcBytesPerWakeup && e.readsOk == 0
    ensures var r := SendTick(cfg, t, e);
            r.sent == [] && r.txn.txnStat == 6 && r.txn.rx == t.rx && r.txn.subState == t.subState && !r.txn.crcCalc
  {
    hide Wf, Finalized, Digested;
  }

  /** The acknowledgement timer: what happens when it runs out depends on whether the file is taken for complete and
      whether a FIN has been sent. */
  lemma AckTimerRow(cfg: Config, t: Txn)
    requires Wf(t.store.chunks)
    ensures var t', last := AckTick(cfg, t), t.r2.ackNakCount + 1 >= cfg.ackLimit;
            if t.ackTimer > 0 then t' == t.(ackTimer := t.ackTimer - 1)
            else if !t.rx.complete then
              && t'.ackTimer == cfg.ackTicks
              && Concluded(t.(ackTimer := cfg.ackTicks),
                           if t.txnStat > 0 then NotChecked
                           else Judged(IsMissing(t.store.chunks, t.rx.mdRecv, t.fsize), t.rx.eofRecv, true, t.r2.ackNakCount,
                                       cfg.nakLimit),
                           t')
            else if t.subState != WaitForFinAck then t' == t.(ackTimer := cfg.ackTicks)
            else
              && t'.r2 == t.r2.(ackNakCount := t.r2.ackNakCount + 1) && t'.store == t.store && t'.subState == t.subState
              && t'.freed == (t.freed || last) && t'.txnStat == (if last && t.txnStat <= 0 then 17 else t.txnStat)
              && t'.rx == (if last then t.rx else t.rx.(sendFin := true))
              && t'.ackTimer == if last then 0 else cfg.ackTicks
  {
    hide Wf, ReportedGaps, CheckComplete, Concluded;
    if t.ackTimer == 0 && !t.rx.complete {
      CheckIs(cfg, t, true);
      ConcludedLater(cfg, t, if t.txnStat > 0 then NotChecked
                             else Judged(IsMissing(t.store.chunks, t.rx.mdRecv, t.fsize), t.rx.eofRecv, true, t.r2.ackNakCount,
                                         cfg.nakLimit), CheckComplete(cfg, t, true));
    }
  }

  lemma ConcludedLater(cfg: Config, t: Txn, v: Verdict, t': Txn)
    requires Concluded(t, v, t')
    ensures Concluded(t.(ackTimer := cfg.ackTicks), v, t'.(ackTimer := cfg.ackTicks))
  {
  }

  /** A tick is the three of them, one after the other. */
  lemma TickTable(cfg: Config, t: Txn, e: Event)
    requires StoreOk(cfg, t.store) && EventOk(e) && !t.freed && e.Tick?
    ensures var r := SendTick(cfg, InactivityTick(t), e);
            Step(cfg, t, e) == Result(AckTick(cfg, r.txn), r.sent) && |r.sent| <= 1
  {
    hide Wf, InactivityTick, AckTick, NakGaps, CalcCrcChunk, ConditionCode;
    TickIs(cfg, t, e);
  }

  /** How a transaction starts: with metadata or without, on what is left of the history and the chunk list it gets. */
  lemma InitialRow(cfg: Config, metadata: Option<nat>, stat: int, chunks: seq<Chunk>, created: bool, crc: CrcState)
    ensures var t := Initial(cfg, metadata, stat, chunks, created, crc);
            && !t.freed && !t.keep && !t.canceled && !t.crcCalc && t.subState == FileDataState
            && t.txnStat == (if created || stat > 0 then stat else 4) && t.fsize == (if metadata.Some? then metadata.value else 0)
            && t.ackTimer == cfg.ackTicks && t.inactivityTimer == cfg.inactivityTicks
            && t.rx.mdRecv == metadata.Some? && t.rx.sendFin == !created && !t.rx.eofRecv && !t.rx.sendNak && !t.rx.sendAck
            && !t.rx.complete && !t.rx.fdNakSent && !t.rx.inactivityFired
            && t.r2.eofCc == 0 && t.r2.ackNakCount == 0 && t.r2.dc == Incomplete && t.r2.fs == Discarded
            && t.r2.rxCrcCalcBytes == 0 && t.r2.cachedPos == 0
            && t.store.chunks == chunks && t.store.crc == crc && t.store.file == [] && t.store.filePos == 0
  {
  }

  // ---------------------------------------------------------------------------------------------------------------
  // What is told the sender
  // ---------------------------------------------------------------------------------------------------------------

  lemma FreedIsStill(cfg: Config, t: Txn, e: Event)
    requires StoreOk(cfg, t.store) && t.freed && EventOk(e)
    ensures Step(cfg, t, e) == Result(t, [])
  {
  }

  /** The acknowledgement of the EOF goes first, and carries its condition code: no error.  An EOF with an error is never
      acknowledged, because it frees the transaction. */
  lemma EofIsAcknowledgedIff(cfg: Config, t: Txn, e: Event, tick: Event)
    requires StoreOk(cfg, t.store) && !t.freed && EventOk(e) && Takes(t, e)
    requires tick.Tick? && tick.bufferAvailable
    ensures EventOk(tick)
    ensures Step(cfg, Step(cfg, t, e).txn, tick).sent == if e.eof.value.cc == 0 then [EofAck(e.eof.value.cc)] else []
  {
    hide Wf, Step, SendTick, InactivityTick, AckTick, NakGaps, VerdictOn, StatusAfter, ControlAfter, FileAfter;
    PduTable(cfg, t, e);
    var t1 := Step(cfg, t, e).txn;
    if t1.freed {
      FreedIsStill(cfg, t1, tick);
    } else {
      TickTable(cfg, t1, tick);
      TimerRow(t1);
      TurnRow(cfg, InactivityTick(t1), tick);
    }
  }

  /** A FIN that reports an error needs one tick, if nothing else is to be sent first. */
  lemma ErrorIsSent(cfg: Config, t: Txn, tick: Event)
    requires StoreOk(cfg, t.store) && !t.freed && t.txnStat > 0 && TurnOf(t.rx).FinTurn?
    requires tick.Tick? && tick.bufferAvailable && EventOk(tick)
    ensures Step(cfg, t, tick).sent == [FinOut(t.r2.dc, t.r2.fs, ConditionCode(t.txnStat))]
  {
    hide Wf, Step, SendTick, InactivityTick, AckTick, ConditionCode;
    TickTable(cfg, t, tick);
    TimerRow(t);
    FinRow(cfg, InactivityTick(t), tick);
  }

  /** Sizes that contradict each other, metadata whose file cannot be put in its place, and a cancel request are reported as such,
      unless the transaction is over. */
  lemma FailureIsReported(cfg: Config, t: Txn, e: Event, tick: Event)
    requires StoreOk(cfg, t.store) && EventOk(e) && !t.freed && t.txnStat <= 0 && ErrorOf(t, e).Some? && !Ends(t, e)
    requires !t.rx.sendAck && !t.rx.sendNak && tick.Tick? && tick.bufferAvailable && EventOk(tick)
    ensures ErrorOf(t, e).value in {4, 6, 15}
    ensures Step(cfg, Step(cfg, t, e).txn, tick).sent == [FinOut(t.r2.dc, t.r2.fs, ErrorOf(t, e).value)]
  {
    hide Wf, Step, ConditionCode, KnowledgeAfter, FileAfter, IsMissing, Judged;
    PduTable(cfg, t, e);
    CodesAre();
    ErrorIsSent(cfg, Step(cfg, t, e).txn, tick);
  }

  /** A file that cannot be created is reported on the first tick, as an incomplete, discarded file. */
  lemma NoFileIsReported(cfg: Config, metadata: Option<nat>, stat: int, chunks: seq<Chunk>, crc: CrcState, tick: Event)
    requires cfg.Ok() && Wf(chunks) && |chunks| <= cfg.maxChunks && stat <= 0
    requires tick.Tick? && tick.bufferAvailable && EventOk(tick)
    ensures var t := Initial(cfg, metadata, stat, chunks, false, crc);
            StoreOk(cfg, t.store) && Step(cfg, t, tick).sent == [FinOut(Incomplete, Discarded, 4)]
  {
    hide Wf, Step, Initial, ConditionCode;
    InitialRow(cfg, metadata, stat, chunks, false, crc);
    CodesAre();
    ErrorIsSent(cfg, Initial(cfg, metadata, stat, chunks, false, crc), tick);
  }

  /** A wrong checksum is reported by the wakeup that finishes it. */
  lemma WrongChecksumIsReported(cfg: Config, t: Txn, tick: Event)
    requires StoreOk(cfg, t.store) && !t.freed && t.txnStat <= 0 && TurnOf(t.rx).FinTurn? && !t.crcCalc
    requires Digesting(t) && Checksum(t.store.file[..t.fsize]) != t.r2.eofCrc && Remaining(t) <= Rounded(cfg.crcBytesPerWakeup)
    requires tick.Tick? && tick.bufferAvailable && ReadsSucceed(cfg, tick.readsOk, t.fsize) && EventOk(tick) && Patient(t, 1)
    ensures Step(cfg, t, tick).sent == [FinOut(t.r2.dc, t.r2.fs, 5)]
  {
    hide Wf, Step, SendTick, InactivityTick, AckTick, Digesting, Checksum, Rounded, ReadsSucceed;
    var t0 := InactivityTick(t);
    TickTable(cfg, t, tick);
    TimerRow(t);
    DigestingStays(t, t0);
    ChecksumRow(cfg, t0, tick);
  }

  lemma DigestingStays(t: Txn, t': Txn)
    requires Digesting(t) && t'.store == t.store && t'.r2 == t.r2 && t'.fsize == t.fsize
    ensures Digesting(t')
  {
    hide Digested;
  }
}
