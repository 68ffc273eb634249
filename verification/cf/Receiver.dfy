/**
 The class-2 receiver as the code has it (`cf_cfdp_r.c`): handlers that update the transaction, its chunk list, its checksum
 and its file in place.  Every handler is proved to do what `ReceiverSpec` says, so what is proved there about runs holds here.
 */
module Receiver {
  import opened Bytes
  import opened Options
  import opened ChunkTheory
  import opened GapTheory
  import opened ChunkList
  import opened FileChecksum
  import opened PduFormat
  import opened NakRequests
  import opened ReceiverSpec

  /** The limit status survives the one that finishing would set. */
  lemma LimitThenFinish(t: Txn)
    ensures Finished(WithStatus(t, NAK_LIMIT_REACHED).(r2 := t.r2.(ackNakCount := 0))) == NakLimitReached(t)
    ensures Finished(WithStatus(t, NAK_LIMIT_REACHED).(r2 := t.r2.(ackNakCount := 0))).subState == FileDataState
    ensures Finished(t).subState == FileDataState
  {
  }

  lemma CountedWaits(t: Txn)
    ensures NakCounted(t).subState == FileDataState
  {
  }

  class Transaction {
    const cfg: Config
    const chunks: ChunkList
    const crc: Crc
    var freed: bool
    var keep: bool
    var canceled: bool
    var crcCalc: bool
    var subState: SubState
    var txnStat: int
    var fsize: nat
    var ackTimer: nat
    var inactivityTimer: nat
    var rx: RxFlags
    var r2: R2
    var file: seq<byte>
    var filePos: nat

    ghost predicate Valid()
      reads this, chunks, chunks.chunks, crc
    {
      cfg.Ok() && chunks.Valid() && chunks.maxChunks == cfg.maxChunks && crc.Valid() && fsize < UINT32
    }

    ghost function Abs(): Txn
      reads this, chunks, chunks.chunks, crc
      requires Valid()
    {
      Txn(freed, keep, canceled, crcCalc, subState, txnStat, fsize, ackTimer, inactivityTimer, rx, r2,
          Store(chunks.Contents(), crc.State(), file, filePos))
    }

    /** `CF_CFDP_R_Init` on a transaction that `CF_CFDP_RecvIdle` has bound to a PDU. */
    constructor (cfg: Config, chunks: ChunkList, crc: Crc, metadata: Option<nat>, stat: int, created: bool)
      requires cfg.Ok() && chunks.Valid() && chunks.maxChunks == cfg.maxChunks && crc.Valid()
      requires metadata.Some? ==> metadata.value < UINT32
      ensures Valid() && this.cfg == cfg && this.chunks == chunks && this.crc == crc
      ensures Abs() == Initial(cfg, metadata, stat, old(chunks.Contents()), created, old(crc.State()))
    {
      this.cfg, this.chunks, this.crc := cfg, chunks, crc;
      freed, keep, canceled, crcCalc, subState := false, false, false, false, FileDataState;
      fsize := if metadata.Some? then metadata.value else 0;
      ackTimer, inactivityTimer := cfg.ackTicks, cfg.inactivityTicks;
      r2 := R2(NO_ERROR, 0, 0, 0, Incomplete, Discarded, 0, 0);
      rx := RxFlags(metadata.Some?, false, false, false, false, false, false, false);
      txnStat, file, filePos := stat, [], 0;
      new;
      if !created {
        SetFinTxnStatus(FILESTORE_REJECTION);
      }
    }

    /** `CF_CFDP_SetTxnStatus`. */
    method SetTxnStatus(stat: int)
      requires Valid()
      modifies this`txnStat
      ensures Valid() && txnStat == NewStatus(old(txnStat), stat) && Abs() == WithStatus(old(Abs()), stat)
    {
      if !IsError(txnStat) {
        txnStat := stat;
      }
    }

    /** `CF_CFDP_R2_SetFinTxnStatus`. */
    method SetFinTxnStatus(stat: int)
      requires Valid()
      modifies this`txnStat, this`rx
      ensures Valid() && txnStat == NewStatus(old(txnStat), stat) && rx == old(rx).(sendFin := true)
      ensures Abs() == WithFinStatus(old(Abs()), stat)
    {
      SetTxnStatus(stat);
      rx := rx.(sendFin := true);
    }

    /** `CF_CFDP_ArmAckTimer`. */
    method ArmAckTimer()
      requires Valid()
      modifies this`ackTimer
      ensures Valid() && ackTimer == cfg.ackTicks
    {
      ackTimer := cfg.ackTicks;
    }

    /** `CF_CFDP_R2_Reset`. */
    method R2Reset()
      requires Valid()
      modifies this`freed, this`rx
      ensures Valid() && Abs() == Reset(old(Abs()))
    {
      if subState == WaitForFinAck || r2.eofCc != NO_ERROR || IsError(txnStat) || canceled {
        freed := true;
      } else {
        rx := rx.(sendFin := true);
      }
    }

    /** The part of `CF_CFDP_R2_Complete` that counts a NAK. */
    method CountNak() returns (limitReached: bool)
      requires Valid()
      modifies this`txnStat, this`rx, this`r2
      ensures Valid() && limitReached == (old(r2.ackNakCount) + 1 >= cfg.nakLimit)
      ensures limitReached ==> Abs() == WithStatus(old(Abs()), NAK_LIMIT_REACHED).(r2 := old(r2).(ackNakCount := 0))
      ensures !limitReached ==> Abs() == NakCounted(old(Abs())).(subState := old(subState))
    {
      hide Wf;
      r2 := r2.(ackNakCount := r2.ackNakCount + 1);
      limitReached := r2.ackNakCount >= cfg.nakLimit;
      if limitReached {
        SetTxnStatus(NAK_LIMIT_REACHED);
        r2 := r2.(ackNakCount := 0);
      } else {
        rx := rx.(sendNak := true);
      }
    }

    /** The part of `CF_CFDP_R2_Complete` that makes a FIN due. */
    method Finish()
      requires Valid()
      modifies this`txnStat, this`rx
      ensures Valid() && Abs() == Finished(old(Abs())).(subState := old(subState))
    {
      hide Wf;
      rx := rx.(complete := true);
      SetFinTxnStatus(NO_ERROR);
    }

    /** The second half of `CF_CFDP_R2_Complete`: count a NAK, or finish. */
    method CountOrFinish(sendNak: bool, isDone: bool)
      requires Valid() && !(sendNak && isDone)
      modifies this`txnStat, this`rx, this`r2, this`subState
      ensures Valid()
      ensures Abs() == if sendNak then
                         if old(r2.ackNakCount) + 1 >= cfg.nakLimit then NakLimitReached(old(Abs())) else NakCounted(old(Abs()))
                       else if isDone then Finished(old(Abs()))
                       else old(Abs()).(subState := FileDataState)
    {
      hide Wf, WithStatus, Finished, NakCounted, NakLimitReached;
      ghost var t0 := Abs();
      LimitThenFinish(t0);
      CountedWaits(t0);
      var sendFin := isDone;
      if sendNak {
        sendFin := CountNak();
      }
      if sendFin {
        Finish();
      }
      subState := FileDataState;
    }

    /** `CF_CFDP_R2_Complete`. */
    method R2Complete(okToSendNak: bool)
      requires Valid()
      modifies this`txnStat, this`rx, this`r2, this`subState
      ensures Valid() && Abs() == CheckComplete(cfg, old(Abs()), okToSendNak)
    {
      hide Wf, ReportedGaps, NakLimitReached, NakCounted, Finished;
      ghost var t0 := Abs();
      var sendNak, sendFin := false, false;
      if !IsError(txnStat) {
        if !rx.mdRecv {
          sendNak := true;
        } else {
          var ret, gaps := chunks.ComputeGaps(1, fsize, 0);
          assert HasGap(t0) == (ret != 0);
          if ret != 0 {
            sendNak := true;
          } else if rx.eofRecv {
            sendFin := true;
          }
        }
        CountOrFinish(sendNak && okToSendNak, sendFin);
      }
    }

    /** `CF_CFDP_R_ProcessFd`: seeks unless the file is already at the offset, and writes. */
    method ProcessFd(fd: DataFields, seekOk: bool, writeOk: bool) returns (ok: bool)
      requires Valid()
      modifies this`txnStat, this`filePos, this`file, this`r2
      ensures Valid() && ok == ((old(r2.cachedPos) == fd.offset || seekOk) && writeOk)
      ensures ok ==>
        var pos := if old(r2.cachedPos) == fd.offset then old(filePos) else fd.offset;
        && file == Written(old(file), pos, fd.data) && filePos == pos + |fd.data|
        && r2 == old(r2).(cachedPos := fd.offset + |fd.data|) && txnStat == old(txnStat)
      ensures !ok ==>
        Abs() == WithStatus(old(Abs()), if old(r2.cachedPos) != fd.offset && !seekOk then FILE_SIZE_ERROR
                                        else FILESTORE_REJECTION)
    {
      hide Written;
      ok := true;
      var pos := filePos;
      if r2.cachedPos != fd.offset {
        if seekOk {
          pos := fd.offset;
        } else {
          SetTxnStatus(FILE_SIZE_ERROR);
          ok := false;
        }
      }
      if ok {
        if writeOk {
          file := Written(file, pos, fd.data);
          filePos := pos + |fd.data|;
          r2 := r2.(cachedPos := |fd.data| + fd.offset);
        } else {
          SetTxnStatus(FILESTORE_REJECTION);
          ok := false;
        }
      }
    }

    /** The end of `CF_CFDP_R2_SubstateRecvFileData`, after the data has been stored and recorded. */
    method FileDataDone()
      requires Valid()
      modifies this
      ensures Valid()
      ensures var t := old(Abs()); Abs() == FdDone(cfg, if t.rx.fdNakSent then CheckComplete(cfg, t, false) else t)
    {
      hide Wf, CheckComplete;
      if rx.fdNakSent {
        R2Complete(false);
      }
      if !rx.complete {
        ArmAckTimer();
      }
      r2 := r2.(ackNakCount := 0);
    }

    /** `CF_CFDP_R2_SubstateRecvFileData`. */
    method SubstateRecvFileData(e: Event)
      requires Valid() && e.FileDataPdu? && EventOk(e)
      modifies this, chunks, chunks.chunks
      ensures Valid() && Abs() == RecvFileData(cfg, old(Abs()), e)
    {
      hide Wf, Written, Added, CheckComplete, WithStatus, Reset;
      ghost var t0 := Abs();
      var ok := e.fd.Some?;
      if ok {
        ok := ProcessFd(e.fd.value, e.seekOk, e.writeOk);
      } else {
        SetTxnStatus(PROTOCOL_ERROR);
      }
      if ok {
        chunks.Add(e.fd.value.offset, |e.fd.value.data|);
        assert Abs() == Stored(cfg, t0, e.fd.value);
        hide Stored, FdDone;
        FileDataDone();
      } else {
        R2Reset();
      }
    }

    /** The part of `CF_CFDP_R2_SubstateRecvEof` for an EOF of the right size. */
    method AcceptEof(eof: EofFields)
      requires Valid()
      modifies this
      ensures Valid()
      ensures var t := EofNoted(old(Abs()), eof);
              Abs() == if eof.cc == NO_ERROR then CheckComplete(cfg, t, true) else Reset(WithStatus(t, eof.cc))
    {
      hide Wf, CheckComplete, WithStatus, Reset;
      ghost var t0 := Abs();
      rx := rx.(eofRecv := true);
      r2 := r2.(eofCrc := eof.crc, eofSize := eof.size, eofCc := eof.cc);
      rx := rx.(sendAck := true);
      assert Abs() == EofNoted(t0, eof);
      hide EofNoted;
      if r2.eofCc == NO_ERROR {
        R2Complete(true);
      } else {
        SetTxnStatus(r2.eofCc);
        R2Reset();
      }
    }

    /** `CF_CFDP_R2_SubstateRecvEof`. */
    method SubstateRecvEof(e: Event)
      requires Valid() && e.EofPdu? && EventOk(e)
      modifies this
      ensures Valid() && Abs() == RecvEof(cfg, old(Abs()), e)
    {
      hide Wf, CheckComplete, WithStatus, WithFinStatus, Reset, EofNoted;
      if !rx.eofRecv {
        if e.eof.Some? {
          var eof := e.eof.value;
          if rx.mdRecv && eof.size != fsize {
            SetFinTxnStatus(FILE_SIZE_ERROR);
          } else {
            AcceptEof(eof);
          }
        } else {
          subState := FileDataState;
        }
      }
    }

    /** `CF_CFDP_R2_RecvMd`. */
    method RecvMd(e: Event)
      requires Valid() && e.MetadataPdu? && EventOk(e)
      modifies this
      ensures Valid() && Abs() == RecvMetadata(cfg, old(Abs()), e)
    {
      hide Wf, CheckComplete, WithFinStatus;
      ghost var t0 := Abs();
      if !rx.mdRecv {
        if !e.outcome.ShortMetadata? {
          fsize := e.outcome.size;
        }
        if e.outcome.GoodMetadata? {
          var success := true;
          if rx.eofRecv && r2.eofSize != fsize {
            SetFinTxnStatus(FILE_SIZE_ERROR);
            success := false;
          }
          if success {
            if !e.renameOk || !e.reopenOk {
              SetFinTxnStatus(FILESTORE_REJECTION);
            } else {
              filePos := 0;
              r2 := r2.(cachedPos := 0);
              rx := rx.(mdRecv := true);
              r2 := r2.(ackNakCount := 0);
              assert Abs() == MetadataNoted(t0, e.outcome.size);
              hide MetadataNoted;
              R2Complete(true);
            }
          }
        }
      }
    }

    /** `CF_CFDP_R2_Recv` through the dispatch tables, and the restart of the inactivity timer in `CF_CFDP_DispatchRecv`. */
    method Recv(e: Event)
      requires Valid() && EventOk(e) && !e.Tick? && !e.Cancel? && !freed
      modifies this, chunks, chunks.chunks
      ensures Valid() && Abs() == Heard(cfg, Handled(cfg, old(Abs()), e))
    {
      hide Wf, RecvEof, RecvMetadata, RecvFileData;
      match e {
        case EofPdu(_) => SubstateRecvEof(e);
        case MetadataPdu(_, _, _) =>
          if subState != WaitForFinAck {
            RecvMd(e);
          }
        case AckPdu(ok) =>
          if subState == WaitForFinAck && ok {
            R2Reset();
          }
        case FileDataPdu(_, _, _) =>
          if !IsError(txnStat) {
            SubstateRecvFileData(e);
          }
        case _ =>
      }
      inactivityTimer := cfg.inactivityTicks;
    }

    /** The loop of `CF_CFDP_R2_CalcCrcChunk`: reads of up to 1024 bytes until the budget of the wakeup is used up or the file
        is done. */
    method DigestChunks(readsOk: nat) returns (success: bool)
      requires Valid()
      modifies this`r2, this`filePos, crc
      ensures Valid() && (Now(), success) == DigestLoop(cfg, file, fsize, old(Now()), 0, readsOk)
      ensures r2 == old(r2).(rxCrcCalcBytes := r2.rxCrcCalcBytes, cachedPos := r2.cachedPos)
    {
      hide Wf, Digested;
      success := true;
      var countBytes, readCount := 0, 0;
      ghost var whole := DigestLoop(cfg, file, fsize, Now(), 0, readsOk);
      while countBytes < cfg.crcBytesPerWakeup && r2.rxCrcCalcBytes < fsize
        invariant Valid() && readCount <= readsOk && 0 <= countBytes
        invariant whole == DigestLoop(cfg, file, fsize, Now(), countBytes, readsOk - readCount)
        invariant r2 == old(r2).(rxCrcCalcBytes := r2.rxCrcCalcBytes, cachedPos := r2.cachedPos)
        modifies this`r2, this`filePos, crc
        decreases fsize - r2.rxCrcCalcBytes
      {
        var readSize := if r2.rxCrcCalcBytes + CRC_CHUNK_SIZE > fsize then fsize - r2.rxCrcCalcBytes else CRC_CHUNK_SIZE;
        var pos := filePos;
        if r2.cachedPos != r2.rxCrcCalcBytes {
          pos := r2.rxCrcCalcBytes;
        }
        if readCount == readsOk || pos + readSize > |file| {
          success := false;
          break;
        }
        crc.Digest(file[pos..pos + readSize]);
        filePos := pos + readSize;
        r2 := r2.(rxCrcCalcBytes := r2.rxCrcCalcBytes + readSize);
        r2 := r2.(cachedPos := r2.rxCrcCalcBytes);
        countBytes := countBytes + readSize;
        readCount := readCount + 1;
      }
    }

    /** The comparison at the end of `CF_CFDP_R2_CalcCrcChunk`. */
    method CompareCrc()
      requires Valid()
      modifies this`r2, this`txnStat, this`rx, this`keep, this`crcCalc, crc
      ensures Valid() && Abs() == Checked(old(Abs()))
    {
      hide Wf, Finalized;
      crc.Finalize();
      if crc.result == r2.eofCrc {
        keep := true;
        r2 := r2.(dc := Complete, fs := Retained);
      } else {
        SetFinTxnStatus(FILE_CHECKSUM_FAILURE);
      }
      crcCalc := true;
    }

    /** `CF_CFDP_R2_CalcCrcChunk`. */
    method CalcCrcChunk(readsOk: nat) returns (done: bool)
      requires Valid()
      modifies this`r2, this`filePos, this`txnStat, this`rx, this`keep, this`crcCalc, crc
      ensures Valid() && (Abs(), done) == ReceiverSpec.CalcCrcChunk(cfg, old(Abs()), readsOk)
    {
      hide Wf, Digested, DigestLoop, Checked;
      ghost var t0 := Abs();
      if r2.rxCrcCalcBytes == 0 {
        crc.Start();
      }
      assert Now() == DigestOf(t0);
      var success := DigestChunks(readsOk);
      ghost var t1 := Abs();
      assert t1 == WithDigest(t0, Now());
      done := false;
      if !success {
        SetTxnStatus(FILE_SIZE_ERROR);
      } else if r2.rxCrcCalcBytes == fsize {
        CompareCrc();
        done := true;
      }
    }

    ghost function Now(): Digest
      reads this, crc
    {
      Digest(r2.rxCrcCalcBytes, r2.cachedPos, filePos, crc.State())
    }

    /** `CF_CFDP_R2_SubstateSendFin`. */
    method SubstateSendFin(e: Event) returns (sent: seq<Pdu>)
      requires Valid() && e.Tick?
      modifies this, crc
      ensures Valid() && Result(Abs(), sent) == SendFin(cfg, old(Abs()), e)
    {
      hide Wf, ReceiverSpec.CalcCrcChunk, ConditionCode;
      var ready := true;
      sent := [];
      if !IsError(txnStat) && !crcCalc {
        ready := CalcCrcChunk(e.readsOk);
      }
      if ready {
        if e.bufferAvailable {
          sent := [FinOut(r2.dc, r2.fs, ConditionCode(txnStat))];
          rx := rx.(sendFin := false);
        }
        subState := WaitForFinAck;
      }
    }

    /** `CF_CFDP_R_SubstateSendNak`. */
    method SubstateSendNak(e: Event) returns (sent: seq<Pdu>)
      requires Valid() && e.Tick?
      modifies this
      ensures Valid() && Result(Abs(), sent) == SendNak(cfg, old(Abs()), e)
    {
      hide Wf, NakFor;
      ghost var t0 := Abs();
      sent := [];
      if e.bufferAvailable {
        if rx.mdRecv {
          var gapCount, nak := BuildNak(chunks, fsize);
          if gapCount == 0 {
            rx := rx.(complete := true);
          } else {
            sent := [NakOut(nak)];
            rx := rx.(fdNakSent := true);
          }
        } else {
          sent := [NakOut(Nak(0, 0, [Segment(0, 0)]))];
        }
        rx := rx.(sendNak := false);
        assert Abs() == NakDone(t0, t0.rx.mdRecv && sent == [], t0.rx.mdRecv && sent != []);
      }
    }

    /** The inactivity part of `CF_CFDP_R_Tick`. */
    method TickInactivity()
      requires Valid()
      modifies this
      ensures Valid() && Abs() == InactivityTick(old(Abs()))
    {
      if !rx.inactivityFired {
        if inactivityTimer == 0 {
          SetFinTxnStatus(INACTIVITY_DETECTED);
          rx := rx.(inactivityFired := true);
        } else {
          inactivityTimer := inactivityTimer - 1;
        }
      }
    }

    /** The sending part of `CF_CFDP_R_Tick`. */
    method TickSend(e: Event) returns (sent: seq<Pdu>)
      requires Valid() && e.Tick?
      modifies this, crc
      ensures Valid() && Result(Abs(), sent) == SendTick(cfg, old(Abs()), e)
    {
      hide Wf, SendNak, SendFin;
      sent := [];
      if rx.sendAck {
        if e.bufferAvailable {
          sent := [EofAck(r2.eofCc)];
          rx := rx.(sendAck := false);
        }
      } else if rx.sendNak {
        sent := SubstateSendNak(e);
      } else if rx.sendFin {
        sent := SubstateSendFin(e);
      }
    }

    /** The acknowledgement-timer part of `CF_CFDP_R_Tick`. */
    method TickAck()
      requires Valid()
      modifies this
      ensures Valid() && Abs() == AckTick(cfg, old(Abs()))
    {
      hide Wf, CheckComplete;
      var success := true;
      if ackTimer == 0 {
        if !rx.complete {
          R2Complete(true);
        } else if subState == WaitForFinAck {
          r2 := r2.(ackNakCount := r2.ackNakCount + 1);
          if r2.ackNakCount >= cfg.ackLimit {
            SetTxnStatus(ACK_LIMIT_NO_FIN);
            R2Reset();
            success := false;
          } else {
            rx := rx.(sendFin := true);
          }
        }
        if success {
          ArmAckTimer();
        }
      } else {
        ackTimer := ackTimer - 1;
      }
    }

    /** `CF_CFDP_R_Tick`. */
    method DoTick(e: Event) returns (sent: seq<Pdu>)
      requires Valid() && e.Tick? && !freed
      modifies this, crc
      ensures Valid() && Result(Abs(), sent) == TickResult(cfg, old(Abs()), e)
    {
      hide Wf, InactivityTick, SendTick, AckTick;
      TickInactivity();
      sent := TickSend(e);
      TickAck();
    }

    /** `CF_CFDP_CancelTransaction` with `CF_CFDP_R_Cancel`. */
    method CancelTransaction()
      requires Valid()
      modifies this
      ensures Valid() && Abs() == Canceled(old(Abs()))
    {
      if !canceled {
        canceled := true;
        SetTxnStatus(CANCEL_REQUEST_RECEIVED);
        if subState != WaitForFinAck {
          rx := rx.(sendFin := true);
        } else {
          freed := true;
        }
      }
    }

    /** Any event. */
    method Handle(e: Event) returns (sent: seq<Pdu>)
      requires Valid() && EventOk(e)
      modifies this, chunks, chunks.chunks, crc
      ensures Valid() && Result(Abs(), sent) == Step(cfg, old(Abs()), e)
    {
      hide Wf, Handled, TickResult, Canceled;
      sent := [];
      if !freed {
        match e
        case Tick(_, _) => sent := DoTick(e);
        case Cancel => CancelTransaction();
        case _ => Recv(e);
      }
    }
  }
}
