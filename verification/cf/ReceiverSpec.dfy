/**
 The class-2 receiver of the CF application (`cf_cfdp_r.c`) as a state machine over values: what each PDU, each tick and a
 cancel request do to a transaction, and which PDUs it sends.  Outcomes of the file system, of PDU decoding and of the
 software bus are part of the events.
 */
module ReceiverSpec {
  import opened Bytes
  import opened Options
  import opened ChunkTheory
  import opened GapTheory
  import opened FileChecksum
  import opened PduFormat
  import opened NakRequests

  // ---------------------------------------------------------------------------------------------------------------
  // Transaction status
  // ---------------------------------------------------------------------------------------------------------------

  const NO_ERROR := 0
  const FILESTORE_REJECTION := 4
  const FILE_CHECKSUM_FAILURE := 5
  const FILE_SIZE_ERROR := 6
  const NAK_LIMIT_REACHED := 7
  const INACTIVITY_DETECTED := 8
  const CANCEL_REQUEST_RECEIVED := 15
  const PROTOCOL_ERROR := 16
  const ACK_LIMIT_NO_FIN := 17
  const ACK_LIMIT_NO_EOF := 18

  /** `CF_TxnStatus_IsError`; -1 is the status not set yet. */
  predicate IsError(stat: int) {
    stat > NO_ERROR
  }

  /** `CF_TxnStatus_To_ConditionCode`. */
  function ConditionCode(stat: int): (cc: nat)
    ensures cc == NO_ERROR <==> !IsError(stat)
  {
    if !IsError(stat) then NO_ERROR
    else if stat <= 11 || stat == 14 || stat == 15 then stat
    else if stat == ACK_LIMIT_NO_FIN || stat == ACK_LIMIT_NO_EOF then INACTIVITY_DETECTED
    else CANCEL_REQUEST_RECEIVED
  }

  // ---------------------------------------------------------------------------------------------------------------
  // State and events
  // ---------------------------------------------------------------------------------------------------------------

  datatype SubState = FileDataState | EofState | WaitForFinAck

  datatype Delivery = Complete | Incomplete

  datatype FileStatus = Discarded | Retained

  /** The configuration of the channel; the timers in ticks. */
  datatype Config = Config(nakLimit: nat, ackLimit: nat, ackTicks: nat, inactivityTicks: nat, crcBytesPerWakeup: nat,
                           maxChunks: nat)
  {
    predicate Ok() {
      0 < maxChunks
    }
  }

  /** `CF_Flags_Rx_t`. */
  datatype RxFlags = RxFlags(mdRecv: bool, inactivityFired: bool, eofRecv: bool, sendNak: bool, sendFin: bool,
                             sendAck: bool, complete: bool, fdNakSent: bool)

  /** The class-2 part of the receive state: the EOF, the retry count, what a FIN will say, the checksum progress and the
      cached file position. */
  datatype R2 = R2(eofCc: nat, eofCrc: nat, eofSize: nat, ackNakCount: nat, dc: Delivery, fs: FileStatus,
                   rxCrcCalcBytes: nat, cachedPos: nat)

  /** The chunk list, the checksum, and the file with the position of its handle. */
  datatype Store = Store(chunks: seq<Chunk>, crc: CrcState, file: seq<byte>, filePos: nat)

  /** `CF_Transaction_t`, as far as a class-2 receiver uses it. */
  datatype Txn = Txn(freed: bool, keep: bool, canceled: bool, crcCalc: bool, subState: SubState, txnStat: int, fsize: nat,
                     ackTimer: nat, inactivityTimer: nat, rx: RxFlags, r2: R2, store: Store)

  /** Decoded metadata: too short, with file names that do not fit, or good. */
  datatype MetadataOutcome = ShortMetadata | BadNames(size: nat) | GoodMetadata(size: nat)

  datatype EofFields = EofFields(cc: nat, crc: nat, size: nat)

  datatype DataFields = DataFields(offset: nat, data: seq<byte>)

  datatype Event =
    | MetadataPdu(outcome: MetadataOutcome, renameOk: bool, reopenOk: bool)
    | EofPdu(eof: Option<EofFields>)
    | FileDataPdu(fd: Option<DataFields>, seekOk: bool, writeOk: bool)
    | AckPdu(ok: bool)
    | OtherPdu
    | Tick(bufferAvailable: bool, readsOk: nat)
    | Cancel

  datatype Pdu = EofAck(cc: nat) | NakOut(nak: Nak) | FinOut(dc: Delivery, fs: FileStatus, cc: nat)

  datatype Result = Result(txn: Txn, sent: seq<Pdu>)

  /** Offsets and sizes are 32-bit numbers, file data ends below 2^32 (which `CF_ChunkListAdd` asserts), and a condition code
      has four bits. */
  predicate EventOk(e: Event) {
    match e
    case MetadataPdu(outcome, _, _) => outcome.ShortMetadata? || outcome.size < UINT32
    case EofPdu(eof) => eof.Some? ==> eof.value.cc < 16 && eof.value.crc < UINT32 && eof.value.size < UINT32
    case FileDataPdu(fd, _, _) => fd.Some? ==> fd.value.offset + |fd.value.data| < UINT32
    case _ => true
  }

  /** What the chunk list always satisfies. */
  ghost predicate StoreOk(cfg: Config, s: Store) {
    cfg.Ok() && Wf(s.chunks) && |s.chunks| <= cfg.maxChunks
  }

  // ---------------------------------------------------------------------------------------------------------------
  // Parts
  // ---------------------------------------------------------------------------------------------------------------

  /** `CF_CFDP_SetTxnStatus`: an error is never overwritten. */
  function NewStatus(stat: int, wanted: int): int {
    if IsError(stat) then stat else wanted
  }

  function WithStatus(t: Txn, stat: int): Txn {
    t.(txnStat := NewStatus(t.txnStat, stat))
  }

  function SendingFin(t: Txn): Txn {
    t.(rx := t.rx.(sendFin := true))
  }

  /** `CF_CFDP_R2_SetFinTxnStatus`. */
  function WithFinStatus(t: Txn, stat: int): Txn {
    t.(txnStat := NewStatus(t.txnStat, stat), rx := t.rx.(sendFin := true))
  }

  /** `CF_CFDP_R2_Reset`. */
  function Reset(t: Txn): Txn {
    if t.subState == WaitForFinAck || t.r2.eofCc != NO_ERROR || IsError(t.txnStat) || t.canceled then t.(freed := true)
    else SendingFin(t)
  }

  ghost predicate HasGap(t: Txn)
    requires Wf(t.store.chunks)
  {
    ReportedGaps(t.store.chunks, 1, t.fsize, 0) != []
  }

  ghost predicate NeedsNak(t: Txn)
    requires Wf(t.store.chunks)
  {
    !t.rx.mdRecv || HasGap(t)
  }

  /** What a FIN vouches for. */
  predicate SameFacts(t: Txn, t': Txn) {
    && t.rx.mdRecv == t'.rx.mdRecv && t.rx.eofRecv == t'.rx.eofRecv && t.r2.eofSize == t'.r2.eofSize
    && t.fsize == t'.fsize && t.r2.eofCrc == t'.r2.eofCrc && t.crcCalc == t'.crcCalc && t.keep == t'.keep
    && t.r2.dc == t'.r2.dc && t.r2.fs == t'.r2.fs
  }

  function NakLimitReached(t: Txn): Txn {
    t.(txnStat := NewStatus(t.txnStat, NAK_LIMIT_REACHED), subState := FileDataState,
       r2 := t.r2.(ackNakCount := 0), rx := t.rx.(complete := true, sendFin := true))
  }

  function NakCounted(t: Txn): Txn {
    t.(subState := FileDataState, r2 := t.r2.(ackNakCount := t.r2.ackNakCount + 1), rx := t.rx.(sendNak := true))
  }

  function Finished(t: Txn): Txn {
    t.(txnStat := NewStatus(t.txnStat, NO_ERROR), subState := FileDataState,
       rx := t.rx.(complete := true, sendFin := true))
  }

  /** `CF_CFDP_R2_Complete`. */
  ghost function CheckComplete(cfg: Config, t: Txn, okToSendNak: bool): (r: Txn)
    requires Wf(t.store.chunks)
    ensures r.store == t.store && r.freed == t.freed && r.r2.rxCrcCalcBytes == t.r2.rxCrcCalcBytes && SameFacts(t, r)
  {
    if IsError(t.txnStat) then t
    else if NeedsNak(t) then
      if !okToSendNak then t.(subState := FileDataState)
      else if t.r2.ackNakCount + 1 >= cfg.nakLimit then NakLimitReached(t)
      else NakCounted(t)
    else if t.rx.eofRecv then Finished(t)
    else t.(subState := FileDataState)
  }

  function Extended(file: seq<byte>, n: nat): (r: seq<byte>)
    ensures |r| == Max(|file|, n) && file <= r
  {
    if |file| < n then file + seq(n - |file|, _ => 0) else file
  }

  /** The file after data has been written at pos; a hole reads as zeros, and writing nothing changes nothing. */
  function Written(file: seq<byte>, pos: nat, data: seq<byte>): seq<byte> {
    if data == [] then file
    else
      var f := Extended(file, pos + |data|);
      f[..pos] + data + f[pos + |data|..]
  }

  // ---------------------------------------------------------------------------------------------------------------
  // Received PDUs
  // ---------------------------------------------------------------------------------------------------------------

  /** `CF_CFDP_R_ProcessFd` succeeds. */
  predicate Stores(t: Txn, e: Event) {
    e.FileDataPdu? && e.fd.Some? && (t.r2.cachedPos == e.fd.value.offset || e.seekOk) && e.writeOk
  }

  /** The store with the data in the file and in the chunk list. */
  ghost function StoreWith(cfg: Config, s: Store, cachedPos: nat, d: DataFields): (r: Store)
    requires StoreOk(cfg, s) && d.offset + |d.data| < UINT32
    ensures StoreOk(cfg, r)
  {
    var pos := if cachedPos == d.offset then s.filePos else d.offset;
    AddedKeepsWf(s.chunks, cfg.maxChunks, Chunk(d.offset, |d.data|));
    Store(Added(s.chunks, cfg.maxChunks, Chunk(d.offset, |d.data|)), s.crc, Written(s.file, pos, d.data), pos + |d.data|)
  }

  ghost function Stored(cfg: Config, t: Txn, d: DataFields): (r: Txn)
    requires StoreOk(cfg, t.store) && d.offset + |d.data| < UINT32
    ensures StoreOk(cfg, r.store) && r.freed == t.freed && r.r2.rxCrcCalcBytes == t.r2.rxCrcCalcBytes
  {
    t.(store := StoreWith(cfg, t.store, t.r2.cachedPos, d), r2 := t.r2.(cachedPos := d.offset + |d.data|))
  }

  /** The end of `CF_CFDP_R2_SubstateRecvFileData` after success. */
  function FdDone(cfg: Config, t: Txn): (r: Txn)
    ensures r.store == t.store && r.r2.rxCrcCalcBytes == t.r2.rxCrcCalcBytes
  {
    t.(ackTimer := if t.rx.complete then t.ackTimer else cfg.ackTicks, r2 := t.r2.(ackNakCount := 0))
  }

  /** `CF_CFDP_R2_SubstateRecvFileData`. */
  ghost function RecvFileData(cfg: Config, t: Txn, e: Event): (r: Txn)
    requires StoreOk(cfg, t.store) && EventOk(e) && e.FileDataPdu?
    ensures StoreOk(cfg, r.store) && r.r2.rxCrcCalcBytes == t.r2.rxCrcCalcBytes
  {
    if Stores(t, e) then
      var stored := Stored(cfg, t, e.fd.value);
      FdDone(cfg, if t.rx.fdNakSent then CheckComplete(cfg, stored, false) else stored)
    else
      Reset(WithStatus(t, if e.fd.None? then PROTOCOL_ERROR
                          else if t.r2.cachedPos != e.fd.value.offset && !e.seekOk then FILE_SIZE_ERROR
                          else FILESTORE_REJECTION))
  }

  function EofNoted(t: Txn, eof: EofFields): Txn {
    t.(r2 := t.r2.(eofCc := eof.cc, eofCrc := eof.crc, eofSize := eof.size),
       rx := t.rx.(eofRecv := true, sendAck := true))
  }

  /** `CF_CFDP_R2_SubstateRecvEof`. */
  ghost function RecvEof(cfg: Config, t: Txn, e: Event): (r: Txn)
    requires StoreOk(cfg, t.store) && e.EofPdu?
    ensures r.store == t.store && r.r2.rxCrcCalcBytes == t.r2.rxCrcCalcBytes
  {
    if t.rx.eofRecv then t
    else if e.eof.None? then t.(subState := FileDataState)
    else if t.rx.mdRecv && e.eof.value.size != t.fsize then WithFinStatus(t, FILE_SIZE_ERROR)
    else if e.eof.value.cc == NO_ERROR then CheckComplete(cfg, EofNoted(t, e.eof.value), true)
    else Reset(WithStatus(EofNoted(t, e.eof.value), e.eof.value.cc))
  }

  /** Metadata accepted: the file has been renamed and opened again. */
  function MetadataNoted(t: Txn, size: nat): Txn {
    t.(fsize := size, r2 := t.r2.(cachedPos := 0, ackNakCount := 0), rx := t.rx.(mdRecv := true),
       store := t.store.(filePos := 0))
  }

  /** `CF_CFDP_R2_RecvMd`; the size is taken over even if the file names are bad. */
  ghost function RecvMetadata(cfg: Config, t: Txn, e: Event): (r: Txn)
    requires StoreOk(cfg, t.store) && e.MetadataPdu?
    ensures StoreOk(cfg, r.store) && r.r2.rxCrcCalcBytes == t.r2.rxCrcCalcBytes
  {
    if t.rx.mdRecv || e.outcome.ShortMetadata? then t
    else if e.outcome.BadNames? then t.(fsize := e.outcome.size)
    else if t.rx.eofRecv && t.r2.eofSize != e.outcome.size then
      WithFinStatus(t.(fsize := e.outcome.size), FILE_SIZE_ERROR)
    else if !e.renameOk || !e.reopenOk then WithFinStatus(t.(fsize := e.outcome.size), FILESTORE_REJECTION)
    else CheckComplete(cfg, MetadataNoted(t, e.outcome.size), true)
  }

  /** `CF_CFDP_R2_Recv`: which handler a sub-state has for a PDU; file data is dropped once there is an error. */
  ghost function Handled(cfg: Config, t: Txn, e: Event): (r: Txn)
    requires StoreOk(cfg, t.store) && EventOk(e)
    ensures StoreOk(cfg, r.store) && r.r2.rxCrcCalcBytes == t.r2.rxCrcCalcBytes
  {
    match e
    case EofPdu(_) => RecvEof(cfg, t, e)
    case MetadataPdu(_, _, _) => if t.subState == WaitForFinAck then t else RecvMetadata(cfg, t, e)
    case AckPdu(ok) => if t.subState == WaitForFinAck && ok then Reset(t) else t
    case FileDataPdu(_, _, _) => if IsError(t.txnStat) then t else RecvFileData(cfg, t, e)
    case _ => t
  }

  // ---------------------------------------------------------------------------------------------------------------
  // Ticks
  // ---------------------------------------------------------------------------------------------------------------

  const CRC_CHUNK_SIZE: nat := 1024

  /** What the checksum loop works on. */
  datatype Digest = Digest(bytes: nat, cachedPos: nat, filePos: nat, crc: CrcState)

  function ReadSize(d: Digest, fsize: nat): nat {
    if d.bytes <= fsize then Min(CRC_CHUNK_SIZE, fsize - d.bytes) else 0
  }

  /** Where the next read takes place: a seek comes first unless the cached position is right. */
  function ReadPos(d: Digest): nat {
    if d.cachedPos != d.bytes then d.bytes else d.filePos
  }

  /** The checksum loop of `CF_CFDP_R2_CalcCrcChunk`, with the number of bytes done in this wakeup, and whether all reads
      succeeded: the first readsOk ones do if the file has the bytes. */
  function DigestLoop(cfg: Config, file: seq<byte>, fsize: nat, d: Digest, count: nat, readsOk: nat): (Digest, bool)
    decreases if d.bytes < fsize then fsize - d.bytes else 0
  {
    if count >= cfg.crcBytesPerWakeup || d.bytes >= fsize then (d, true)
    else
      var p, n := ReadPos(d), ReadSize(d, fsize);
      if readsOk == 0 || p + n > |file| then (d, false)
      else
        DigestLoop(cfg, file, fsize, Digest(d.bytes + n, d.bytes + n, p + n, Digested(d.crc, file[p..p + n])),
                   count + n, readsOk - 1)
  }

  function DigestOf(t: Txn): Digest {
    Digest(t.r2.rxCrcCalcBytes, t.r2.cachedPos, t.store.filePos,
           if t.r2.rxCrcCalcBytes == 0 then START else t.store.crc)
  }

  function WithDigest(t: Txn, d: Digest): Txn {
    t.(r2 := t.r2.(rxCrcCalcBytes := d.bytes, cachedPos := d.cachedPos),
       store := t.store.(filePos := d.filePos, crc := d.crc))
  }

  /** The comparison at the end of the checksum. */
  function Checked(t: Txn): Txn {
    var crc := Finalized(t.store.crc);
    if crc.result == t.r2.eofCrc then
      t.(store := t.store.(crc := crc), crcCalc := true, keep := true, r2 := t.r2.(dc := Complete, fs := Retained))
    else
      t.(store := t.store.(crc := crc), crcCalc := true, txnStat := NewStatus(t.txnStat, FILE_CHECKSUM_FAILURE),
         rx := t.rx.(sendFin := true))
  }

  /** `CF_CFDP_R2_CalcCrcChunk`: the new transaction and whether the checksum is finished. */
  function CalcCrcChunk(cfg: Config, t: Txn, readsOk: nat): (r: (Txn, bool))
    ensures r.0.store.chunks == t.store.chunks && r.0.store.file == t.store.file
  {
    var (d, ok) := DigestLoop(cfg, t.store.file, t.fsize, DigestOf(t), 0, readsOk);
    var t' := WithDigest(t, d);
    if !ok then (WithStatus(t', FILE_SIZE_ERROR), false)
    else if d.bytes == t.fsize then (Checked(t'), true)
    else (t', false)
  }

  function FinSent(t: Txn, sent: bool): Txn {
    t.(subState := WaitForFinAck, rx := t.rx.(sendFin := t.rx.sendFin && !sent))
  }

  /** `CF_CFDP_R2_SubstateSendFin`. */
  function SendFin(cfg: Config, t: Txn, e: Event): (r: Result)
    requires e.Tick?
    ensures r.txn.store.chunks == t.store.chunks && r.txn.store.file == t.store.file
  {
    var (t', ready) := if !IsError(t.txnStat) && !t.crcCalc then CalcCrcChunk(cfg, t, e.readsOk) else (t, true);
    if !ready then Result(t', [])
    else
      Result(FinSent(t', e.bufferAvailable),
             if e.bufferAvailable then [FinOut(t'.r2.dc, t'.r2.fs, ConditionCode(t'.txnStat))] else [])
  }

  /** The gaps a NAK would ask for. */
  ghost function NakGaps(cfg: Config, t: Txn): seq<Chunk>
    requires StoreOk(cfg, t.store)
  {
    ReportedGaps(t.store.chunks, GapLimit(|t.store.chunks|, cfg.maxChunks), t.fsize, 0)
  }

  function NakDone(t: Txn, noGap: bool, dataRequested: bool): (r: Txn)
    ensures r.store == t.store
  {
    t.(rx := t.rx.(sendNak := false, complete := t.rx.complete || noGap, fdNakSent := t.rx.fdNakSent || dataRequested))
  }

  /** `CF_CFDP_R_SubstateSendNak`. */
  ghost function SendNak(cfg: Config, t: Txn, e: Event): (r: Result)
    requires e.Tick? && StoreOk(cfg, t.store)
    ensures r.txn.store == t.store
  {
    if !e.bufferAvailable then Result(t, [])
    else if !t.rx.mdRecv then Result(NakDone(t, false, false), [NakOut(Nak(0, 0, [Segment(0, 0)]))])
    else if NakGaps(cfg, t) == [] then Result(NakDone(t, true, false), [])
    else Result(NakDone(t, false, true), [NakOut(NakFor(t.store.chunks, cfg.maxChunks, t.fsize))])
  }

  function InactivityTick(t: Txn): (r: Txn)
    ensures r.store == t.store && r.r2 == t.r2 && r.freed == t.freed
  {
    if t.rx.inactivityFired then t
    else if t.inactivityTimer == 0 then
      t.(txnStat := NewStatus(t.txnStat, INACTIVITY_DETECTED), rx := t.rx.(sendFin := true, inactivityFired := true))
    else t.(inactivityTimer := t.inactivityTimer - 1)
  }

  /** At most one PDU is sent: an acknowledgement before a NAK before a FIN. */
  ghost function SendTick(cfg: Config, t: Txn, e: Event): (r: Result)
    requires e.Tick? && StoreOk(cfg, t.store)
    ensures r.txn.store.chunks == t.store.chunks && r.txn.store.file == t.store.file
  {
    if t.rx.sendAck then
      if e.bufferAvailable then Result(t.(rx := t.rx.(sendAck := false)), [EofAck(t.r2.eofCc)]) else Result(t, [])
    else if t.rx.sendNak then SendNak(cfg, t, e)
    else if t.rx.sendFin then SendFin(cfg, t, e)
    else Result(t, [])
  }

  /** The acknowledgement timer, which a class-2 receiver always has armed. */
  ghost function AckTick(cfg: Config, t: Txn): (r: Txn)
    requires Wf(t.store.chunks)
    ensures r.store == t.store && r.r2.rxCrcCalcBytes == t.r2.rxCrcCalcBytes && SameFacts(t, r)
  {
    if t.ackTimer > 0 then t.(ackTimer := t.ackTimer - 1)
    else if !t.rx.complete then CheckComplete(cfg, t, true).(ackTimer := cfg.ackTicks)
    else if t.subState != WaitForFinAck then t.(ackTimer := cfg.ackTicks)
    else if t.r2.ackNakCount + 1 >= cfg.ackLimit then
      t.(r2 := t.r2.(ackNakCount := t.r2.ackNakCount + 1), txnStat := NewStatus(t.txnStat, ACK_LIMIT_NO_FIN), freed := true)
    else
      t.(r2 := t.r2.(ackNakCount := t.r2.ackNakCount + 1), rx := t.rx.(sendFin := true), ackTimer := cfg.ackTicks)
  }

  /** `CF_CFDP_CancelTransaction` and `CF_CFDP_R_Cancel`. */
  function Canceled(t: Txn): (r: Txn)
    ensures r.store == t.store && r.r2 == t.r2
  {
    if t.canceled then t
    else if t.subState == WaitForFinAck then
      t.(canceled := true, txnStat := NewStatus(t.txnStat, CANCEL_REQUEST_RECEIVED), freed := true)
    else
      t.(canceled := true, txnStat := NewStatus(t.txnStat, CANCEL_REQUEST_RECEIVED), rx := t.rx.(sendFin := true))
  }

  // ---------------------------------------------------------------------------------------------------------------
  // Whole runs
  // ---------------------------------------------------------------------------------------------------------------

  ghost function TickResult(cfg: Config, t: Txn, e: Event): (r: Result)
    requires e.Tick? && StoreOk(cfg, t.store)
    ensures r.txn.store.chunks == t.store.chunks && r.txn.store.file == t.store.file
  {
    var r := SendTick(cfg, InactivityTick(t), e);
    Result(AckTick(cfg, r.txn), r.sent)
  }

  /** Any PDU restarts the inactivity timer. */
  function Heard(cfg: Config, t: Txn): (r: Txn)
    ensures r.store == t.store && r.r2 == t.r2
  {
    t.(inactivityTimer := cfg.inactivityTicks)
  }

  /** One event; a freed transaction takes part in nothing. */
  ghost function Step(cfg: Config, t: Txn, e: Event): (r: Result)
    requires StoreOk(cfg, t.store) && EventOk(e)
    ensures StoreOk(cfg, r.txn.store)
  {
    if t.freed then Result(t, [])
    else
      match e
      case Tick(_, _) => TickResult(cfg, t, e)
      case Cancel => Result(Canceled(t), [])
      case _ => Result(Heard(cfg, Handled(cfg, t, e)), [])
  }

  /** A transaction as `CF_CFDP_RecvIdle` and `CF_CFDP_R_Init` leave it: with metadata or without, with whatever status and
      chunks its recycled history and chunk list still hold, and with or without success in creating the file. */
  function Initial(cfg: Config, metadata: Option<nat>, stat: int, chunks: seq<Chunk>, created: bool, crc: CrcState): Txn {
    Txn(false, false, false, false, FileDataState, if created then stat else NewStatus(stat, FILESTORE_REJECTION),
        if metadata.Some? then metadata.value else 0, cfg.ackTicks, cfg.inactivityTicks,
        RxFlags(metadata.Some?, false, false, false, !created, false, false, false),
        R2(NO_ERROR, 0, 0, 0, Incomplete, Discarded, 0, 0), Store(chunks, crc, [], 0))
  }

  /** The transaction after a sequence of events. */
  ghost function After(cfg: Config, t: Txn, events: seq<Event>): (r: Txn)
    requires StoreOk(cfg, t.store) && forall e :: e in events ==> EventOk(e)
    ensures StoreOk(cfg, r.store)
    decreases |events|
  {
    if events == [] then t else After(cfg, Step(cfg, t, events[0]).txn, events[1..])
  }
}
