/**
 The byte layout of CFDP PDUs as the CF application writes and reads it (`cf_codec.c`), section 5 of CCSDS 727.0-B-5:
 for every kind of PDU what is written and how bytes are read back.  That reading returns exactly what was written if and only
 if every field fits its place is proved in `PduRoundTrip`.
 */
module PduFormat {
  import opened Bytes
  import opened Options

  const UINT32: nat := 0x1_0000_0000
  const UINT64: nat := 0x1_0000_0000_0000_0000
  const MAX_TLV: nat := 4
  const MAX_SEGMENTS: nat := 58
  const ENTITY_ID: nat := 6
  const EID_SIZE: nat := 4

  /** The outcome of reading: the value and the position behind it. */
  datatype Parsed<+T> = Fail | Got(value: T, pos: nat)

  // ---------------------------------------------------------------------------------------------------------------
  // Logical values
  // ---------------------------------------------------------------------------------------------------------------

  /** `CF_Logical_PduHeader_t`; eidLength and seqLength are the encoded lengths, dataLength what follows the header. */
  datatype Header = Header(version: nat, direction: nat, pduType: nat, txmMode: nat, crcFlag: nat, largeFlag: nat,
                           eidLength: nat, seqLength: nat, dataLength: nat,
                           sourceEid: nat, sequenceNum: nat, destinationEid: nat)

  datatype HeaderOutcome = Accepted(header: Header) | LengthsRejected

  /** `CF_Logical_Lv_t`; None stands for a null data pointer. */
  datatype Lv = Lv(length: nat, data: Option<seq<byte>>)

  /** `CF_Logical_Tlv_t`: the union is an entity id for type 6 and a pointer otherwise. */
  datatype Tlv = EntityId(length: nat, eid: nat) | Other(tlvType: nat, length: nat, data: Option<seq<byte>>)

  datatype Segment = Segment(offsetStart: nat, offsetEnd: nat)

  datatype Metadata = Metadata(closeReq: nat, checksumType: nat, size: nat, source: Lv, dest: Lv)

  datatype Eof = Eof(cc: nat, crc: nat, size: nat, tlvs: seq<Tlv>)

  datatype Fin = Fin(cc: nat, deliveryCode: nat, fileStatus: nat, tlvs: seq<Tlv>)

  datatype Ack = Ack(directiveCode: nat, subtypeCode: nat, cc: nat, txnStatus: nat)

  datatype Nak = Nak(scopeStart: nat, scopeEnd: nat, segments: seq<Segment>)

  datatype FileData = FileData(continuationState: nat, segments: seq<Segment>, offset: nat, data: seq<byte>)

  // ---------------------------------------------------------------------------------------------------------------
  // Fields within a byte
  // ---------------------------------------------------------------------------------------------------------------

  /** `CF_FieldGetVal`, with unit = 1 << shift and size = mask + 1. */
  function FieldGet(src: nat, unit: nat, size: nat): nat
    requires unit > 0 && size > 0
  {
    (src / unit) % size
  }

  /** `CF_FieldSetVal`. */
  function FieldSet(dest: int, unit: nat, size: nat, val: nat): int
    requires dest >= 0 && unit > 0 && size > 0
  {
    dest - ((dest / unit) % size) * unit + (val % size) * unit
  }

  // ---------------------------------------------------------------------------------------------------------------
  // Writing
  // ---------------------------------------------------------------------------------------------------------------

  /** The flags byte: version in bits 5-7, type in bit 4, direction in bit 3, mode in bit 2; CRC and large-file flag are
      left 0. */
  function HeaderFlags(h: Header): byte {
    32 * (h.version % 8) + 16 * (h.pduType % 2) + 8 * (h.direction % 2) + 4 * (h.txmMode % 2)
  }

  /** The lengths byte: each length is stored less one, in three bits. */
  function HeaderLengths(h: Header): byte {
    16 * ((h.eidLength - 1) % 8) + (h.seqLength - 1) % 8
  }

  function HeaderBytes(h: Header): seq<byte> {
    [HeaderFlags(h)] + ToBigEndian(h.dataLength, 2) + [HeaderLengths(h)]
    + ToBigEndian(h.sourceEid, h.eidLength) + ToBigEndian(h.sequenceNum, h.seqLength)
    + ToBigEndian(h.destinationEid, h.eidLength)
  }

  /** An LV with data can be written, whatever its length; one without only if it is empty. */
  predicate LvEncodable(v: Lv) {
    v.length < 256 && match v.data case None => v.length == 0 case Some(d) => |d| == v.length
  }

  function LvBytes(v: Lv): seq<byte>
    requires LvEncodable(v)
  {
    [v.length] + match v.data case None => [] case Some(d) => d
  }

  predicate TlvEncodable(v: Tlv) {
    v.length < 256 && match v
    case EntityId(_, _) => true
    case Other(t, n, data) => t < 256 && t != ENTITY_ID && LvEncodable(Lv(n, data))
  }

  function TlvBytes(v: Tlv): seq<byte>
    requires TlvEncodable(v)
  {
    match v
    case EntityId(n, eid) => [ENTITY_ID, n] + ToBigEndian(eid, n)
    case Other(t, n, data) => [t] + LvBytes(Lv(n, data))
  }

  predicate TlvsEncodable(vs: seq<Tlv>) {
    forall i :: 0 <= i < |vs| ==> TlvEncodable(vs[i])
  }

  function TlvsBytes(vs: seq<Tlv>): seq<byte>
    requires TlvsEncodable(vs)
  {
    if vs == [] then [] else TlvBytes(vs[0]) + TlvsBytes(vs[1..])
  }

  function SegmentBytes(v: Segment): (s: seq<byte>)
    ensures |s| == 8
  {
    ToBigEndian(v.offsetStart, 4) + ToBigEndian(v.offsetEnd, 4)
  }

  function SegmentsBytes(vs: seq<Segment>): (s: seq<byte>)
    ensures |s| == 8 * |vs|
  {
    if vs == [] then [] else SegmentBytes(vs[0]) + SegmentsBytes(vs[1..])
  }

  function MetadataBytes(v: Metadata): seq<byte>
    requires LvEncodable(v.source) && LvEncodable(v.dest)
  {
    [128 * (v.closeReq % 2) + v.checksumType % 16] + ToBigEndian(v.size, 4) + LvBytes(v.source) + LvBytes(v.dest)
  }

  function EofBytes(v: Eof): seq<byte>
    requires TlvsEncodable(v.tlvs)
  {
    [16 * (v.cc % 16)] + ToBigEndian(v.crc, 4) + ToBigEndian(v.size, 4) + TlvsBytes(v.tlvs)
  }

  function FinBytes(v: Fin): seq<byte>
    requires TlvsEncodable(v.tlvs)
  {
    [16 * (v.cc % 16) + 4 * (v.deliveryCode % 2) + v.fileStatus % 4] + TlvsBytes(v.tlvs)
  }

  function AckBytes(v: Ack): seq<byte> {
    [16 * (v.directiveCode % 16) + v.subtypeCode % 16, 16 * (v.cc % 16) + v.txnStatus % 4]
  }

  function NakBytes(v: Nak): seq<byte> {
    ToBigEndian(v.scopeStart, 4) + ToBigEndian(v.scopeEnd, 4) + SegmentsBytes(v.segments)
  }

  /** The header part of a file-data PDU; the optional fields come first. */
  function FileDataHeaderBytes(withMeta: bool, v: FileData): seq<byte> {
    (if withMeta then [64 * (v.continuationState % 4) + |v.segments| % 64] + SegmentsBytes(v.segments) else [])
    + ToBigEndian(v.offset, 4)
  }

  // ---------------------------------------------------------------------------------------------------------------
  // Reading
  // ---------------------------------------------------------------------------------------------------------------

  function ReadBytes(s: seq<byte>, pos: nat, n: nat): Parsed<seq<byte>> {
    if pos + n <= |s| then Got(s[pos..pos + n], pos + n) else Fail
  }

  /** An integer of n bytes, accumulated in 64 bits. */
  function ReadInteger(s: seq<byte>, pos: nat, n: nat): Parsed<nat> {
    match ReadBytes(s, pos, n)
    case Fail => Fail
    case Got(b, p) => Got(BigEndian(b) % UINT64, p)
  }

  /** The fixed part decides whether the lengths are acceptable; only then are the variable fields read. */
  function ReadHeader(s: seq<byte>, pos: nat): Parsed<HeaderOutcome> {
    match ReadBytes(s, pos, 4)
    case Fail => Fail
    case Got(b, p) =>
      var eidLength := FieldGet(b[3], 16, 8) + 1;
      var seqLength := FieldGet(b[3], 1, 8) + 1;
      if eidLength > EID_SIZE || seqLength > EID_SIZE then Got(LengthsRejected, p)
      else
        var source := ReadInteger(s, p, eidLength);
        var number := if source.Got? then ReadInteger(s, source.pos, seqLength) else Fail;
        var destination := if number.Got? then ReadInteger(s, number.pos, eidLength) else Fail;
        if destination.Fail? then Fail
        else Got(Accepted(Header(FieldGet(b[0], 32, 8), FieldGet(b[0], 8, 2), FieldGet(b[0], 16, 2),
                                 FieldGet(b[0], 4, 2), FieldGet(b[0], 2, 2), FieldGet(b[0], 1, 2),
                                 eidLength, seqLength, BigEndian(b[1..3]),
                                 source.value, number.value, destination.value)),
                 destination.pos)
  }

  function ReadLv(s: seq<byte>, pos: nat): Parsed<Lv> {
    match ReadBytes(s, pos, 1)
    case Fail => Fail
    case Got(b, p) =>
      match ReadBytes(s, p, b[0])
      case Fail => Fail
      case Got(d, q) => Got(Lv(b[0], Some(d)), q)
  }

  function ReadTlv(s: seq<byte>, pos: nat): Parsed<Tlv> {
    match ReadBytes(s, pos, 2)
    case Fail => Fail
    case Got(b, p) =>
      if b[0] == ENTITY_ID then
        match ReadInteger(s, p, b[1])
        case Fail => Fail
        case Got(v, q) => Got(EntityId(b[1], v % UINT32), q)
      else
        match ReadBytes(s, p, b[1])
        case Fail => Fail
        case Got(d, q) => Got(Other(b[0], b[1], Some(d)), q)
  }

  /** TLVs are read as long as there are bytes, up to limit. */
  function ReadTlvs(s: seq<byte>, pos: nat, limit: nat): Parsed<seq<Tlv>>
    decreases limit
  {
    if limit == 0 || pos >= |s| then Got([], pos)
    else
      match ReadTlv(s, pos)
      case Fail => Fail
      case Got(v, p) =>
        match ReadTlvs(s, p, limit - 1)
        case Fail => Fail
        case Got(vs, q) => Got([v] + vs, q)
  }

  function ReadSegment(s: seq<byte>, pos: nat): Parsed<Segment> {
    match ReadBytes(s, pos, 8)
    case Fail => Fail
    case Got(b, p) => Got(Segment(BigEndian(b[..4]), BigEndian(b[4..])), p)
  }

  function ReadSegments(s: seq<byte>, pos: nat, limit: nat): Parsed<seq<Segment>>
    decreases limit
  {
    if limit == 0 || pos >= |s| then Got([], pos)
    else
      match ReadSegment(s, pos)
      case Fail => Fail
      case Got(v, p) =>
        match ReadSegments(s, p, limit - 1)
        case Fail => Fail
        case Got(vs, q) => Got([v] + vs, q)
  }

  /** Exactly n segments. */
  function ReadSegmentCount(s: seq<byte>, pos: nat, n: nat): Parsed<seq<Segment>>
    decreases n
  {
    if n == 0 then Got([], pos)
    else
      match ReadSegment(s, pos)
      case Fail => Fail
      case Got(v, p) =>
        match ReadSegmentCount(s, p, n - 1)
        case Fail => Fail
        case Got(vs, q) => Got([v] + vs, q)
  }

  function ReadMetadata(s: seq<byte>, pos: nat): Parsed<Metadata> {
    match ReadBytes(s, pos, 5)
    case Fail => Fail
    case Got(b, p) =>
      match ReadLv(s, p)
      case Fail => Fail
      case Got(source, q) =>
        match ReadLv(s, q)
        case Fail => Fail
        case Got(dest, r) =>
          Got(Metadata(FieldGet(b[0], 128, 2), FieldGet(b[0], 1, 16), BigEndian(b[1..]), source, dest), r)
  }

  function ReadEof(s: seq<byte>, pos: nat): Parsed<Eof> {
    match ReadBytes(s, pos, 9)
    case Fail => Fail
    case Got(b, p) =>
      match ReadTlvs(s, p, MAX_TLV)
      case Fail => Fail
      case Got(vs, q) => Got(Eof(FieldGet(b[0], 16, 16), BigEndian(b[1..5]), BigEndian(b[5..]), vs), q)
  }

  function ReadFin(s: seq<byte>, pos: nat): Parsed<Fin> {
    match ReadBytes(s, pos, 1)
    case Fail => Fail
    case Got(b, p) =>
      match ReadTlvs(s, p, MAX_TLV)
      case Fail => Fail
      case Got(vs, q) => Got(Fin(FieldGet(b[0], 16, 16), FieldGet(b[0], 4, 2), FieldGet(b[0], 1, 4), vs), q)
  }

  function ReadAck(s: seq<byte>, pos: nat): Parsed<Ack> {
    match ReadBytes(s, pos, 2)
    case Fail => Fail
    case Got(b, p) =>
      Got(Ack(FieldGet(b[0], 16, 16), FieldGet(b[0], 1, 16), FieldGet(b[1], 16, 16), FieldGet(b[1], 1, 4)), p)
  }

  function ReadNak(s: seq<byte>, pos: nat): Parsed<Nak> {
    match ReadBytes(s, pos, 8)
    case Fail => Fail
    case Got(b, p) =>
      match ReadSegments(s, p, MAX_SEGMENTS)
      case Fail => Fail
      case Got(vs, q) => Got(Nak(BigEndian(b[..4]), BigEndian(b[4..]), vs), q)
  }

  /** The optional part of a file-data header: continuation state and segment metadata. */
  function ReadMeta(s: seq<byte>, pos: nat, withMeta: bool): Parsed<(nat, seq<Segment>)> {
    if !withMeta then Got((0, []), pos)
    else
      match ReadBytes(s, pos, 1)
      case Fail => Fail
      case Got(b, p) =>
        if FieldGet(b[0], 1, 64) > MAX_SEGMENTS then Fail
        else
          match ReadSegmentCount(s, p, FieldGet(b[0], 1, 64))
          case Fail => Fail
          case Got(vs, q) => Got((FieldGet(b[0], 64, 4), vs), q)
  }

  /** What follows the header of a file-data PDU is data up to the end. */
  function ReadFileData(s: seq<byte>, pos: nat, withMeta: bool): Parsed<FileData> {
    match ReadMeta(s, pos, withMeta)
    case Fail => Fail
    case Got(m, p) =>
      match ReadBytes(s, p, 4)
      case Fail => Fail
      case Got(b, q) => Got(FileData(m.0, m.1, BigEndian(b), s[q..]), |s|)
  }

  // ---------------------------------------------------------------------------------------------------------------
  // Which values survive
  // ---------------------------------------------------------------------------------------------------------------

  predicate HeaderFits(h: Header) {
    && h.version < 8 && h.direction < 2 && h.pduType < 2 && h.txmMode < 2 && h.crcFlag == 0 && h.largeFlag == 0
    && 1 <= h.eidLength <= EID_SIZE && 1 <= h.seqLength <= EID_SIZE && h.dataLength < 0x1_0000
    && h.sourceEid < Pow256(h.eidLength) && h.sequenceNum < Pow256(h.seqLength) && h.destinationEid < Pow256(h.eidLength)
  }

  predicate LvFits(v: Lv) {
    v.length < 256 && v.data.Some? && |v.data.value| == v.length
  }

  predicate TlvFits(v: Tlv) {
    v.length < 256 && match v
    case EntityId(n, eid) => eid < UINT32 && eid < Pow256(n)
    case Other(t, n, data) => t < 256 && t != ENTITY_ID && LvFits(Lv(n, data))
  }

  predicate TlvsFit(vs: seq<Tlv>) {
    |vs| <= MAX_TLV && forall i :: 0 <= i < |vs| ==> TlvFits(vs[i])
  }

  predicate SegmentFits(v: Segment) {
    v.offsetStart < UINT32 && v.offsetEnd < UINT32
  }

  predicate SegmentsFit(vs: seq<Segment>) {
    |vs| <= MAX_SEGMENTS && forall i :: 0 <= i < |vs| ==> SegmentFits(vs[i])
  }

  predicate MetadataFits(v: Metadata) {
    v.closeReq < 2 && v.checksumType < 16 && v.size < UINT32 && LvFits(v.source) && LvFits(v.dest)
  }

  predicate EofFits(v: Eof) {
    v.cc < 16 && v.crc < UINT32 && v.size < UINT32 && TlvsFit(v.tlvs)
  }

  predicate FinFits(v: Fin) {
    v.cc < 16 && v.deliveryCode < 2 && v.fileStatus < 4 && TlvsFit(v.tlvs)
  }

  predicate AckFits(v: Ack) {
    v.directiveCode < 16 && v.subtypeCode < 16 && v.cc < 16 && v.txnStatus < 4
  }

  predicate NakFits(v: Nak) {
    v.scopeStart < UINT32 && v.scopeEnd < UINT32 && SegmentsFit(v.segments)
  }

  predicate FileDataFits(withMeta: bool, v: FileData) {
    && v.offset < UINT32
    && (if withMeta then v.continuationState < 4 && SegmentsFit(v.segments)
        else v.continuationState == 0 && v.segments == [])
  }
}
