/**
 The PDUs on the wire, byte by byte, as section 5 of CCSDS 727.0-B-5 lays them out.  `PduRoundTrip` says that both sides agree;
 here is what they agree on.  Whatever a reader accepts, from any bytes at any position, each field has the value that stands in
 its place, and the exact number of bytes is used.
 */
module WireFormat {
  import opened Bytes
  import opened Options
  import opened PduFormat
  import opened PduRoundTrip

  // ---------------------------------------------------------------------------------------------------------------
  // Header
  // ---------------------------------------------------------------------------------------------------------------

  /** A header of p - pos bytes stands at pos: flags, length of the rest, lengths of the ids less one, source, number and
      destination. */
  predicate HeaderAt(s: seq<byte>, pos: nat, h: Header, p: nat) {
    var e, n := h.eidLength, h.seqLength;
    && 1 <= e <= 4 && 1 <= n <= 4 && p == pos + 4 + 2 * e + n <= |s|
    && h.version < 8 && h.pduType < 2 && h.direction < 2 && h.txmMode < 2 && h.crcFlag < 2 && h.largeFlag < 2
    && s[pos] == 32 * h.version + 16 * h.pduType + 8 * h.direction + 4 * h.txmMode + 2 * h.crcFlag + h.largeFlag
    && U16(s, pos + 1) == h.dataLength
    && s[pos + 3] / 16 % 8 == e - 1 && s[pos + 3] % 8 == n - 1
    && BigEndian(s[pos + 4..pos + 4 + e]) == h.sourceEid
    && BigEndian(s[pos + 4 + e..pos + 4 + e + n]) == h.sequenceNum
    && BigEndian(s[pos + 4 + e + n..p]) == h.destinationEid
  }

  lemma FlagsOf(b: byte)
    ensures b == 32 * FieldGet(b, 32, 8) + 16 * FieldGet(b, 16, 2) + 8 * FieldGet(b, 8, 2) + 4 * FieldGet(b, 4, 2)
                 + 2 * FieldGet(b, 2, 2) + FieldGet(b, 1, 2)
  {
    assert b / 4 == b / 2 / 2 && b / 8 == b / 4 / 2 && b / 16 == b / 8 / 2 && b / 32 == b / 16 / 2;
  }

  lemma ShortIsExact(s: seq<byte>, pos: nat, n: nat)
    requires n <= 4
    ensures ReadInteger(s, pos, n)
            == if pos + n <= |s| then Got(BigEndian(s[pos..pos + n]), pos + n) else Fail
  {
    hide BigEndian;
    PowValues();
    if pos + n <= |s| {
      assert BigEndian(s[pos..pos + n]) < Pow256(n);
    }
  }

  /** Which bytes are a header, what a header says, and which are refused: ids longer than 4 bytes. */
  lemma HeaderIsRead(s: seq<byte>, pos: nat)
    ensures var r := ReadHeader(s, pos);
            if pos + 4 > |s| then r == Fail
            else if s[pos + 3] / 16 % 8 > 3 || s[pos + 3] % 8 > 3 then r == Got(LengthsRejected, pos + 4)
            else if pos + 4 + 2 * (s[pos + 3] / 16 % 8 + 1) + s[pos + 3] % 8 + 1 > |s| then r == Fail
            else r.Got? && r.value.Accepted? && HeaderAt(s, pos, r.value.header, r.pos)
  {
    hide BigEndian, ReadInteger;
    if pos + 4 <= |s| {
      var b := s[pos..pos + 4];
      var e, n := s[pos + 3] / 16 % 8 + 1, s[pos + 3] % 8 + 1;
      TwoAt(s, pos + 1);
      assert b[1..3] == s[pos + 1..pos + 3];
      FlagsOf(b[0]);
      if e <= 4 && n <= 4 {
        ShortIsExact(s, pos + 4, e);
        ShortIsExact(s, pos + 4 + e, n);
        ShortIsExact(s, pos + 4 + e + n, e);
      }
    }
  }

  /** The same of a header that is written, if its fields fit. */
  lemma HeaderIsWritten(h: Header)
    requires HeaderFits(h)
    ensures HeaderAt(HeaderBytes(h), 0, h, |HeaderBytes(h)|)
  {
    hide ReadHeader, HeaderBytes, HeaderAt;
    HeaderSurvivesIff(h);
    HeaderIsRead(HeaderBytes(h), 0);
  }

  // ---------------------------------------------------------------------------------------------------------------
  // LVs, TLVs and segment requests
  // ---------------------------------------------------------------------------------------------------------------

  /** A length byte and as many bytes. */
  predicate LvAt(s: seq<byte>, pos: nat, v: Lv, p: nat) {
    && pos < p <= |s| && v.length == s[pos] == p - pos - 1 && v.data == Some(s[pos + 1..p])
  }

  lemma LvIsRead(s: seq<byte>, pos: nat)
    ensures var r := ReadLv(s, pos);
            if pos >= |s| || pos + 1 + s[pos] > |s| then r == Fail else r.Got? && LvAt(s, pos, r.value, r.pos)
  {
  }

  /** A type byte, a length byte and as many bytes, which are a number if the type is 6, an entity id. */
  predicate TlvAt(s: seq<byte>, pos: nat, v: Tlv, p: nat) {
    && pos + 2 <= p <= |s| && v.length == s[pos + 1] == p - pos - 2
    && match v
       case EntityId(_, eid) => s[pos] == 6 && eid == BigEndian(s[pos + 2..p]) % UINT64 % 0x1_0000_0000
       case Other(t, _, data) => s[pos] == t != 6 && data == Some(s[pos + 2..p])
  }

  lemma TlvIsRead(s: seq<byte>, pos: nat)
    ensures var r := ReadTlv(s, pos);
            if pos + 2 > |s| || pos + 2 + s[pos + 1] > |s| then r == Fail else r.Got? && TlvAt(s, pos, r.value, r.pos)
  {
    hide BigEndian;
  }

  /** TLVs one behind the other. */
  predicate TlvsAt(s: seq<byte>, pos: nat, vs: seq<Tlv>, p: nat)
    decreases |vs|
  {
    if vs == [] then p == pos
    else TlvAt(s, pos, vs[0], pos + 2 + vs[0].length) && TlvsAt(s, pos + 2 + vs[0].length, vs[1..], p)
  }

  lemma {:induction false} TlvsAreRead(s: seq<byte>, pos: nat, limit: nat)
    ensures var r := ReadTlvs(s, pos, limit);
            r.Got? ==> TlvsAt(s, pos, r.value, r.pos) && |r.value| <= limit && (|r.value| == limit || r.pos >= |s|)
    decreases limit
  {
    hide ReadTlv, TlvAt;
    if limit > 0 && pos < |s| {
      TlvIsRead(s, pos);
      var first := ReadTlv(s, pos);
      if first.Got? {
        TlvEnd(s, pos, first.value, first.pos);
        TlvsAreRead(s, first.pos, limit - 1);
      }
    }
  }

  /** Reading fails only at a TLV that is not all there. */
  lemma {:induction false} TlvsFail(s: seq<byte>, pos: nat, limit: nat) returns (vs: seq<Tlv>, q: nat)
    requires ReadTlvs(s, pos, limit).Fail?
    ensures TlvsAt(s, pos, vs, q) && |vs| < limit && q < |s| && (q + 2 > |s| || q + 2 + s[q + 1] > |s|)
    decreases limit
  {
    hide ReadTlv, TlvAt;
    TlvIsRead(s, pos);
    var first := ReadTlv(s, pos);
    if first.Got? {
      TlvEnd(s, pos, first.value, first.pos);
      var rest;
      rest, q := TlvsFail(s, first.pos, limit - 1);
      vs := [first.value] + rest;
      assert vs[1..] == rest;
    } else {
      vs, q := [], pos;
    }
  }

  lemma TlvEnd(s: seq<byte>, pos: nat, v: Tlv, p: nat)
    requires TlvAt(s, pos, v, p)
    ensures p == pos + 2 + v.length
  {
  }

  /** Segment requests of 8 bytes each: start and end. */
  predicate SegmentsAt(s: seq<byte>, pos: nat, vs: seq<Segment>, p: nat) {
    && p == pos + 8 * |vs| && (p <= |s| || vs == [])
    && forall i :: 0 <= i < |vs| ==> vs[i] == Segment(U32(s, pos + 8 * i), U32(s, pos + 8 * i + 4))
  }

  lemma SegmentIsRead(s: seq<byte>, pos: nat)
    ensures ReadSegment(s, pos)
            == if pos + 8 > |s| then Fail else Got(Segment(U32(s, pos), U32(s, pos + 4)), pos + 8)
  {
    hide BigEndian, U32;
    if pos + 8 <= |s| {
      FourAt(s, pos);
      FourAt(s, pos + 4);
      SliceOfSlice(s, pos, 8, 0, 4);
      SliceOfSlice(s, pos, 8, 4, 8);
      assert s[pos..pos + 8][..4] == s[pos..pos + 4] && s[pos..pos + 8][4..] == s[pos + 4..pos + 8];
    }
  }

  lemma SegmentsCons(s: seq<byte>, pos: nat, v: Segment, vs: seq<Segment>, p: nat)
    requires pos + 8 <= |s| && v == Segment(U32(s, pos), U32(s, pos + 4)) && SegmentsAt(s, pos + 8, vs, p)
    ensures SegmentsAt(s, pos, [v] + vs, p)
  {
    hide U32;
    var all := [v] + vs;
    forall i | 0 <= i < |all|
      ensures all[i] == Segment(U32(s, pos + 8 * i), U32(s, pos + 8 * i + 4))
    {
      if i > 0 {
        assert vs[i - 1] == Segment(U32(s, pos + 8 + 8 * (i - 1)), U32(s, pos + 8 + 8 * (i - 1) + 4));
      }
    }
  }

  /** Up to the end of the bytes, but no more than limit; a part of a request is an error. */
  lemma {:induction false} SegmentsAreRead(s: seq<byte>, pos: nat, limit: nat)
    ensures var r := ReadSegments(s, pos, limit);
            && (r.Got? ==> SegmentsAt(s, pos, r.value, r.pos) && |r.value| <= limit && (|r.value| == limit || r.pos >= |s|))
            && (r.Fail? ==> pos < |s| < pos + 8 * limit && (|s| - pos) % 8 != 0)
    decreases limit
  {
    hide ReadSegment, U32, SegmentsAt;
    NoSegments(s, pos);
    if limit > 0 && pos < |s| {
      SegmentIsRead(s, pos);
      if pos + 8 <= |s| {
        SegmentsAreRead(s, pos + 8, limit - 1);
        var rest := ReadSegments(s, pos + 8, limit - 1);
        if rest.Got? {
          SegmentsCons(s, pos, ReadSegment(s, pos).value, rest.value, rest.pos);
        }
      }
    }
  }

  lemma NoSegments(s: seq<byte>, pos: nat)
    ensures SegmentsAt(s, pos, [], pos)
  {
  }

  /** Exactly n of them. */
  lemma {:induction false} SegmentCountIsRead(s: seq<byte>, pos: nat, n: nat)
    ensures var r := ReadSegmentCount(s, pos, n);
            if n > 0 && pos + 8 * n > |s| then r == Fail else r.Got? && |r.value| == n && SegmentsAt(s, pos, r.value, r.pos)
    decreases n
  {
    hide ReadSegment, U32, SegmentsAt;
    NoSegments(s, pos);
    if n > 0 {
      SegmentIsRead(s, pos);
      SegmentCountIsRead(s, pos + 8, n - 1);
      var rest := ReadSegmentCount(s, pos + 8, n - 1);
      if pos + 8 <= |s| && rest.Got? {
        SegmentsCons(s, pos, ReadSegment(s, pos).value, rest.value, rest.pos);
      }
    }
  }

  // ---------------------------------------------------------------------------------------------------------------
  // File directives
  // ---------------------------------------------------------------------------------------------------------------

  /** Metadata: closure requested in bit 7, checksum type in bits 0 to 3, the size, and two LVs. */
  predicate MetadataAt(s: seq<byte>, pos: nat, v: Metadata, p: nat) {
    var q := pos + 5 + 1 + v.source.length;
    && pos + 5 <= |s| && s[pos] / 128 == v.closeReq && s[pos] % 16 == v.checksumType && U32(s, pos + 1) == v.size
    && LvAt(s, pos + 5, v.source, q) && LvAt(s, q, v.dest, p)
  }

  lemma MetadataIsRead(s: seq<byte>, pos: nat)
    ensures var r := ReadMetadata(s, pos); r.Got? ==> MetadataAt(s, pos, r.value, r.pos)
    ensures ReadMetadata(s, pos).Fail? ==>
              || pos + 6 > |s| || pos + 6 + s[pos + 5] >= |s|
              || pos + 7 + s[pos + 5] + s[pos + 6 + s[pos + 5]] > |s|
  {
    hide BigEndian, U32, ReadLv;
    if pos + 5 <= |s| {
      FourAt(s, pos + 1);
      SliceOfSlice(s, pos, 5, 1, 5);
      assert s[pos..pos + 5][1..] == s[pos + 1..pos + 5];
      LvIsRead(s, pos + 5);
      var source := ReadLv(s, pos + 5);
      if source.Got? {
        LvIsRead(s, source.pos);
      }
    }
  }

  /** EOF: the condition code in the upper half of the first byte, checksum and size, and up to four TLVs. */
  predicate EofAt(s: seq<byte>, pos: nat, v: Eof, p: nat) {
    && pos + 9 <= |s| && s[pos] / 16 == v.cc && U32(s, pos + 1) == v.crc && U32(s, pos + 5) == v.size
    && TlvsAt(s, pos + 9, v.tlvs, p) && |v.tlvs| <= 4 && (|v.tlvs| == 4 || p >= |s|)
  }

  lemma EofIsRead(s: seq<byte>, pos: nat)
    ensures var r := ReadEof(s, pos); r.Got? ==> EofAt(s, pos, r.value, r.pos)
    ensures pos + 9 == |s| ==> ReadEof(s, pos).Got?
  {
    hide BigEndian, U32, TlvAt, ReadTlv;
    if pos + 9 <= |s| {
      var b := s[pos..pos + 9];
      FourAt(s, pos + 1);
      FourAt(s, pos + 5);
      assert b[1..5] == s[pos + 1..pos + 5] && b[5..] == s[pos + 5..pos + 9];
      TlvsAreRead(s, pos + 9, MAX_TLV);
    }
  }

  /** FIN: condition code in bits 4 to 7, delivery code in bit 2, file status in bits 0 and 1, and up to four TLVs. */
  predicate FinAt(s: seq<byte>, pos: nat, v: Fin, p: nat) {
    && pos < |s| && s[pos] / 16 == v.cc && s[pos] / 4 % 2 == v.deliveryCode && s[pos] % 4 == v.fileStatus
    && TlvsAt(s, pos + 1, v.tlvs, p) && |v.tlvs| <= 4 && (|v.tlvs| == 4 || p >= |s|)
  }

  lemma FinIsRead(s: seq<byte>, pos: nat)
    ensures var r := ReadFin(s, pos); r.Got? ==> FinAt(s, pos, r.value, r.pos)
    ensures pos + 1 == |s| ==> ReadFin(s, pos).Got?
  {
    hide TlvAt, ReadTlv;
    if pos < |s| {
      TlvsAreRead(s, pos + 1, MAX_TLV);
    }
  }

  /** ACK: directive and subtype code in one byte, condition code and transaction status (bits 0 and 1) in the next. */
  predicate AckAt(s: seq<byte>, pos: nat, v: Ack, p: nat) {
    && p == pos + 2 <= |s| && s[pos] == 16 * v.directiveCode + v.subtypeCode && v.subtypeCode < 16
    && s[pos + 1] / 16 == v.cc && s[pos + 1] % 4 == v.txnStatus
  }

  lemma AckIsRead(s: seq<byte>, pos: nat)
    ensures var r := ReadAck(s, pos); if pos + 2 > |s| then r == Fail else r.Got? && AckAt(s, pos, r.value, r.pos)
  {
  }

  /** NAK: the scope, and up to 58 requests. */
  predicate NakAt(s: seq<byte>, pos: nat, v: Nak, p: nat) {
    && pos + 8 <= |s| && U32(s, pos) == v.scopeStart && U32(s, pos + 4) == v.scopeEnd
    && SegmentsAt(s, pos + 8, v.segments, p) && |v.segments| <= 58 && (|v.segments| == 58 || p == |s|)
  }

  lemma NakIsRead(s: seq<byte>, pos: nat)
    ensures var r := ReadNak(s, pos); r.Got? ==> NakAt(s, pos, r.value, r.pos)
    ensures ReadNak(s, pos).Fail? <==> |s| < pos + 8 || (|s| < pos + 8 + 8 * 58 && (|s| - pos) % 8 != 0)
  {
    hide BigEndian, U32, ReadSegment;
    if pos + 8 <= |s| {
      FourAt(s, pos);
      FourAt(s, pos + 4);
      SliceOfSlice(s, pos, 8, 0, 4);
      SliceOfSlice(s, pos, 8, 4, 8);
      assert s[pos..pos + 8][..4] == s[pos..pos + 4] && s[pos..pos + 8][4..] == s[pos + 4..pos + 8];
      SegmentsAreRead(s, pos + 8, MAX_SEGMENTS);
    }
  }

  /** File data: if the header says so, a byte with the continuation state in bits 6 and 7 and the number of segments in
      the others, and the segments; then the offset and the data. */
  predicate FileDataAt(s: seq<byte>, pos: nat, withMeta: bool, v: FileData) {
    var q := if withMeta then pos + 1 + 8 * |v.segments| else pos;
    && q + 4 <= |s| && U32(s, q) == v.offset && v.data == s[q + 4..]
    && (if withMeta then
          && s[pos] == 64 * v.continuationState + |v.segments| && |v.segments| < 64
          && SegmentsAt(s, pos + 1, v.segments, q)
        else v.continuationState == 0 && v.segments == [])
  }

  lemma FileDataIsRead(s: seq<byte>, pos: nat, withMeta: bool)
    ensures var r := ReadFileData(s, pos, withMeta); r.Got? ==> FileDataAt(s, pos, withMeta, r.value) && r.pos == |s|
    ensures ReadFileData(s, pos, withMeta).Fail? <==>
              if withMeta then pos >= |s| || s[pos] % 64 > 58 || pos + 5 + 8 * (s[pos] as int % 64) > |s| else pos + 4 > |s|
  {
    hide BigEndian, U32, ReadSegmentCount, SegmentsAt;
    if withMeta && pos < |s| {
      SegmentCountIsRead(s, pos + 1, s[pos] % 64);
      SegmentsEnd(s, pos + 1);
    }
    var m := ReadMeta(s, pos, withMeta);
    if m.Got? && m.pos + 4 <= |s| {
      FourAt(s, m.pos);
    }
  }

  lemma SegmentsEnd(s: seq<byte>, pos: nat)
    ensures forall vs, p :: SegmentsAt(s, pos, vs, p) ==> p == pos + 8 * |vs|
  {
  }

  // ---------------------------------------------------------------------------------------------------------------
  // What is written
  // ---------------------------------------------------------------------------------------------------------------

  lemma Fitting(x: nat, n: nat)
    requires x < n
    ensures x % n == x
  {
  }

  lemma HeaderByte(h: Header)
    requires h.version < 8 && h.direction < 2 && h.pduType < 2 && h.txmMode < 2 && 1 <= h.eidLength <= 8 && 1 <= h.seqLength <= 8
    ensures HeaderFlags(h) == 32 * h.version + 16 * h.pduType + 8 * h.direction + 4 * h.txmMode
    ensures HeaderLengths(h) == 16 * (h.eidLength - 1) + h.seqLength - 1
  {
    Fitting(h.version, 8);
    Fitting(h.eidLength - 1, 8);
    Fitting(h.seqLength - 1, 8);
  }

  /** Bits that belong to no field are written as zeros, and so are the CRC and large-file flags whatever the header says. */
  lemma SpareBitsAreZero(h: Header, m: Metadata, e: Eof, f: Fin, a: Ack)
    requires h.version < 8 && h.direction < 2 && h.pduType < 2 && h.txmMode < 2 && 1 <= h.eidLength <= 8 && 1 <= h.seqLength <= 8
    requires MetadataFits(m) && EofFits(e) && FinFits(f) && AckFits(a)
    ensures HeaderBytes(h)[0] == 32 * h.version + 16 * h.pduType + 8 * h.direction + 4 * h.txmMode
    ensures HeaderBytes(h)[3] == 16 * (h.eidLength - 1) + h.seqLength - 1
    ensures LvEncodable(m.source) && LvEncodable(m.dest) && MetadataBytes(m)[0] == 128 * m.closeReq + m.checksumType
    ensures TlvsEncodable(e.tlvs) && EofBytes(e)[0] == 16 * e.cc
    ensures TlvsEncodable(f.tlvs) && FinBytes(f)[0] == 16 * f.cc + 4 * f.deliveryCode + f.fileStatus
    ensures AckBytes(a)[1] == 16 * a.cc + a.txnStatus
  {
    hide ToBigEndian, HeaderFlags, HeaderLengths, LvBytes, TlvsBytes;
    HeaderByte(h);
    Fitting(m.closeReq, 2);
    Fitting(m.checksumType, 16);
    Fitting(e.cc, 16);
    Fitting(f.cc, 16);
    Fitting(f.deliveryCode, 2);
    Fitting(f.fileStatus, 4);
    Fitting(a.cc, 16);
    Fitting(a.txnStatus, 4);
  }

  /** What a null data pointer is written as: nothing behind a length of 0, and no LV at all behind any other; data longer than a
      length byte can say is refused too. */
  lemma NullIsWritten(n: nat)
    ensures LvEncodable(Lv(0, None)) && LvBytes(Lv(0, None)) == [0]
    ensures n > 0 ==> !LvEncodable(Lv(n, None)) && !TlvEncodable(Other(2, n, None))
    ensures TlvEncodable(Other(2, 0, None)) && TlvBytes(Other(2, 0, None)) == [2, 0]
    ensures n > 255 ==> forall d: seq<byte> :: !LvEncodable(Lv(n, Some(d)))
  {
  }

  /** Every PDU whose fields fit is written in this layout. */
  lemma DirectivesAreWritten(m: Metadata, e: Eof, f: Fin, a: Ack, n: Nak)
    requires MetadataFits(m) && EofFits(e) && FinFits(f) && AckFits(a) && NakFits(n)
    ensures LvEncodable(m.source) && LvEncodable(m.dest) && MetadataAt(MetadataBytes(m), 0, m, |MetadataBytes(m)|)
    ensures TlvsEncodable(e.tlvs) && EofAt(EofBytes(e), 0, e, |EofBytes(e)|)
    ensures TlvsEncodable(f.tlvs) && FinAt(FinBytes(f), 0, f, |FinBytes(f)|)
    ensures AckAt(AckBytes(a), 0, a, |AckBytes(a)|) && NakAt(NakBytes(n), 0, n, |NakBytes(n)|)
  {
    hide ReadMetadata, ReadEof, ReadFin, ReadAck, ReadNak, MetadataBytes, EofBytes, FinBytes, AckBytes, NakBytes;
    hide MetadataAt, EofAt, FinAt, AckAt, NakAt;
    MetadataSurvivesIff(m);
    MetadataIsRead(MetadataBytes(m), 0);
    EofSurvivesIff(e);
    EofIsRead(EofBytes(e), 0);
    FinSurvivesIff(f);
    FinIsRead(FinBytes(f), 0);
    AckSurvivesIff(a);
    AckIsRead(AckBytes(a), 0);
    NakSurvivesIff(n);
    NakIsRead(NakBytes(n), 0);
  }

  lemma FileDataIsWritten(withMeta: bool, v: FileData)
    requires FileDataFits(withMeta, v)
    ensures FileDataAt(FileDataHeaderBytes(withMeta, v) + v.data, 0, withMeta, v)
  {
    hide ReadFileData, FileDataHeaderBytes, FileDataAt;
    FileDataSurvivesIff(withMeta, v);
    FileDataIsRead(FileDataHeaderBytes(withMeta, v) + v.data, 0, withMeta);
  }
}
