/**
 Reading a PDU returns what was written, exactly for the values that fit (`PduFormat`): for every kind of PDU, wherever it
 stands in a buffer; and whatever is read from any bytes fits, so that it would survive being written again.
 */
module PduRoundTrip {
  import opened Bytes
  import opened PduFormat

  // ---------------------------------------------------------------------------------------------------------------
  // Reading what stands at a position
  // ---------------------------------------------------------------------------------------------------------------

  ghost predicate At(s: seq<byte>, pos: nat, b: seq<byte>) {
    pos + |b| <= |s| && s[pos..pos + |b|] == b
  }

  lemma AtSplits(s: seq<byte>, pos: nat, a: seq<byte>, b: seq<byte>)
    requires At(s, pos, a + b)
    ensures At(s, pos, a) && At(s, pos + |a|, b)
  {
    assert (a + b)[..|a|] == a && (a + b)[|a|..] == b;
    assert s[pos..pos + |a|] == s[pos..pos + |a + b|][..|a|];
    assert s[pos + |a|..pos + |a + b|] == s[pos..pos + |a + b|][|a|..];
  }

  lemma AtWhole(s: seq<byte>)
    ensures At(s, 0, s)
  {
  }

  lemma ReadBytesAt(s: seq<byte>, pos: nat, b: seq<byte>)
    requires At(s, pos, b)
    ensures ReadBytes(s, pos, |b|) == Got(b, pos + |b|)
  {
  }

  lemma ReadIntegerAt(s: seq<byte>, pos: nat, v: nat, n: nat)
    requires At(s, pos, ToBigEndian(v, n)) && v < Pow256(n) && v < UINT64
    ensures ReadInteger(s, pos, n) == Got(v, pos + n)
  {
    hide At, BigEndian, ToBigEndian, Pow256, ReadBytes;
    ReadBytesAt(s, pos, ToBigEndian(v, n));
    BigEndianExact(v, n);
  }

  lemma PowersUpTo4(n: nat)
    requires n <= 4
    ensures Pow256(n) <= UINT32
  {
    PowValues();
    assert Pow256(3) == 0x100_0000;
  }

  lemma FlagBits(a: nat, b: nat, c: nat, d: nat)
    requires a < 8 && b < 2 && c < 2 && d < 2
    ensures var f := 32 * a + 16 * b + 8 * c + 4 * d;
            && f / 32 == a && f / 16 == 2 * a + b && f / 8 == 4 * a + 2 * b + c && f / 4 == 8 * a + 4 * b + 2 * c + d
            && f / 2 == 2 * (f / 4) && f == 4 * (f / 4)
  {
  }

  lemma FieldsOfFlags(h: Header)
    ensures var f := HeaderFlags(h);
            && FieldGet(f, 32, 8) == h.version % 8 && FieldGet(f, 16, 2) == h.pduType % 2
            && FieldGet(f, 8, 2) == h.direction % 2 && FieldGet(f, 4, 2) == h.txmMode % 2
            && FieldGet(f, 2, 2) == 0 && FieldGet(f, 1, 2) == 0
  {
    FlagBits(h.version % 8, h.pduType % 2, h.direction % 2, h.txmMode % 2);
  }

  lemma FieldsOfLengths(h: Header)
    ensures var f := HeaderLengths(h);
            FieldGet(f, 16, 8) == (h.eidLength - 1) % 8 && FieldGet(f, 1, 8) == (h.seqLength - 1) % 8
  {
  }

  /** A header that fits is read back, wherever it stands. */
  lemma ReadHeaderAt(s: seq<byte>, pos: nat, h: Header)
    requires HeaderFits(h) && At(s, pos, HeaderBytes(h))
    ensures ReadHeader(s, pos) == Got(Accepted(h), pos + |HeaderBytes(h)|)
  {
    hide HeaderFlags, HeaderLengths, FieldGet, At, BigEndian, ToBigEndian, Pow256, ReadBytes, ReadInteger;
    var fixed := [HeaderFlags(h)] + ToBigEndian(h.dataLength, 2) + [HeaderLengths(h)];
    var a, b, c := ToBigEndian(h.sourceEid, h.eidLength), ToBigEndian(h.sequenceNum, h.seqLength),
                   ToBigEndian(h.destinationEid, h.eidLength);
    assert HeaderBytes(h) == fixed + a + b + c;
    AtSplits(s, pos, fixed + a + b, c);
    AtSplits(s, pos, fixed + a, b);
    AtSplits(s, pos, fixed, a);
    ReadBytesAt(s, pos, fixed);
    FieldsOfFlags(h);
    FieldsOfLengths(h);
    PowersUpTo4(h.eidLength);
    PowersUpTo4(h.seqLength);
    ReadIntegerAt(s, pos + 4, h.sourceEid, h.eidLength);
    ReadIntegerAt(s, pos + 4 + |a|, h.sequenceNum, h.seqLength);
    ReadIntegerAt(s, pos + 4 + |a| + |b|, h.destinationEid, h.eidLength);
    PowValues();
    BigEndianExact(h.dataLength, 2);
    assert fixed[1..3] == ToBigEndian(h.dataLength, 2);
  }

  // ---------------------------------------------------------------------------------------------------------------
  // The variable parts
  // ---------------------------------------------------------------------------------------------------------------

  lemma ReadLvAt(s: seq<byte>, pos: nat, v: Lv)
    requires LvFits(v) && At(s, pos, LvBytes(v))
    ensures ReadLv(s, pos) == Got(v, pos + |LvBytes(v)|)
  {
    AtSplits(s, pos, [v.length], v.data.value);
    ReadBytesAt(s, pos, [v.length]);
    ReadBytesAt(s, pos + 1, v.data.value);
  }

  lemma ReadTlvAt(s: seq<byte>, pos: nat, v: Tlv)
    requires TlvFits(v) && At(s, pos, TlvBytes(v))
    ensures ReadTlv(s, pos) == Got(v, pos + |TlvBytes(v)|)
  {
    hide BigEndian, ToBigEndian, Pow256, At, ReadBytes, ReadInteger;
    match v
    case EntityId(n, eid) =>
      AtSplits(s, pos, [ENTITY_ID, n], ToBigEndian(eid, n));
      ReadBytesAt(s, pos, [ENTITY_ID, n]);
      ReadIntegerAt(s, pos + 2, eid, n);
    case Other(t, n, data) =>
      assert TlvBytes(v) == [t, n] + data.value;
      AtSplits(s, pos, [t, n], data.value);
      ReadBytesAt(s, pos, [t, n]);
      ReadBytesAt(s, pos + 2, data.value);
  }

  lemma TlvIsNotEmpty(v: Tlv)
    requires TlvEncodable(v)
    ensures |TlvBytes(v)| >= 2
  {
  }

  /** TLVs that end where the bytes end. */
  lemma {:induction false} ReadTlvsAt(s: seq<byte>, pos: nat, vs: seq<Tlv>, limit: nat)
    requires |vs| <= limit && TlvsEncodable(vs) && (forall i :: 0 <= i < |vs| ==> TlvFits(vs[i]))
    requires At(s, pos, TlvsBytes(vs)) && pos + |TlvsBytes(vs)| == |s|
    ensures ReadTlvs(s, pos, limit) == Got(vs, |s|)
    decreases limit
  {
    hide At, TlvBytes, TlvFits, TlvEncodable, ReadTlv;
    if vs != [] {
      TlvIsNotEmpty(vs[0]);
      AtSplits(s, pos, TlvBytes(vs[0]), TlvsBytes(vs[1..]));
      ReadTlvAt(s, pos, vs[0]);
      ReadTlvsAt(s, pos + |TlvBytes(vs[0])|, vs[1..], limit - 1);
      assert [vs[0]] + vs[1..] == vs;
    }
  }

  lemma ReadSegmentAt(s: seq<byte>, pos: nat, v: Segment)
    requires SegmentFits(v) && At(s, pos, SegmentBytes(v))
    ensures ReadSegment(s, pos) == Got(v, pos + 8)
  {
    hide At, BigEndian, ToBigEndian, Pow256, ReadBytes;
    ReadBytesAt(s, pos, SegmentBytes(v));
    PowValues();
    BigEndianExact(v.offsetStart, 4);
    BigEndianExact(v.offsetEnd, 4);
    assert SegmentBytes(v)[..4] == ToBigEndian(v.offsetStart, 4);
    assert SegmentBytes(v)[4..] == ToBigEndian(v.offsetEnd, 4);
  }

  lemma {:induction false} ReadSegmentsAt(s: seq<byte>, pos: nat, vs: seq<Segment>, limit: nat)
    requires |vs| <= limit && (forall i :: 0 <= i < |vs| ==> SegmentFits(vs[i]))
    requires At(s, pos, SegmentsBytes(vs)) && pos + 8 * |vs| == |s|
    ensures ReadSegments(s, pos, limit) == Got(vs, |s|)
    decreases limit
  {
    hide At, SegmentBytes, SegmentFits, ReadSegment;
    if vs != [] {
      AtSplits(s, pos, SegmentBytes(vs[0]), SegmentsBytes(vs[1..]));
      ReadSegmentAt(s, pos, vs[0]);
      ReadSegmentsAt(s, pos + 8, vs[1..], limit - 1);
      assert [vs[0]] + vs[1..] == vs;
    }
  }

  lemma {:induction false} ReadSegmentCountAt(s: seq<byte>, pos: nat, vs: seq<Segment>)
    requires (forall i :: 0 <= i < |vs| ==> SegmentFits(vs[i])) && At(s, pos, SegmentsBytes(vs))
    ensures ReadSegmentCount(s, pos, |vs|) == Got(vs, pos + 8 * |vs|)
    decreases |vs|
  {
    hide At, SegmentBytes, SegmentFits, ReadSegment;
    if vs != [] {
      AtSplits(s, pos, SegmentBytes(vs[0]), SegmentsBytes(vs[1..]));
      ReadSegmentAt(s, pos, vs[0]);
      ReadSegmentCountAt(s, pos + 8, vs[1..]);
      assert [vs[0]] + vs[1..] == vs;
    }
  }

  // ---------------------------------------------------------------------------------------------------------------
  // The PDUs
  // ---------------------------------------------------------------------------------------------------------------

  lemma ReadMetadataAt(s: seq<byte>, pos: nat, v: Metadata)
    requires MetadataFits(v) && At(s, pos, MetadataBytes(v))
    ensures ReadMetadata(s, pos) == Got(v, pos + |MetadataBytes(v)|)
  {
    hide At, BigEndian, ToBigEndian, Pow256, ReadBytes, ReadLv, LvBytes, LvFits;
    var fixed := [128 * (v.closeReq % 2) + v.checksumType % 16] + ToBigEndian(v.size, 4);
    assert LvEncodable(v.source) && LvEncodable(v.dest) by {
      LvFitsIsEncodable(v.source);
      LvFitsIsEncodable(v.dest);
    }
    AtSplits(s, pos, fixed + LvBytes(v.source), LvBytes(v.dest));
    AtSplits(s, pos, fixed, LvBytes(v.source));
    ReadBytesAt(s, pos, fixed);
    ReadLvAt(s, pos + 5, v.source);
    ReadLvAt(s, pos + 5 + |LvBytes(v.source)|, v.dest);
    PowValues();
    BigEndianExact(v.size, 4);
    assert fixed[1..] == ToBigEndian(v.size, 4);
  }

  lemma LvFitsIsEncodable(v: Lv)
    requires LvFits(v)
    ensures LvEncodable(v)
  {
  }

  lemma ReadEofAt(s: seq<byte>, pos: nat, v: Eof)
    requires EofFits(v) && TlvsEncodable(v.tlvs) && At(s, pos, EofBytes(v)) && pos + |EofBytes(v)| == |s|
    ensures ReadEof(s, pos) == Got(v, |s|)
  {
    hide At, BigEndian, ToBigEndian, Pow256, ReadBytes, ReadTlvs, TlvsBytes, TlvFits, TlvEncodable;
    var fixed := [16 * (v.cc % 16)] + ToBigEndian(v.crc, 4) + ToBigEndian(v.size, 4);
    AtSplits(s, pos, fixed, TlvsBytes(v.tlvs));
    ReadBytesAt(s, pos, fixed);
    ReadTlvsAt(s, pos + 9, v.tlvs, MAX_TLV);
    PowValues();
    BigEndianExact(v.crc, 4);
    BigEndianExact(v.size, 4);
    assert fixed[1..5] == ToBigEndian(v.crc, 4);
    assert fixed[5..] == ToBigEndian(v.size, 4);
  }

  lemma ReadFinAt(s: seq<byte>, pos: nat, v: Fin)
    requires FinFits(v) && TlvsEncodable(v.tlvs) && At(s, pos, FinBytes(v)) && pos + |FinBytes(v)| == |s|
    ensures ReadFin(s, pos) == Got(v, |s|)
  {
    hide At, ReadBytes, ReadTlvs, TlvsBytes, TlvFits, TlvEncodable, FieldGet;
    var fixed: seq<byte> := [16 * (v.cc % 16) + 4 * (v.deliveryCode % 2) + v.fileStatus % 4];
    AtSplits(s, pos, fixed, TlvsBytes(v.tlvs));
    ReadBytesAt(s, pos, fixed);
    ReadTlvsAt(s, pos + 1, v.tlvs, MAX_TLV);
    FieldsOfFin(v.cc, v.deliveryCode, v.fileStatus);
  }

  lemma FieldsOfFin(a: nat, b: nat, c: nat)
    requires a < 16 && b < 2 && c < 4
    ensures var f := 16 * a + 4 * b + c; FieldGet(f, 16, 16) == a && FieldGet(f, 4, 2) == b && FieldGet(f, 1, 4) == c
  {
  }

  lemma ReadAckAt(s: seq<byte>, pos: nat, v: Ack)
    requires AckFits(v) && At(s, pos, AckBytes(v))
    ensures ReadAck(s, pos) == Got(v, pos + 2)
  {
    hide At, ReadBytes, FieldGet;
    ReadBytesAt(s, pos, AckBytes(v));
    FieldsOfPair(v.directiveCode, v.subtypeCode);
    FieldsOfPair(v.cc, v.txnStatus);
  }

  lemma FieldsOfPair(hi: nat, lo: nat)
    requires hi < 16 && lo < 16
    ensures FieldGet(16 * hi + lo, 16, 16) == hi && FieldGet(16 * hi + lo, 1, 16) == lo
    ensures lo < 4 ==> FieldGet(16 * hi + lo, 1, 4) == lo
  {
  }

  lemma ReadNakAt(s: seq<byte>, pos: nat, v: Nak)
    requires NakFits(v) && At(s, pos, NakBytes(v)) && pos + |NakBytes(v)| == |s|
    ensures ReadNak(s, pos) == Got(v, |s|)
  {
    hide At, BigEndian, ToBigEndian, Pow256, ReadBytes, ReadSegments, SegmentsBytes, SegmentFits;
    var fixed := ToBigEndian(v.scopeStart, 4) + ToBigEndian(v.scopeEnd, 4);
    AtSplits(s, pos, fixed, SegmentsBytes(v.segments));
    ReadBytesAt(s, pos, fixed);
    ReadSegmentsAt(s, pos + 8, v.segments, MAX_SEGMENTS);
    PowValues();
    BigEndianExact(v.scopeStart, 4);
    BigEndianExact(v.scopeEnd, 4);
    assert fixed[..4] == ToBigEndian(v.scopeStart, 4);
    assert fixed[4..] == ToBigEndian(v.scopeEnd, 4);
  }

  /** The optional part of a file-data header. */
  lemma ReadMetaAt(s: seq<byte>, pos: nat, v: FileData)
    requires FileDataFits(true, v)
    requires At(s, pos, [64 * (v.continuationState % 4) + |v.segments| % 64] + SegmentsBytes(v.segments))
    ensures var b: byte := 64 * (v.continuationState % 4) + |v.segments| % 64;
            ReadMeta(s, pos, true) == Got((v.continuationState, v.segments), pos + 1 + 8 * |v.segments|)
  {
    hide At, ReadBytes, ReadSegmentCount, SegmentsBytes, SegmentFits;
    var b: seq<byte> := [64 * (v.continuationState % 4) + |v.segments| % 64];
    AtSplits(s, pos, b, SegmentsBytes(v.segments));
    ReadBytesAt(s, pos, b);
    ReadSegmentCountAt(s, pos + 1, v.segments);
  }

  lemma ReadFileDataAt(s: seq<byte>, pos: nat, withMeta: bool, v: FileData)
    requires FileDataFits(withMeta, v) && At(s, pos, FileDataHeaderBytes(withMeta, v) + v.data)
    requires pos + |FileDataHeaderBytes(withMeta, v) + v.data| == |s|
    ensures ReadFileData(s, pos, withMeta) == Got(v, |s|)
  {
    hide At, BigEndian, ToBigEndian, Pow256, ReadBytes, ReadSegmentCount, SegmentsBytes, SegmentFits, FieldGet;
    assert !withMeta ==> ReadMeta(s, pos, withMeta) == Got((0, []), pos);
    var meta := if withMeta then [64 * (v.continuationState % 4) + |v.segments| % 64] + SegmentsBytes(v.segments) else [];
    AtSplits(s, pos, FileDataHeaderBytes(withMeta, v), v.data);
    AtSplits(s, pos, meta, ToBigEndian(v.offset, 4));
    if withMeta {
      ReadMetaAt(s, pos, v);
    }
    ReadBytesAt(s, pos + |meta|, ToBigEndian(v.offset, 4));
    AtEnd(s, pos + |meta| + 4, v.data);
    PowValues();
    BigEndianExact(v.offset, 4);
  }

  lemma AtEnd(s: seq<byte>, pos: nat, b: seq<byte>)
    requires At(s, pos, b) && pos + |b| == |s|
    ensures s[pos..] == b
  {
  }

  // ---------------------------------------------------------------------------------------------------------------
  // Whatever is read fits
  // ---------------------------------------------------------------------------------------------------------------

  lemma ReadBytesGives(s: seq<byte>, pos: nat, n: nat)
    ensures ReadBytes(s, pos, n).Got? ==> |ReadBytes(s, pos, n).value| == n
  {
  }

  lemma ReadIntegerGives(s: seq<byte>, pos: nat, n: nat)
    ensures var r := ReadInteger(s, pos, n); r.Got? ==> r.value < Pow256(n) && r.value % UINT32 < Pow256(n)
  {
    if ReadBytes(s, pos, n).Got? {
      var v := BigEndian(ReadBytes(s, pos, n).value);
      assert v % UINT64 <= v && (v % UINT64) % UINT32 <= v;
    }
  }

  lemma BigEndianGives(b: seq<byte>)
    requires |b| == 4 || |b| == 2
    ensures BigEndian(b) < if |b| == 4 then UINT32 else 0x1_0000
  {
    PowValues();
  }

  lemma ReadHeaderFits(s: seq<byte>, pos: nat)
    ensures var r := ReadHeader(s, pos);
            r.Got? && r.value.Accepted? ==> HeaderFits(r.value.header.(crcFlag := 0, largeFlag := 0))
  {
    hide BigEndian, Pow256, ReadBytes, ReadInteger, FieldGet;
    ReadBytesGives(s, pos, 4);
    if ReadBytes(s, pos, 4).Got? {
      var b := ReadBytes(s, pos, 4).value;
      BigEndianGives(b[1..3]);
      FieldGives(b[0], 32, 8);
      FieldGives(b[0], 8, 2);
      FieldGives(b[0], 16, 2);
      FieldGives(b[0], 4, 2);
      var eidLength, seqLength := FieldGet(b[3], 16, 8) + 1, FieldGet(b[3], 1, 8) + 1;
      ReadIntegerGives(s, pos + 4, eidLength);
      ReadBytesMoves(s, pos, 4);
      var source := ReadInteger(s, pos + 4, eidLength);
      if source.Got? {
        ReadIntegerGives(s, source.pos, seqLength);
        var number := ReadInteger(s, source.pos, seqLength);
        if number.Got? {
          ReadIntegerGives(s, number.pos, eidLength);
        }
      }
    }
  }

  lemma ReadBytesMoves(s: seq<byte>, pos: nat, n: nat)
    ensures ReadBytes(s, pos, n).Got? ==> ReadBytes(s, pos, n).pos == pos + n
  {
  }

  lemma FieldGives(src: nat, unit: nat, size: nat)
    requires unit > 0 && size > 0
    ensures FieldGet(src, unit, size) < size
  {
  }

  lemma ReadLvFits(s: seq<byte>, pos: nat)
    ensures ReadLv(s, pos).Got? ==> LvFits(ReadLv(s, pos).value)
  {
  }

  lemma ReadTlvFits(s: seq<byte>, pos: nat)
    ensures ReadTlv(s, pos).Got? ==> TlvFits(ReadTlv(s, pos).value)
  {
    hide BigEndian, Pow256, ReadBytes, ReadInteger;
    ReadBytesGives(s, pos, 2);
    if ReadBytes(s, pos, 2).Got? {
      var b, p := ReadBytes(s, pos, 2).value, ReadBytes(s, pos, 2).pos;
      ReadIntegerGives(s, p, b[1]);
      ReadBytesGives(s, p, b[1]);
    }
  }

  lemma {:induction false} ReadTlvsFit(s: seq<byte>, pos: nat, limit: nat)
    ensures var r := ReadTlvs(s, pos, limit);
            r.Got? ==> |r.value| <= limit && forall i :: 0 <= i < |r.value| ==> TlvFits(r.value[i])
    decreases limit
  {
    hide TlvFits, ReadTlv;
    if limit > 0 && pos < |s| {
      ReadTlvFits(s, pos);
      if ReadTlv(s, pos).Got? {
        ReadTlvsFit(s, ReadTlv(s, pos).pos, limit - 1);
      }
    }
  }

  lemma ReadSegmentFits(s: seq<byte>, pos: nat)
    ensures ReadSegment(s, pos).Got? ==> SegmentFits(ReadSegment(s, pos).value)
  {
    hide BigEndian, Pow256, ReadBytes;
    ReadBytesGives(s, pos, 8);
    if ReadBytes(s, pos, 8).Got? {
      BigEndianGives(ReadBytes(s, pos, 8).value[..4]);
      BigEndianGives(ReadBytes(s, pos, 8).value[4..]);
    }
  }

  lemma {:induction false} ReadSegmentsFit(s: seq<byte>, pos: nat, limit: nat)
    ensures var r := ReadSegments(s, pos, limit);
            r.Got? ==> |r.value| <= limit && forall i :: 0 <= i < |r.value| ==> SegmentFits(r.value[i])
    decreases limit
  {
    hide SegmentFits, ReadSegment;
    if limit > 0 && pos < |s| {
      ReadSegmentFits(s, pos);
      if ReadSegment(s, pos).Got? {
        ReadSegmentsFit(s, ReadSegment(s, pos).pos, limit - 1);
      }
    }
  }

  lemma {:induction false} ReadSegmentCountFits(s: seq<byte>, pos: nat, n: nat)
    ensures var r := ReadSegmentCount(s, pos, n);
            r.Got? ==> |r.value| == n && forall i :: 0 <= i < |r.value| ==> SegmentFits(r.value[i])
    decreases n
  {
    hide SegmentFits, ReadSegment;
    if n > 0 {
      ReadSegmentFits(s, pos);
      if ReadSegment(s, pos).Got? {
        ReadSegmentCountFits(s, ReadSegment(s, pos).pos, n - 1);
      }
    }
  }

  lemma ReadMetadataFits(s: seq<byte>, pos: nat)
    ensures ReadMetadata(s, pos).Got? ==> MetadataFits(ReadMetadata(s, pos).value)
  {
    hide BigEndian, Pow256, ReadBytes, ReadLv, LvFits, FieldGet;
    ReadBytesGives(s, pos, 5);
    if ReadBytes(s, pos, 5).Got? {
      var b, p := ReadBytes(s, pos, 5).value, ReadBytes(s, pos, 5).pos;
      BigEndianGives(b[1..]);
      FieldGives(b[0], 128, 2);
      FieldGives(b[0], 1, 16);
      ReadLvFits(s, p);
      if ReadLv(s, p).Got? {
        ReadLvFits(s, ReadLv(s, p).pos);
      }
    }
  }

  lemma ReadEofFits(s: seq<byte>, pos: nat)
    ensures ReadEof(s, pos).Got? ==> EofFits(ReadEof(s, pos).value)
  {
    hide BigEndian, Pow256, ReadBytes, ReadTlvs, TlvFits, FieldGet;
    ReadBytesGives(s, pos, 9);
    if ReadBytes(s, pos, 9).Got? {
      var b := ReadBytes(s, pos, 9).value;
      BigEndianGives(b[1..5]);
      BigEndianGives(b[5..]);
      FieldGives(b[0], 16, 16);
      ReadTlvsFit(s, ReadBytes(s, pos, 9).pos, MAX_TLV);
    }
  }

  lemma ReadFinFits(s: seq<byte>, pos: nat)
    ensures ReadFin(s, pos).Got? ==> FinFits(ReadFin(s, pos).value)
  {
    hide ReadBytes, ReadTlvs, TlvFits, FieldGet;
    ReadBytesGives(s, pos, 1);
    if ReadBytes(s, pos, 1).Got? {
      var b := ReadBytes(s, pos, 1).value;
      FieldGives(b[0], 16, 16);
      FieldGives(b[0], 4, 2);
      FieldGives(b[0], 1, 4);
      ReadTlvsFit(s, ReadBytes(s, pos, 1).pos, MAX_TLV);
    }
  }

  lemma ReadAckFits(s: seq<byte>, pos: nat)
    ensures ReadAck(s, pos).Got? ==> AckFits(ReadAck(s, pos).value)
  {
  }

  lemma ReadNakFits(s: seq<byte>, pos: nat)
    ensures ReadNak(s, pos).Got? ==> NakFits(ReadNak(s, pos).value)
  {
    hide BigEndian, Pow256, ReadBytes, ReadSegments, SegmentFits;
    ReadBytesGives(s, pos, 8);
    if ReadBytes(s, pos, 8).Got? {
      var b := ReadBytes(s, pos, 8).value;
      BigEndianGives(b[..4]);
      BigEndianGives(b[4..]);
      ReadSegmentsFit(s, ReadBytes(s, pos, 8).pos, MAX_SEGMENTS);
    }
  }

  lemma ReadFileDataFits(s: seq<byte>, pos: nat, withMeta: bool)
    ensures ReadFileData(s, pos, withMeta).Got? ==> FileDataFits(withMeta, ReadFileData(s, pos, withMeta).value)
  {
    hide BigEndian, Pow256, ReadBytes, ReadSegmentCount, SegmentFits, FieldGet;
    var p := pos;
    if withMeta {
      ReadBytesGives(s, pos, 1);
      if ReadBytes(s, pos, 1).Got? {
        var b := ReadBytes(s, pos, 1).value;
        FieldGives(b[0], 64, 4);
        var list := ReadSegmentCount(s, ReadBytes(s, pos, 1).pos, FieldGet(b[0], 1, 64));
        ReadSegmentCountFits(s, ReadBytes(s, pos, 1).pos, FieldGet(b[0], 1, 64));
        p := if list.Got? then list.pos else pos;
      }
    }
    ReadBytesGives(s, p, 4);
    if ReadBytes(s, p, 4).Got? {
      BigEndianGives(ReadBytes(s, p, 4).value);
    }
  }

  // ---------------------------------------------------------------------------------------------------------------
  // Exactly which values survive
  // ---------------------------------------------------------------------------------------------------------------

  /** A header survives exactly if its fields fit, both lengths are 1 to 4 and neither flag that the encoder leaves out is
      set. */
  lemma HeaderSurvivesIff(h: Header)
    ensures ReadHeader(HeaderBytes(h), 0) == Got(Accepted(h), |HeaderBytes(h)|) <==> HeaderFits(h)
  {
    var s := HeaderBytes(h);
    AtWhole(s);
    if HeaderFits(h) {
      ReadHeaderAt(s, 0, h);
    } else if ReadHeader(s, 0) == Got(Accepted(h), |s|) {
      ReadHeaderFits(s, 0);
      FieldsOfFlags(h);
      assert false;
    }
  }

  lemma MetadataSurvivesIff(v: Metadata)
    requires LvEncodable(v.source) && LvEncodable(v.dest)
    ensures ReadMetadata(MetadataBytes(v), 0) == Got(v, |MetadataBytes(v)|) <==> MetadataFits(v)
  {
    hide *;
    AtWhole(MetadataBytes(v));
    ReadMetadataFits(MetadataBytes(v), 0);
    if MetadataFits(v) {
      ReadMetadataAt(MetadataBytes(v), 0, v);
    }
  }

  lemma EofSurvivesIff(v: Eof)
    requires TlvsEncodable(v.tlvs)
    ensures ReadEof(EofBytes(v), 0) == Got(v, |EofBytes(v)|) <==> EofFits(v)
  {
    hide *;
    AtWhole(EofBytes(v));
    ReadEofFits(EofBytes(v), 0);
    if EofFits(v) {
      ReadEofAt(EofBytes(v), 0, v);
    }
  }

  lemma FinSurvivesIff(v: Fin)
    requires TlvsEncodable(v.tlvs)
    ensures ReadFin(FinBytes(v), 0) == Got(v, |FinBytes(v)|) <==> FinFits(v)
  {
    hide *;
    AtWhole(FinBytes(v));
    ReadFinFits(FinBytes(v), 0);
    if FinFits(v) {
      ReadFinAt(FinBytes(v), 0, v);
    }
  }

  lemma AckSurvivesIff(v: Ack)
    ensures ReadAck(AckBytes(v), 0) == Got(v, |AckBytes(v)|) <==> AckFits(v)
  {
    hide *;
    AtWhole(AckBytes(v));
    ReadAckFits(AckBytes(v), 0);
    assert |AckBytes(v)| == 2 by { AckLength(v); }
    if AckFits(v) {
      ReadAckAt(AckBytes(v), 0, v);
    }
  }

  lemma AckLength(v: Ack)
    ensures |AckBytes(v)| == 2
  {
  }

  lemma NakSurvivesIff(v: Nak)
    ensures ReadNak(NakBytes(v), 0) == Got(v, |NakBytes(v)|) <==> NakFits(v)
  {
    hide *;
    AtWhole(NakBytes(v));
    ReadNakFits(NakBytes(v), 0);
    if NakFits(v) {
      ReadNakAt(NakBytes(v), 0, v);
    }
  }

  lemma FileDataSurvivesIff(withMeta: bool, v: FileData)
    ensures var s := FileDataHeaderBytes(withMeta, v) + v.data;
            ReadFileData(s, 0, withMeta) == Got(v, |s|) <==> FileDataFits(withMeta, v)
  {
    hide *;
    var s := FileDataHeaderBytes(withMeta, v) + v.data;
    AtWhole(s);
    ReadFileDataFits(s, 0, withMeta);
    if FileDataFits(withMeta, v) {
      ReadFileDataAt(s, 0, withMeta, v);
    }
  }
}
