/**
 A whole NAK PDU: how the receiver assembles it (`CF_CFDP_ConstructPduHeader`, `CF_CFDP_SendNak`), that it always fits the
 buffer of a PDU, and that it is read back (`CF_CFDP_RecvPh`, `CF_CFDP_RecvNak`) as it was meant.
 */
module NakPdu {
  import opened Bytes
  import opened Options
  import opened PduFormat
  import opened PduRoundTrip
  import opened PduEncoder
  import opened PduDecoder
  import opened ChunkTheory
  import opened NakRequests
  import opened WireFormat

  const NAK_DIRECTIVE: nat := 8

  /** `CF_MAX_PDU_SIZE`. */
  const MAX_PDU_SIZE: nat := 512

  function NakBody(nak: Nak): (s: seq<byte>)
    ensures |s| == 9 + 8 * |nak.segments|
  {
    [NAK_DIRECTIVE] + NakBytes(nak)
  }

  function NakPacket(h: Header, nak: Nak): seq<byte> {
    HeaderBytes(h) + NakBody(nak)
  }

  /** What `CF_CFDP_ConstructPduHeader` puts into the header of a NAK: towards the sender, class 2, and as few bytes as the
      larger entity id and the sequence number need. */
  predicate IsNakHeader(h: Header, source: nat, destination: nat, number: nat) {
    && h.version == 1 && h.pduType == 0 && h.direction == 1 && h.txmMode == 0 && h.crcFlag == 0 && h.largeFlag == 0
    && h.sourceEid == source && h.destinationEid == destination && h.sequenceNum == number
    && 1 <= h.eidLength <= EID_SIZE && source < Pow256(h.eidLength) && destination < Pow256(h.eidLength)
    && 1 <= h.seqLength <= EID_SIZE && number < Pow256(h.seqLength)
    && (h.eidLength > 1 ==> source >= Pow256(h.eidLength - 1) || destination >= Pow256(h.eidLength - 1))
    && (h.seqLength > 1 ==> number >= Pow256(h.seqLength - 1))
  }

  /** The header part of `CF_CFDP_ConstructPduHeader`. */
  method NakHeader(source: nat, destination: nat, number: nat) returns (h: Header)
    requires source < UINT32 && destination < UINT32 && number < UINT32
    ensures IsNakHeader(h, source, destination, number)
  {
    var eidLength;
    if source > destination {
      eidLength := GetValueEncodedSize(source);
    } else {
      eidLength := GetValueEncodedSize(destination);
    }
    var seqLength := GetValueEncodedSize(number);
    PowValues();
    h := Header(1, 1, 0, 0, 0, 0, eidLength, seqLength, 0, source, number, destination);
  }

  lemma HeaderLength(h: Header, gap: seq<byte>)
    requires |gap| == 2
    ensures |UnsizedHeaderBytes(h, gap)| == 4 + 2 * h.eidLength + h.seqLength
    ensures |HeaderBytes(h)| == 4 + 2 * h.eidLength + h.seqLength
  {
  }

  /** Filling in the two bytes completes the packet. */
  lemma SizeCompletes(h: Header, gap: seq<byte>, body: seq<byte>, rest: seq<byte>, dataLength: nat)
    requires |gap| == 2
    ensures |UnsizedHeaderBytes(h, gap)| >= 4
    ensures Spliced(UnsizedHeaderBytes(h, gap) + body + rest, 1, ToBigEndian(dataLength, 2))
            == HeaderBytes(h.(dataLength := dataLength)) + body + rest
  {
    hide HeaderFlags, HeaderLengths, ToBigEndian;
    var tail := [HeaderLengths(h)] + ToBigEndian(h.sourceEid, h.eidLength) + ToBigEndian(h.sequenceNum, h.seqLength)
                + ToBigEndian(h.destinationEid, h.eidLength);
    var h' := h.(dataLength := dataLength);
    assert HeaderFlags(h') == HeaderFlags(h) && HeaderLengths(h') == HeaderLengths(h) by { SameFields(h, dataLength); }
    assert UnsizedHeaderBytes(h, gap) == [HeaderFlags(h)] + gap + tail;
    assert HeaderBytes(h') == [HeaderFlags(h)] + ToBigEndian(dataLength, 2) + tail;
    SplicedMiddle([HeaderFlags(h)], gap, tail + body + rest, ToBigEndian(dataLength, 2));
    assert [HeaderFlags(h)] + gap + tail + body + rest == [HeaderFlags(h)] + gap + (tail + body + rest);
    assert [HeaderFlags(h)] + ToBigEndian(dataLength, 2) + tail + body + rest
        == [HeaderFlags(h)] + ToBigEndian(dataLength, 2) + (tail + body + rest);
  }

  lemma SameFields(h: Header, dataLength: nat)
    ensures HeaderFlags(h.(dataLength := dataLength)) == HeaderFlags(h)
    ensures HeaderLengths(h.(dataLength := dataLength)) == HeaderLengths(h)
  {
  }

  lemma SplicedMiddle(a: seq<byte>, b: seq<byte>, c: seq<byte>, x: seq<byte>)
    requires |x| == |b|
    ensures Spliced(a + b + c, |a|, x) == a + x + c
  {
  }

  lemma SplicedFromStart(buffer: seq<byte>, x: seq<byte>)
    requires |x| <= |buffer|
    ensures Spliced(buffer, 0, x) == x + buffer[|x|..]
  {
  }

  /** What the length field gets: the position less the length of the header, in 16 bits, or what it was if that makes no
      sense. */
  function FinalLength(position: nat, headerLength: nat, before: nat): nat {
    if position % 0x1_0000 >= headerLength then position % 0x1_0000 - headerLength else before
  }

  /** The position counts in 16 bits: a PDU of 65541 bytes would be taken for one of 5. */
  lemma LengthWraps(position: nat, headerLength: nat, before: nat)
    ensures headerLength <= position < 0x1_0000 ==> FinalLength(position, headerLength, before) == position - headerLength
    ensures position < headerLength ==> FinalLength(position, headerLength, before) == before
    ensures FinalLength(0x1_0005, 4, before) == 1
  {
  }

  /** `CF_CFDP_SetPduLength`. */
  method SetPduLength(enc: Encoder, headerLength: nat, before: nat) returns (dataLength: nat)
    requires enc.Valid()
    modifies enc, enc.base
    ensures enc.Valid() && dataLength == FinalLength(old(enc.nextOffset), headerLength, before)
    ensures enc.Now() == old(enc.Now()).(isValid := false,
                                         buffer := if old(enc.isValid && enc.nextOffset >= 4)
                                                   then Spliced(old(enc.base[..]), 1, ToBigEndian(dataLength, 2))
                                                   else old(enc.base[..]))
  {
    dataLength := before;
    var finalPos := enc.nextOffset % 0x1_0000;
    if finalPos >= headerLength {
      dataLength := finalPos - headerLength;
    }
    enc.EncodeHeaderFinalSize(dataLength);
  }

  /** The parts of a NAK in the order in which they are written. */
  ghost function UnsizedNak(h: Header, gap: seq<byte>, nak: Nak): seq<byte> {
    UnsizedHeaderBytes(h, gap) + NakBody(nak)
  }

  /** Header, directive code and NAK are written one after the other, all of them or an invalid encoder. */
  method EncodeUnsized(enc: Encoder, h: Header, nak: Nak) returns (headerLength: Option<nat>)
    requires enc.Valid() && HeaderTyped(h) && |nak.segments| <= MAX_SEGMENTS
    modifies enc, enc.base
    ensures enc.Valid() && Wrote(old(enc.Now()), enc.Now(), Some(UnsizedNak(h, SizeGap(old(enc.Now())), nak)))
    ensures enc.isValid ==>
      headerLength == Some(old(enc.nextOffset) + |UnsizedHeaderBytes(h, SizeGap(old(enc.Now())))|)
  {
    hide Wrote, UnsizedHeaderBytes, NakBytes, Spliced, Join, SizeGap, HeaderTyped;
    ghost var s0 := enc.Now();
    ghost var head := UnsizedHeaderBytes(h, SizeGap(s0));
    headerLength := enc.EncodeHeaderWithoutSize(h);
    ghost var s1 := enc.Now();
    WroteMoves(s0, s1, head);
    enc.EncodeFileDirectiveHeader(NAK_DIRECTIVE);
    ghost var s2 := enc.Now();
    WroteThen(s0, s1, s2, Some(head), Some([NAK_DIRECTIVE as byte]));
    WroteMoves(s1, s2, [NAK_DIRECTIVE as byte]);
    JoinIs(head, [NAK_DIRECTIVE as byte]);
    enc.EncodeNak(nak);
    WroteMoves(s2, enc.Now(), NakBytes(nak));
    WroteThen(s0, s2, enc.Now(), Some(head + [NAK_DIRECTIVE as byte]), Some(NakBytes(nak)));
    JoinIs(head + [NAK_DIRECTIVE as byte], NakBytes(nak));
    assert head + [NAK_DIRECTIVE as byte] + NakBytes(nak) == UnsizedNak(h, SizeGap(s0), nak);
  }

  /** A step that leaves the encoder valid was taken by a valid one, and moved it by what it wrote. */
  lemma WroteMoves(s: State, t: State, bytes: seq<byte>)
    requires Wrote(s, t, Some(bytes))
    ensures Sound(t) && (t.isValid ==> s.isValid && t.pos == s.pos + |bytes|)
  {
  }

  /** The NAK that `CF_CFDP_SendNak` leaves in a buffer: the whole packet if it fits, an encoder that has failed and nothing
      beyond the buffer otherwise. */
  method SendNak(enc: Encoder, source: nat, destination: nat, number: nat, nak: Nak) returns (h: Header)
    requires enc.Valid() && enc.nextOffset == 0
    requires source < UINT32 && destination < UINT32 && number < UINT32 && NakFits(nak)
    modifies enc, enc.base
    ensures enc.Valid() && !enc.isValid && IsNakHeader(h, source, destination, number)
    ensures enc.maxSize == old(enc.maxSize) && enc.base[enc.maxSize..] == old(enc.base[enc.maxSize..])
    ensures old(enc.isValid) && |NakPacket(h, nak)| <= enc.maxSize ==>
      && h.dataLength == |NakBody(nak)|
      && enc.nextOffset == |NakPacket(h, nak)| && enc.base[..enc.nextOffset] == NakPacket(h, nak)
  {
    hide Wrote, UnsizedHeaderBytes, HeaderBytes, IsNakHeader, NakBytes, Spliced, NakFits, Pow256, ToBigEndian, Join, UnsizedNak;
    hide SizeGap, HeaderTyped, SegmentFits;
    ghost var s0 := enc.Now();
    h := NakHeader(source, destination, number);
    NakHeaderIsTyped(h, source, destination, number);
    NakIsShort(nak);
    var headerLength := EncodeUnsized(enc, h, nak);
    ghost var s1 := enc.Now();
    var dataLength := SetPduLength(enc, if headerLength.Some? then headerLength.value else 0, 0);
    StillNakHeader(h, dataLength, source, destination, number);
    assert s1.isValid && s1.pos >= 4 ==> |s1.buffer| >= 4;
    PacketIsWritten(s0, s1, enc.Now(), h, nak, dataLength);
    h := h.(dataLength := dataLength);
  }

  /** The whole packet stands in the buffer once its two bytes are filled in. */
  lemma PacketIsWritten(s0: State, s1: State, s2: State, h: Header, nak: Nak, dataLength: nat)
    requires s0.pos == 0 && s0.max <= |s0.buffer| && h.eidLength <= EID_SIZE && h.seqLength <= EID_SIZE && NakFits(nak)
    requires Wrote(s0, s1, Some(UnsizedNak(h, SizeGap(s0), nak)))
    requires s1.isValid ==> dataLength == FinalLength(s1.pos, |UnsizedHeaderBytes(h, SizeGap(s0))|, 0)
    requires s2 == s1.(isValid := false,
                       buffer := if s1.isValid && s1.pos >= 4 then
                                   if |s1.buffer| >= 3 then Spliced(s1.buffer, 1, ToBigEndian(dataLength, 2)) else []
                                 else s1.buffer)
    ensures s2.max == s0.max && |s2.buffer| == |s0.buffer| && s2.buffer[s0.max..] == s0.buffer[s0.max..]
    ensures var h' := h.(dataLength := dataLength);
            s0.isValid && |NakPacket(h', nak)| <= s0.max ==>
              && dataLength == |NakBody(nak)| && s2.pos == |NakPacket(h', nak)| <= |s2.buffer|
              && s2.buffer[..s2.pos] == NakPacket(h', nak)
  {
    hide Wrote, UnsizedHeaderBytes, HeaderBytes, NakBytes, Spliced, NakFits, Pow256, ToBigEndian, Join, SizeGap;
    var gap, body := SizeGap(s0), NakBody(nak);
    var head, h' := UnsizedHeaderBytes(h, gap), h.(dataLength := dataLength);
    GapIsTwo(s0);
    HeaderLength(h, gap);
    HeaderLength(h', gap);
    NakIsShort(nak);
    if s0.isValid && |head + body| <= s0.max {
      WroteFits(s0, s1, head + body);
      assert (4 + 2 * h.eidLength + h.seqLength + |body|) % 0x1_0000 == |head + body|;
      SplicedFromStart(s0.buffer, head + body);
      SizeCompletes(h, gap, body, s0.buffer[|head + body|..], dataLength);
      assert s2.buffer == NakPacket(h', nak) + s0.buffer[|head + body|..];
      PrefixIs(s2.buffer, NakPacket(h', nak), s0.buffer[|head + body|..]);
      assert s2.buffer[s0.max..] == s0.buffer[|head + body|..][s0.max - |head + body|..] == s0.buffer[s0.max..];
    } else {
      WroteFails(s0, s1, head + body);
    }
  }

  lemma GapIsTwo(s: State)
    ensures |SizeGap(s)| == 2
  {
  }

  lemma WroteFails(s: State, t: State, bytes: seq<byte>)
    requires Wrote(s, t, Some(bytes)) && !(s.isValid && s.pos + |bytes| <= s.max)
    ensures !t.isValid && t.max == s.max <= |s.buffer| == |t.buffer| && t.buffer[s.max..] == s.buffer[s.max..]
  {
  }

  lemma JoinIs(a: seq<byte>, b: seq<byte>)
    ensures Join(Some(a), Some(b)) == Some(a + b)
  {
  }

  lemma PrefixIs(a: seq<byte>, p: seq<byte>, rest: seq<byte>)
    requires a == p + rest
    ensures a[..|p|] == p
  {
  }

  lemma NakIsShort(nak: Nak)
    requires NakFits(nak)
    ensures |nak.segments| <= MAX_SEGMENTS && |NakBytes(nak)| == 8 + 8 * |nak.segments|
  {
  }

  lemma NakHeaderIsTyped(h: Header, source: nat, destination: nat, number: nat)
    requires source < UINT32 && destination < UINT32 && number < UINT32
    requires IsNakHeader(h, source, destination, number)
    ensures HeaderTyped(h) && h.eidLength <= EID_SIZE && h.seqLength <= EID_SIZE
  {
  }

  lemma StillNakHeader(h: Header, dataLength: nat, source: nat, destination: nat, number: nat)
    requires IsNakHeader(h, source, destination, number)
    ensures IsNakHeader(h.(dataLength := dataLength), source, destination, number)
  {
  }

  lemma WroteFits(s: State, t: State, bytes: seq<byte>)
    requires Wrote(s, t, Some(bytes)) && s.isValid && s.pos + |bytes| <= s.max
    ensures s.pos + |bytes| <= |s.buffer|
    ensures t == State(true, s.pos + |bytes|, s.max, Spliced(s.buffer, s.pos, bytes))
  {
  }

  /** The packet is read back: header, directive code and NAK, and nothing is left over. */
  lemma NakPacketIsRead(h: Header, nak: Nak, source: nat, destination: nat, number: nat)
    requires IsNakHeader(h, source, destination, number) && NakFits(nak) && h.dataLength == |NakBody(nak)|
    ensures var s := NakPacket(h, nak);
            var p := |s| - h.dataLength;
            && ReadHeader(s, 0) == Got(Accepted(h), p)
            && ReadBytes(s, p, 1) == Got([NAK_DIRECTIVE], p + 1)
            && ReadNak(s, p + 1) == Got(nak, |s|)
  {
    hide ReadHeader, ReadBytes, ReadNak, HeaderBytes, NakBytes, NakFits, HeaderFits, At, Pow256;
    var s, p := NakPacket(h, nak), |HeaderBytes(h)|;
    NakIsShort(nak);
    NakHeaderFits(h, nak, source, destination, number);
    AtWhole(s);
    AtSplits(s, 0, HeaderBytes(h), NakBody(nak));
    AtSplits(s, p, [NAK_DIRECTIVE], NakBytes(nak));
    ReadHeaderAt(s, 0, h);
    ReadBytesAt(s, p, [NAK_DIRECTIVE]);
    ReadNakAt(s, p + 1, nak);
  }

  lemma NakHeaderFits(h: Header, nak: Nak, source: nat, destination: nat, number: nat)
    requires IsNakHeader(h, source, destination, number) && |nak.segments| <= MAX_SEGMENTS
    requires h.dataLength == |NakBody(nak)|
    ensures HeaderFits(h)
  {
  }

  /** What a receiver of NAKs takes from a packet: large-file PDUs, PDUs of another kind and short ones are refused. */
  function ReceivedNak(s: seq<byte>): Option<(Header, Nak)> {
    match ReadHeader(s, 0)
    case Fail => None
    case Got(outcome, p) =>
      if outcome.LengthsRejected? || outcome.header.largeFlag != 0 || outcome.header.pduType != 0 then None
      else
        match ReadBytes(s, p, 1)
        case Fail => None
        case Got(directive, q) =>
          if directive != [NAK_DIRECTIVE] then None
          else
            match ReadNak(s, q)
            case Fail => None
            case Got(nak, _) => Some((outcome.header, nak))
  }

  /** `CF_CFDP_RecvPh` followed by `CF_CFDP_RecvNak`. */
  method ReceiveNak(dec: Decoder) returns (received: Option<(Header, Nak)>)
    requires dec.Valid() && dec.isValid && dec.nextOffset == 0
    modifies dec`isValid, dec`nextOffset
    ensures dec.Valid() && received == ReceivedNak(dec.Data())
  {
    hide ReadHeader, ReadBytes, ReadNak;
    received := None;
    var outcome, _ := dec.DecodeHeader();
    if dec.isValid && outcome.Accepted? && outcome.header.largeFlag == 0 && outcome.header.pduType == 0 {
      var directiveCode := dec.DecodeFileDirectiveHeader();
      if dec.isValid && directiveCode == NAK_DIRECTIVE {
        var nak := dec.DecodeNak();
        if dec.isValid {
          received := Some((outcome.header, nak));
        }
      }
    }
  }

  /** A packet is received as it was sent. */
  lemma NakIsReceived(h: Header, nak: Nak, source: nat, destination: nat, number: nat)
    requires IsNakHeader(h, source, destination, number) && NakFits(nak) && h.dataLength == |NakBody(nak)|
    ensures ReceivedNak(NakPacket(h, nak)) == Some((h, nak))
  {
    hide ReadHeader, ReadBytes, ReadNak, NakPacket, NakBody, NakFits;
    NakPacketIsRead(h, nak, source, destination, number);
  }

  /** No NAK is longer than 16 bytes of header, 9 fixed bytes and 58 requests of 8 bytes, and that is less than a PDU may have. */
  lemma NakAlwaysFits(h: Header, nak: Nak, source: nat, destination: nat, number: nat)
    requires IsNakHeader(h, source, destination, number) && NakFits(nak)
    ensures |NakPacket(h, nak)| == 13 + 2 * h.eidLength + h.seqLength + 8 * |nak.segments| <= 489 < MAX_PDU_SIZE
  {
    hide NakBody, HeaderBytes;
    NakIsShort(nak);
    HeaderLength(h, [0, 0]);
  }

  /** From the receiver's list to the other side: the packet that asks for its gaps fits a PDU and is received unchanged. */
  lemma NakForIsReceived(h: Header, s: seq<Chunk>, max: nat, fsize: nat, source: nat, destination: nat, number: nat)
    requires Wf(s) && 0 < max && 0 < fsize < UINT32
    requires IsNakHeader(h, source, destination, number) && h.dataLength == |NakBody(NakFor(s, max, fsize))|
    ensures |NakPacket(h, NakFor(s, max, fsize))| < MAX_PDU_SIZE
    ensures ReceivedNak(NakPacket(h, NakFor(s, max, fsize))) == Some((h, NakFor(s, max, fsize)))
  {
    hide NakFor, NakFits, NakPacket, NakBody, IsNakHeader, Wf;
    NakForFits(s, max, fsize);
    NakAlwaysFits(h, NakFor(s, max, fsize), source, destination, number);
    NakIsReceived(h, NakFor(s, max, fsize), source, destination, number);
  }

  /** The byte behind the header of a NAK is 8, the directive code of table 5-4 of CCSDS 727.0-B-5; the length field of the header
      counts it and the NAK. */
  lemma NakIsOnTheWire(h: Header, nak: Nak, source: nat, destination: nat, number: nat)
    requires IsNakHeader(h, source, destination, number) && NakFits(nak) && h.dataLength == |NakBody(nak)|
    ensures var s, p := NakPacket(h, nak), 4 + 2 * h.eidLength + h.seqLength;
            && p < |s| && HeaderAt(s, 0, h, p) && s[0] == 0x28 && U16(s, 1) == |s| - p
            && s[p] == 8 && NakAt(s, p + 1, nak, |s|)
  {
    hide ReadHeader, ReadNak, HeaderAt, NakAt, NakFits, NakBytes, HeaderBytes, IsNakHeader;
    var s := NakPacket(h, nak);
    NakIsShort(nak);
    HeaderLength(h, [0, 0]);
    NakPacketIsRead(h, nak, source, destination, number);
    HeaderIsRead(s, 0);
    NakIsRead(s, |HeaderBytes(h)| + 1);
    NakFlags(s, h, source, destination, number, |HeaderBytes(h)|);
  }

  lemma NakFlags(s: seq<byte>, h: Header, source: nat, destination: nat, number: nat, p: nat)
    requires IsNakHeader(h, source, destination, number) && HeaderAt(s, 0, h, p)
    ensures s[0] == 0x28 && U16(s, 1) == h.dataLength
  {
  }

  /**
   Exactly which packets are received as a NAK, and as what: a header that is accepted, whose flags byte has bit 0
   (large file) and bit 4 (file data) clear, the byte 8, and a NAK. The CRC flag in bit 1 does not matter.
   */
  lemma ReceivedNakIff(s: seq<byte>)
    ensures ReceivedNak(s).Some? ==>
              var (h, nak) := ReceivedNak(s).value; var p := 4 + 2 * h.eidLength + h.seqLength;
              && HeaderAt(s, 0, h, p) && p < |s| && s[0] % 2 == 0 && s[0] / 16 % 2 == 0 && s[p] == 8
              && NakAt(s, p + 1, nak, p + 9 + 8 * |nak.segments|)
    ensures s != [] && (s[0] % 2 == 1 || s[0] / 16 % 2 == 1) ==> ReceivedNak(s) == None
    ensures ReadHeader(s, 0).Got? && ReadHeader(s, 0).value.Accepted? && s[0] % 2 == 0 && s[0] / 16 % 2 == 0 ==>
              var p := ReadHeader(s, 0).pos;
              ReceivedNak(s).Some? <==> p < |s| && s[p] == 8 && ReadNak(s, p + 1).Got?
  {
    hide ReadHeader, ReadNak, HeaderAt, NakAt;
    HeaderIsRead(s, 0);
    var r := ReadHeader(s, 0);
    if r.Got? && r.value.Accepted? {
      FlagBits(s, r.value.header, r.pos);
      NakIsRead(s, r.pos + 1);
      var nak := ReadNak(s, r.pos + 1);
      if nak.Got? {
        NakEnd(s, r.pos + 1, nak.value, nak.pos);
      }
    }
  }

  lemma NakEnd(s: seq<byte>, pos: nat, nak: Nak, p: nat)
    requires NakAt(s, pos, nak, p)
    ensures p == pos + 8 + 8 * |nak.segments|
  {
    hide U32;
  }

  lemma FlagBits(s: seq<byte>, h: Header, p: nat)
    requires HeaderAt(s, 0, h, p)
    ensures s != [] && h.largeFlag == s[0] % 2 && h.pduType == s[0] / 16 % 2 && p == 4 + 2 * h.eidLength + h.seqLength
  {
    hide U16, BigEndian;
    var low := 8 * h.direction + 4 * h.txmMode + 2 * h.crcFlag + h.largeFlag;
    ModUnique(s[0], 2, 16 * h.version + 8 * h.pduType + 4 * h.direction + 2 * h.txmMode + h.crcFlag, h.largeFlag);
    ModUnique(s[0], 16, 2 * h.version + h.pduType, low);
    ModUnique(2 * h.version + h.pduType, 2, h.version, h.pduType);
  }
}
