/**
 The decoder of `cf_codec.c`, proved against the reading functions of `PduFormat`: it yields their value and moves to their
 position, or becomes invalid exactly when they fail, and once invalid stays so.
 */
module PduDecoder {
  import opened Bytes
  import opened Options
  import opened PduFormat

  datatype Cursor = Cursor(isValid: bool, pos: nat)

  /** What a decoding step does: r is what reading at the old position gives. */
  ghost predicate Took<T>(s: Cursor, t: Cursor, r: Parsed<T>) {
    if s.isValid && r.Got? then t == Cursor(true, r.pos) else !t.isValid
  }

  /** All TLVs up to limit, of which at most room can be kept. */
  function ReadAllTlv(s: seq<byte>, pos: nat, limit: nat, room: nat): Parsed<seq<Tlv>>
    decreases limit
  {
    if limit == 0 || pos >= |s| then Got([], pos)
    else if room == 0 then Fail
    else
      match ReadTlv(s, pos)
      case Fail => Fail
      case Got(v, p) => Prepended([v], ReadAllTlv(s, p, limit - 1, room - 1))
  }

  function ReadAllSegments(s: seq<byte>, pos: nat, limit: nat, room: nat): Parsed<seq<Segment>>
    decreases limit
  {
    if limit == 0 || pos >= |s| then Got([], pos)
    else if room == 0 then Fail
    else
      match ReadSegment(s, pos)
      case Fail => Fail
      case Got(v, p) => Prepended([v], ReadAllSegments(s, p, limit - 1, room - 1))
  }

  function Prepended<T>(vs: seq<T>, r: Parsed<seq<T>>): Parsed<seq<T>> {
    if r.Got? then Got(vs + r.value, r.pos) else Fail
  }

  lemma PrependedTwice<T>(a: seq<T>, b: seq<T>, r: Parsed<seq<T>>)
    ensures Prepended(a, Prepended(b, r)) == Prepended(a + b, r)
  {
    if r.Got? {
      assert a + (b + r.value) == (a + b) + r.value;
    }
  }

  lemma PrependedNone<T>(r: Parsed<seq<T>>)
    ensures Prepended([], r) == r
  {
    if r.Got? {
      assert [] + r.value == r.value;
    }
  }

  /** With the limit the PDU decoders pass there is always room. */
  lemma {:induction false} ReadAllTlvIs(s: seq<byte>, pos: nat, limit: nat, room: nat)
    requires limit <= room
    ensures ReadAllTlv(s, pos, limit, room) == ReadTlvs(s, pos, limit)
    decreases limit
  {
    hide ReadTlv;
    if limit > 0 && pos < |s| && ReadTlv(s, pos).Got? {
      ReadAllTlvIs(s, ReadTlv(s, pos).pos, limit - 1, room - 1);
    }
  }

  lemma {:induction false} ReadAllSegmentsIs(s: seq<byte>, pos: nat, limit: nat, room: nat)
    requires limit <= room
    ensures ReadAllSegments(s, pos, limit, room) == ReadSegments(s, pos, limit)
    decreases limit
  {
    hide ReadSegment;
    if limit > 0 && pos < |s| && ReadSegment(s, pos).Got? {
      ReadAllSegmentsIs(s, ReadSegment(s, pos).pos, limit - 1, room - 1);
    }
  }

  lemma BigEndianSnoc(s: seq<byte>, i: nat)
    requires i < |s|
    ensures BigEndian(s[..i + 1]) == 256 * BigEndian(s[..i]) + s[i]
  {
    assert s[..i + 1][..i] == s[..i];
  }

  lemma ShiftIn(v: nat, b: nat)
    requires b < 256
    ensures (v % UINT64 * 256) % UINT64 + b == (256 * v + b) % UINT64
  {
    var q, r := v / UINT64, v % UINT64;
    var top := r / 0x100_0000_0000_0000;
    var low := r - 0x100_0000_0000_0000 * top;
    RemainderIs(r * 256, top, 256 * low);
    RemainderIs(256 * v + b, 256 * q + top, 256 * low + b);
  }

  lemma RemainderIs(x: nat, q: nat, r: nat)
    requires x == UINT64 * q + r && r < UINT64
    ensures x % UINT64 == r
  {
  }

  lemma TwoBytesValue(s: seq<byte>)
    requires |s| == 2
    ensures BigEndian(s) == (s[0] as int) * 256 + s[1]
  {
    BigEndianSnoc(s, 0);
    BigEndianSnoc(s, 1);
    assert s[..0] == [] && s[..2] == s;
  }

  lemma FourBytesValue(s: seq<byte>)
    requires |s| == 4
    ensures BigEndian(s) == (((s[0] as int) * 256 + s[1]) * 256 + s[2]) * 256 + s[3]
  {
    BigEndianSnoc(s, 0);
    BigEndianSnoc(s, 1);
    BigEndianSnoc(s, 2);
    BigEndianSnoc(s, 3);
    assert s[..0] == [] && s[..4] == s;
  }

  lemma NoBytesValue(b: seq<byte>)
    ensures BigEndian(b[..0]) == 0
  {
  }

  lemma HeaderWindow(a: seq<byte>, p: nat)
    requires p + 4 <= |a|
    ensures var b := a[p..p + 4]; b[0] == a[p] && b[3] == a[p + 3] && b[1..3] == a[p + 1..p + 3]
  {
    SliceOfSlice(a, p, 4, 1, 3);
  }

  lemma EightBytes(a: seq<byte>, p: nat)
    requires p + 8 <= |a|
    ensures a[p..p + 8][..4] == a[p..p + 4] && a[p..p + 8][4..] == a[p + 4..p + 8]
  {
    SliceOfSlice(a, p, 8, 0, 4);
    SliceOfSlice(a, p, 8, 4, 8);
  }

  lemma FlagsAndWord(a: seq<byte>, p: nat)
    requires p + 5 <= |a|
    ensures a[p..p + 5][0] == a[p] && a[p..p + 5][1..] == a[p + 1..p + 5]
  {
    SliceOfSlice(a, p, 5, 1, 5);
  }

  lemma FlagsAndTwoWords(a: seq<byte>, p: nat)
    requires p + 9 <= |a|
    ensures var b := a[p..p + 9]; b[0] == a[p] && b[1..5] == a[p + 1..p + 5] && b[5..] == a[p + 5..p + 9]
  {
    SliceOfSlice(a, p, 9, 1, 5);
    SliceOfSlice(a, p, 9, 5, 9);
  }

  lemma RestOfData(s: seq<byte>, pos: nat)
    requires pos <= |s|
    ensures ReadBytes(s, pos, |s| - pos) == Got(s[pos..], |s|)
  {
    assert s[pos..pos + (|s| - pos)] == s[pos..];
  }

  class Decoder {
    var isValid: bool
    var nextOffset: nat
    var maxSize: nat
    const base: array<byte>

    ghost predicate Valid()
      reads this
    {
      nextOffset <= maxSize <= base.Length
    }

    ghost function Now(): Cursor
      reads this
    {
      Cursor(isValid, nextOffset)
    }

    /** The bytes of the PDU. */
    ghost function Data(): seq<byte>
      requires Valid()
      reads this, base
    {
      base[..maxSize]
    }

    constructor (buffer: array<byte>, size: nat)
      requires size <= buffer.Length
      ensures base == buffer && maxSize == size && Valid() && Now() == Cursor(true, 0) && Data() == buffer[..size]
    {
      isValid, nextOffset, maxSize, base := true, 0, size, buffer;
    }

    /** `CF_CFDP_CodecCheckSize`. */
    method CheckSize(chunkSize: nat) returns (ok: bool)
      requires Valid()
      modifies this`isValid, this`nextOffset
      ensures Valid() && ok == isValid
      ensures if old(nextOffset) + chunkSize <= maxSize
              then nextOffset == old(nextOffset) + chunkSize && isValid == old(isValid)
              else nextOffset == old(nextOffset) && !isValid
    {
      var next := nextOffset + chunkSize;
      if next > maxSize {
        isValid := false;
      } else {
        nextOffset := next;
      }
      ok := isValid;
    }

    /** `CF_CFDP_DoDecodeChunk`: None stands for the null pointer. */
    method DoDecodeChunk(chunkSize: nat) returns (p: Option<nat>)
      requires Valid()
      modifies this`isValid, this`nextOffset
      ensures Valid() && p.Some? == isValid
      ensures Took(old(Now()), Now(), ReadBytes(Data(), old(nextOffset), chunkSize))
      ensures p.Some? ==> p.value == old(nextOffset) && p.value + chunkSize <= maxSize
                          && base[p.value..p.value + chunkSize] == ReadBytes(Data(), old(nextOffset), chunkSize).value
    {
      var at := nextOffset;
      var ok := CheckSize(chunkSize);
      p := if ok then Some(at) else None;
    }

    /** `CF_Codec_Load_uint16`. */
    method LoadUint16(p: nat) returns (val: nat)
      requires p + 2 <= base.Length
      ensures val == BigEndian(base[p..p + 2])
    {
      val := base[p];
      val := val * 256 + base[p + 1];
      TwoBytesValue(base[p..p + 2]);
    }

    /** `CF_Codec_Load_uint32`. */
    method LoadUint32(p: nat) returns (val: nat)
      requires p + 4 <= base.Length
      ensures val == BigEndian(base[p..p + 4])
    {
      val := base[p];
      val := val * 256 + base[p + 1];
      val := val * 256 + base[p + 2];
      val := val * 256 + base[p + 3];
      FourBytesValue(base[p..p + 4]);
    }

    /** `CF_DecodeIntegerInSize`. */
    method DecodeIntegerInSize(decodeSize: nat) returns (value: nat)
      requires Valid()
      modifies this`isValid, this`nextOffset
      ensures Valid()
      ensures var r := ReadInteger(Data(), old(nextOffset), decodeSize);
              Took(old(Now()), Now(), r) && value == if isValid then r.value else 0
    {
      hide BigEndian;
      value := 0;
      var chunk := DoDecodeChunk(decodeSize);
      if chunk.Some? {
        ghost var b := base[chunk.value..chunk.value + decodeSize];
        NoBytesValue(b);
        var i := 0;
        while i < decodeSize
          invariant 0 <= i <= decodeSize && value == BigEndian(b[..i]) % UINT64
          modifies {}
        {
          BigEndianSnoc(b, i);
          ShiftIn(BigEndian(b[..i]), b[i]);
          value := (value * 256) % UINT64 + base[chunk.value + i];
          i := i + 1;
        }
        assert b[..i] == b;
      }
    }

    /** `CF_CFDP_DecodeHeader`: rejected lengths are an error result, not an invalid codec. */
    method DecodeHeader() returns (outcome: HeaderOutcome, headerLength: nat)
      requires Valid()
      modifies this`isValid, this`nextOffset
      ensures Valid()
      ensures var r := ReadHeader(Data(), old(nextOffset));
              && Took(old(Now()), Now(), r)
              && (isValid ==> outcome == r.value && (outcome.Accepted? ==> headerLength == nextOffset))
      ensures outcome.LengthsRejected? ==> isValid
    {
      hide BigEndian, FieldGet, ReadBytes, ReadInteger;
      ghost var start := nextOffset;
      var header := Header(0, 0, 0, 0, 0, 0, 0, 0, 0, 0, 0, 0);
      outcome, headerLength := Accepted(header), 0;
      var chunk := DoDecodeChunk(4);
      if chunk.Some? {
        var p := chunk.value;
        var flags, lengths := base[p], base[p + 3];
        var eidLength, seqLength := FieldGet(lengths, 16, 8) + 1, FieldGet(lengths, 1, 8) + 1;
        var dataLength := LoadUint16(p + 1);
        HeaderWindow(base[..], p);
        if eidLength > EID_SIZE || seqLength > EID_SIZE {
          outcome := LengthsRejected;
        } else {
          var source := DecodeIntegerInSize(eidLength);
          var number := DecodeIntegerInSize(seqLength);
          var destination := DecodeIntegerInSize(eidLength);
          outcome := Accepted(Header(FieldGet(flags, 32, 8), FieldGet(flags, 8, 2), FieldGet(flags, 16, 2),
                                     FieldGet(flags, 4, 2), FieldGet(flags, 2, 2), FieldGet(flags, 1, 2),
                                     eidLength, seqLength, dataLength, source, number, destination));
          headerLength := nextOffset;
        }
      }
    }

    /** `CF_CFDP_DecodeFileDirectiveHeader`. */
    method DecodeFileDirectiveHeader() returns (directiveCode: nat)
      requires Valid()
      modifies this`isValid, this`nextOffset
      ensures Valid() && Took(old(Now()), Now(), ReadBytes(Data(), old(nextOffset), 1))
      ensures isValid ==> ReadBytes(Data(), old(nextOffset), 1).value == [directiveCode]
    {
      directiveCode := 0;
      var chunk := DoDecodeChunk(1);
      if chunk.Some? {
        directiveCode := base[chunk.value];
      }
    }

    /** `CF_CFDP_DecodeLV`. */
    method DecodeLv() returns (v: Lv)
      requires Valid()
      modifies this`isValid, this`nextOffset
      ensures Valid()
      ensures var r := ReadLv(Data(), old(nextOffset)); Took(old(Now()), Now(), r) && (isValid ==> v == r.value)
    {
      hide ReadBytes;
      v := Lv(0, None);
      var chunk := DoDecodeChunk(1);
      if chunk.Some? {
        var length := base[chunk.value];
        assert base[chunk.value..chunk.value + 1] == [length];
        var data := DoDecodeChunk(length);
        v := Lv(length, if data.Some? then Some(base[data.value..data.value + length]) else None);
      }
    }

    /** `CF_CFDP_DecodeTLV`. */
    method DecodeTlv() returns (v: Tlv)
      requires Valid()
      modifies this`isValid, this`nextOffset
      ensures Valid()
      ensures var r := ReadTlv(Data(), old(nextOffset)); Took(old(Now()), Now(), r) && (isValid ==> v == r.value)
    {
      hide ReadBytes, ReadInteger;
      v := EntityId(0, 0);
      var chunk := DoDecodeChunk(2);
      if chunk.Some? {
        var tlvType, length := base[chunk.value], base[chunk.value + 1];
        assert base[chunk.value..chunk.value + 2] == [tlvType, length];
        if tlvType == ENTITY_ID {
          var eid := DecodeIntegerInSize(length);
          v := EntityId(length, eid % UINT32);
        } else {
          var data := DoDecodeChunk(length);
          v := Other(tlvType, length, if data.Some? then Some(base[data.value..data.value + length]) else None);
        }
      }
    }

    /** `CF_CFDP_DecodeSegmentRequest`. */
    method DecodeSegmentRequest() returns (v: Segment)
      requires Valid()
      modifies this`isValid, this`nextOffset
      ensures Valid()
      ensures var r := ReadSegment(Data(), old(nextOffset)); Took(old(Now()), Now(), r) && (isValid ==> v == r.value)
    {
      hide BigEndian, ReadBytes;
      v := Segment(0, 0);
      var chunk := DoDecodeChunk(8);
      if chunk.Some? {
        var from := LoadUint32(chunk.value);
        var to := LoadUint32(chunk.value + 4);
        v := Segment(from, to);
        EightBytes(base[..], chunk.value);
      }
    }

    /** `CF_CFDP_DecodeAllTlv`. */
    method DecodeAllTlv(limit: nat) returns (vs: seq<Tlv>)
      requires Valid()
      modifies this`isValid, this`nextOffset
      ensures Valid()
      ensures old(isValid) ==> var r := ReadAllTlv(Data(), old(nextOffset), limit, MAX_TLV);
                               Took(old(Now()), Now(), r) && (isValid ==> vs == r.value)
      ensures !old(isValid) ==> !isValid
    {
      hide ReadTlv;
      ghost var s0 := Now();
      ghost var whole := ReadAllTlv(Data(), s0.pos, limit, MAX_TLV);
      vs := [];
      PrependedNone(whole);
      var left := limit;
      while left > 0 && maxSize - nextOffset != 0
        invariant Valid() && 0 <= left <= limit && |vs| <= MAX_TLV && isValid == s0.isValid
        invariant s0.isValid ==> whole == Prepended(vs, ReadAllTlv(Data(), nextOffset, left, MAX_TLV - |vs|))
        decreases left
      {
        ghost var at := nextOffset;
        left := left - 1;
        var v := EntityId(0, 0);
        if |vs| >= MAX_TLV {
          isValid := false;
        } else {
          v := DecodeTlv();
        }
        if !isValid {
          break;
        }
        PrependedTwice(vs, [v], ReadAllTlv(Data(), nextOffset, left, MAX_TLV - |vs| - 1));
        vs := vs + [v];
      }
    }

    /** `CF_CFDP_DecodeAllSegments`. */
    method DecodeAllSegments(limit: nat) returns (vs: seq<Segment>)
      requires Valid()
      modifies this`isValid, this`nextOffset
      ensures Valid()
      ensures old(isValid) ==> var r := ReadAllSegments(Data(), old(nextOffset), limit, MAX_SEGMENTS);
                               Took(old(Now()), Now(), r) && (isValid ==> vs == r.value)
      ensures !old(isValid) ==> !isValid
    {
      hide ReadSegment;
      ghost var s0 := Now();
      ghost var whole := ReadAllSegments(Data(), s0.pos, limit, MAX_SEGMENTS);
      vs := [];
      PrependedNone(whole);
      var left := limit;
      while left > 0 && maxSize - nextOffset != 0
        invariant Valid() && 0 <= left <= limit && |vs| <= MAX_SEGMENTS && isValid == s0.isValid
        invariant s0.isValid ==> whole == Prepended(vs, ReadAllSegments(Data(), nextOffset, left, MAX_SEGMENTS - |vs|))
        decreases left
      {
        left := left - 1;
        var v := Segment(0, 0);
        if |vs| >= MAX_SEGMENTS {
          isValid := false;
        } else {
          v := DecodeSegmentRequest();
        }
        if !isValid {
          break;
        }
        PrependedTwice(vs, [v], ReadAllSegments(Data(), nextOffset, left, MAX_SEGMENTS - |vs| - 1));
        vs := vs + [v];
      }
    }

    /** `CF_CFDP_DecodeMd`. */
    method DecodeMetadata() returns (v: Metadata)
      requires Valid()
      modifies this`isValid, this`nextOffset
      ensures Valid()
      ensures var r := ReadMetadata(Data(), old(nextOffset)); Took(old(Now()), Now(), r) && (isValid ==> v == r.value)
    {
      hide BigEndian, FieldGet, ReadBytes, ReadLv;
      v := Metadata(0, 0, 0, Lv(0, None), Lv(0, None));
      var chunk := DoDecodeChunk(5);
      if chunk.Some? {
        var flags := base[chunk.value];
        var size := LoadUint32(chunk.value + 1);
        FlagsAndWord(base[..], chunk.value);
        var source := DecodeLv();
        var dest := DecodeLv();
        v := Metadata(FieldGet(flags, 128, 2), FieldGet(flags, 1, 16), size, source, dest);
      }
    }

    /** `CF_CFDP_DecodeEof`. */
    method DecodeEof() returns (v: Eof)
      requires Valid()
      modifies this`isValid, this`nextOffset
      ensures Valid()
      ensures var r := ReadEof(Data(), old(nextOffset)); Took(old(Now()), Now(), r) && (isValid ==> v == r.value)
    {
      hide BigEndian, FieldGet, ReadBytes, ReadTlvs, ReadAllTlv;
      v := Eof(0, 0, 0, []);
      var chunk := DoDecodeChunk(9);
      if chunk.Some? {
        var flags := base[chunk.value];
        var crc := LoadUint32(chunk.value + 1);
        var size := LoadUint32(chunk.value + 5);
        FlagsAndTwoWords(base[..], chunk.value);
        ReadAllTlvIs(Data(), nextOffset, MAX_TLV, MAX_TLV);
        var tlvs := DecodeAllTlv(MAX_TLV);
        v := Eof(FieldGet(flags, 16, 16), crc, size, tlvs);
      }
    }

    /** `CF_CFDP_DecodeFin`. */
    method DecodeFin() returns (v: Fin)
      requires Valid()
      modifies this`isValid, this`nextOffset
      ensures Valid()
      ensures var r := ReadFin(Data(), old(nextOffset)); Took(old(Now()), Now(), r) && (isValid ==> v == r.value)
    {
      hide FieldGet, ReadBytes, ReadTlvs, ReadAllTlv;
      v := Fin(0, 0, 0, []);
      var chunk := DoDecodeChunk(1);
      if chunk.Some? {
        var flags := base[chunk.value];
        assert base[chunk.value..chunk.value + 1] == [flags];
        ReadAllTlvIs(Data(), nextOffset, MAX_TLV, MAX_TLV);
        var tlvs := DecodeAllTlv(MAX_TLV);
        v := Fin(FieldGet(flags, 16, 16), FieldGet(flags, 4, 2), FieldGet(flags, 1, 4), tlvs);
      }
    }

    /** `CF_CFDP_DecodeAck`. */
    method DecodeAck() returns (v: Ack)
      requires Valid()
      modifies this`isValid, this`nextOffset
      ensures Valid()
      ensures var r := ReadAck(Data(), old(nextOffset)); Took(old(Now()), Now(), r) && (isValid ==> v == r.value)
    {
      hide FieldGet, ReadBytes;
      v := Ack(0, 0, 0, 0);
      var chunk := DoDecodeChunk(2);
      if chunk.Some? {
        var directive, status := base[chunk.value], base[chunk.value + 1];
        assert base[chunk.value..chunk.value + 2] == [directive, status];
        v := Ack(FieldGet(directive, 16, 16), FieldGet(directive, 1, 16), FieldGet(status, 16, 16), FieldGet(status, 1, 4));
      }
    }

    /** `CF_CFDP_DecodeNak`. */
    method DecodeNak() returns (v: Nak)
      requires Valid()
      modifies this`isValid, this`nextOffset
      ensures Valid()
      ensures var r := ReadNak(Data(), old(nextOffset)); Took(old(Now()), Now(), r) && (isValid ==> v == r.value)
    {
      hide BigEndian, ReadBytes, ReadSegments, ReadAllSegments;
      v := Nak(0, 0, []);
      var chunk := DoDecodeChunk(8);
      if chunk.Some? {
        var scopeStart := LoadUint32(chunk.value);
        var scopeEnd := LoadUint32(chunk.value + 4);
        EightBytes(base[..], chunk.value);
        ReadAllSegmentsIs(Data(), nextOffset, MAX_SEGMENTS, MAX_SEGMENTS);
        var segments := DecodeAllSegments(MAX_SEGMENTS);
        v := Nak(scopeStart, scopeEnd, segments);
      }
    }

    /** The loop over a given number of segments in `CF_CFDP_DecodeFileDataHeader`. */
    method DecodeSegmentCount(fieldCount: nat) returns (vs: seq<Segment>)
      requires Valid() && isValid
      modifies this`isValid, this`nextOffset
      ensures Valid()
      ensures var r := ReadSegmentCount(Data(), old(nextOffset), fieldCount);
              Took(old(Now()), Now(), r) && (isValid ==> vs == r.value)
    {
      hide ReadSegment;
      ghost var whole := ReadSegmentCount(Data(), nextOffset, fieldCount);
      vs := [];
      PrependedNone(whole);
      var left := fieldCount;
      while left > 0
        invariant Valid() && isValid && 0 <= left
        invariant whole == Prepended(vs, ReadSegmentCount(Data(), nextOffset, left))
        decreases left
      {
        left := left - 1;
        var v := DecodeSegmentRequest();
        if !isValid {
          break;
        }
        PrependedTwice(vs, [v], ReadSegmentCount(Data(), nextOffset, left));
        vs := vs + [v];
      }
    }

    /** The first part of `CF_CFDP_DecodeFileDataHeader`. */
    method DecodeOptionalFields(withMeta: bool) returns (continuationState: nat, segments: seq<Segment>)
      requires Valid()
      modifies this`isValid, this`nextOffset
      ensures Valid()
      ensures var r := ReadMeta(Data(), old(nextOffset), withMeta);
              Took(old(Now()), Now(), r) && (isValid ==> (continuationState, segments) == r.value)
    {
      hide FieldGet, ReadBytes, ReadSegmentCount;
      continuationState, segments := 0, [];
      if withMeta {
        var optional := DoDecodeChunk(1);
        if optional.Some? {
          var flags := base[optional.value];
          assert base[optional.value..optional.value + 1] == [flags];
          continuationState := FieldGet(flags, 64, 4);
          var fieldCount := FieldGet(flags, 1, 64);
          if fieldCount > MAX_SEGMENTS {
            isValid := false;
          } else {
            segments := DecodeSegmentCount(fieldCount);
          }
        }
      }
    }

    /** `CF_CFDP_DecodeFileDataHeader`. */
    method DecodeFileDataHeader(withMeta: bool) returns (v: FileData)
      requires Valid()
      modifies this`isValid, this`nextOffset
      ensures Valid()
      ensures var r := ReadFileData(Data(), old(nextOffset), withMeta);
              Took(old(Now()), Now(), r) && (isValid ==> v == r.value)
    {
      hide BigEndian, ReadBytes, ReadMeta;
      v := FileData(0, [], 0, []);
      var continuationState, segments := DecodeOptionalFields(withMeta);
      var chunk := DoDecodeChunk(4);
      if chunk.Some? {
        var offset := LoadUint32(chunk.value);
        RestOfData(Data(), nextOffset);
        var data := DoDecodeChunk(maxSize - nextOffset);
        v := FileData(continuationState, segments, offset, base[data.value..maxSize]);
      }
    }
  }
}
