/**
 The encoder of `cf_codec.c`: a buffer, a position and a validity flag that, once lost, stays lost.  Every method is proved
 to write exactly the bytes of `PduFormat` at the position, or to leave the encoder invalid with everything before the
 position and beyond the limit untouched.
 */
module PduEncoder {
  import opened Bytes
  import opened Options
  import opened PduFormat

  datatype State = State(isValid: bool, pos: nat, max: nat, buffer: seq<byte>)

  ghost predicate Sound(s: State) {
    s.pos <= s.max <= |s.buffer|
  }

  /** buffer with x in the place of what stood at p. */
  function Spliced(buffer: seq<byte>, p: nat, x: seq<byte>): seq<byte>
    requires p + |x| <= |buffer|
  {
    buffer[..p] + x + buffer[p + |x|..]
  }

  ghost predicate Succeeds(s: State, out: Option<seq<byte>>) {
    s.isValid && out.Some? && s.pos + |out.value| <= s.max
  }

  /** What an encoding step does to the state; out is None if the value cannot be encoded at all. */
  ghost predicate Wrote(s: State, t: State, out: Option<seq<byte>>) {
    && Sound(s) && Sound(t) && t.max == s.max && |t.buffer| == |s.buffer|
    && if Succeeds(s, out) then
         t == State(true, s.pos + |out.value|, s.max, Spliced(s.buffer, s.pos, out.value))
       else
         && !t.isValid && s.pos <= t.pos
         && t.buffer[..s.pos] == s.buffer[..s.pos] && t.buffer[s.max..] == s.buffer[s.max..]
         && (!s.isValid ==> t.buffer == s.buffer)
  }

  function Join(a: Option<seq<byte>>, b: Option<seq<byte>>): Option<seq<byte>> {
    if a.Some? && b.Some? then Some(a.value + b.value) else None
  }

  function LvOut(v: Lv): Option<seq<byte>> {
    if LvEncodable(v) then Some(LvBytes(v)) else None
  }

  function TlvOut(v: Tlv): Option<seq<byte>> {
    if TlvEncodable(v) then Some(TlvBytes(v)) else None
  }

  function TlvsOut(vs: seq<Tlv>): Option<seq<byte>> {
    if TlvsEncodable(vs) then Some(TlvsBytes(vs)) else None
  }

  /** The two bytes of the data length are left as they are. */
  function UnsizedHeaderBytes(h: Header, sizeBytes: seq<byte>): seq<byte> {
    [HeaderFlags(h)] + sizeBytes + [HeaderLengths(h)]
    + ToBigEndian(h.sourceEid, h.eidLength) + ToBigEndian(h.sequenceNum, h.seqLength)
    + ToBigEndian(h.destinationEid, h.eidLength)
  }

  function MetadataOut(v: Metadata): Option<seq<byte>> {
    if LvEncodable(v.source) && LvEncodable(v.dest) then Some(MetadataBytes(v)) else None
  }

  function EofOut(v: Eof): Option<seq<byte>> {
    if TlvsEncodable(v.tlvs) then Some(EofBytes(v)) else None
  }

  function FinOut(v: Fin): Option<seq<byte>> {
    if TlvsEncodable(v.tlvs) then Some(FinBytes(v)) else None
  }

  // ---------------------------------------------------------------------------------------------------------------
  // Steps in sequence
  // ---------------------------------------------------------------------------------------------------------------

  lemma SplicedTwice(buffer: seq<byte>, p: nat, x: seq<byte>, y: seq<byte>)
    requires p + |x| + |y| <= |buffer|
    ensures Spliced(Spliced(buffer, p, x), p + |x|, y) == Spliced(buffer, p, x + y)
  {
  }

  /** Two steps are one. */
  lemma WroteThen(s: State, t: State, u: State, a: Option<seq<byte>>, b: Option<seq<byte>>)
    requires Wrote(s, t, a) && Wrote(t, u, b)
    ensures Wrote(s, u, Join(a, b))
  {
    if Succeeds(s, Join(a, b)) {
      SplicedTwice(s.buffer, s.pos, a.value, b.value);
    } else if Succeeds(s, a) {
      assert u.buffer[..s.pos] == u.buffer[..t.pos][..s.pos] == t.buffer[..t.pos][..s.pos] == s.buffer[..s.pos];
      assert t.buffer[s.max..] == s.buffer[s.max..];
    }
  }

  /** Once a step has failed, whatever was to follow it has failed too. */
  lemma WroteNoMore(s: State, t: State, a: Option<seq<byte>>, b: Option<seq<byte>>)
    requires Wrote(s, t, a) && !t.isValid
    ensures Wrote(s, t, Join(a, b))
  {
  }

  lemma WroteNothing(s: State)
    requires Sound(s)
    ensures s.isValid ==> Wrote(s, s, Some([]))
  {
  }

  lemma TlvsOutSnoc(vs: seq<Tlv>, i: nat)
    requires i < |vs|
    ensures TlvsOut(vs[..i + 1]) == Join(TlvsOut(vs[..i]), TlvOut(vs[i]))
  {
    var t := vs[..i + 1];
    assert t[..i] == vs[..i] && t[i] == vs[i];
    TlvsEncodableSnoc(t);
    if TlvsEncodable(t) {
      TlvsBytesSnoc(t);
    }
  }

  lemma TlvsEncodableSnoc(t: seq<Tlv>)
    requires t != []
    ensures TlvsEncodable(t) <==> TlvsEncodable(t[..|t| - 1]) && TlvEncodable(t[|t| - 1])
  {
    hide TlvEncodable;
    var n := |t| - 1;
    assert forall k :: 0 <= k < n ==> t[k] == t[..n][k];
    if TlvsEncodable(t[..n]) && TlvEncodable(t[n]) {
      forall k | 0 <= k < |t|
        ensures TlvEncodable(t[k])
      {
        assert k < n ==> t[k] == t[..n][k];
      }
    }
  }

  lemma {:induction false} TlvsBytesSnoc(t: seq<Tlv>)
    requires t != [] && TlvsEncodable(t)
    ensures TlvsBytes(t) == TlvsBytes(t[..|t| - 1]) + TlvBytes(t[|t| - 1])
    decreases |t|
  {
    hide TlvBytes, TlvEncodable;
    var n := |t| - 1;
    if n > 0 {
      TlvsBytesSnoc(t[1..]);
      assert t[1..][..n - 1] == t[..n][1..];
    }
  }

  lemma {:induction false} TlvsOutSplits(vs: seq<Tlv>, i: nat)
    requires i <= |vs|
    ensures TlvsOut(vs) == Join(TlvsOut(vs[..i]), TlvsOut(vs[i..]))
    decreases |vs| - i
  {
    hide TlvBytes, TlvEncodable;
    if i == |vs| {
      assert vs[..i] == vs && vs[i..] == [];
      assert TlvsOut(vs).Some? ==> TlvsOut(vs).value + [] == TlvsOut(vs).value;
    } else {
      TlvsOutSplits(vs, i + 1);
      TlvsOutSnoc(vs, i);
      TlvsOutCons(vs[i..]);
      assert vs[i..][1..] == vs[i + 1..];
      JoinIsAssociative(TlvsOut(vs[..i]), TlvOut(vs[i]), TlvsOut(vs[i + 1..]));
    }
  }

  lemma TlvsOutCons(vs: seq<Tlv>)
    requires vs != []
    ensures TlvsOut(vs) == Join(TlvOut(vs[0]), TlvsOut(vs[1..]))
  {
    hide TlvBytes, TlvEncodable;
    assert TlvsEncodable(vs) <==> TlvEncodable(vs[0]) && TlvsEncodable(vs[1..]) by {
      assert forall i :: 0 <= i < |vs| - 1 ==> vs[1..][i] == vs[i + 1];
      if TlvEncodable(vs[0]) && TlvsEncodable(vs[1..]) {
        forall i | 0 <= i < |vs|
          ensures TlvEncodable(vs[i])
        {
          assert i > 0 ==> vs[i] == vs[1..][i - 1];
        }
      }
    }
  }

  lemma JoinIsLonger(a: Option<seq<byte>>, b: Option<seq<byte>>)
    ensures Join(a, b).Some? ==> a.Some? && |Join(a, b).value| >= |a.value|
  {
  }

  lemma JoinIsAssociative(a: Option<seq<byte>>, b: Option<seq<byte>>, c: Option<seq<byte>>)
    ensures Join(Join(a, b), c) == Join(a, Join(b, c))
  {
    if a.Some? && b.Some? && c.Some? {
      assert (a.value + b.value) + c.value == a.value + (b.value + c.value);
    }
  }

  lemma {:induction false} SegmentsBytesSnoc(vs: seq<Segment>, i: nat)
    requires i < |vs|
    ensures SegmentsBytes(vs[..i + 1]) == SegmentsBytes(vs[..i]) + SegmentBytes(vs[i])
    decreases i
  {
    hide SegmentBytes;
    var t := vs[..i + 1];
    if i > 0 {
      SegmentsBytesSnoc(vs[1..], i - 1);
      assert vs[1..][..i - 1 + 1] == t[1..] && vs[1..][..i - 1] == vs[..i][1..];
    } else {
      assert vs[..0] == [] && t == [vs[0]];
    }
  }

  lemma WroteChunk(s: State, t: State, bytes: seq<byte>)
    requires Sound(s) && s.isValid && s.pos + |bytes| <= s.max
    requires t == s.(pos := s.pos + |bytes|, buffer := Spliced(s.buffer, s.pos, bytes))
    ensures Wrote(s, t, Some(bytes))
  {
  }

  lemma ToBigEndianSnoc(v: nat, k: nat, tail: seq<byte>)
    ensures ToBigEndian(v, k + 1) + tail == ToBigEndian(v / 256, k) + ([v % 256] + tail)
  {
  }

  lemma NoBytes(v: nat, tail: seq<byte>)
    ensures ToBigEndian(v, 0) + tail == tail
  {
  }

  lemma SnocEmpty(v: nat, n: nat)
    ensures ToBigEndian(v, n) == ToBigEndian(v, n) + []
  {
  }

  lemma SplicedEmpty(buffer: seq<byte>, p: nat)
    requires p <= |buffer|
    ensures Spliced(buffer, p, []) == buffer
  {
  }

  lemma SplicedFront(buffer: seq<byte>, p: nat, x: byte, tail: seq<byte>)
    requires p + 1 + |tail| <= |buffer|
    ensures |Spliced(buffer, p + 1, tail)| == |buffer|
    ensures Spliced(buffer, p + 1, tail)[p := x] == Spliced(buffer, p, [x] + tail)
  {
  }

  predicate LvTyped(v: Lv) {
    v.length < 256 && (v.data.Some? ==> |v.data.value| == v.length)
  }

  predicate TlvTyped(v: Tlv) {
    v.length < 256 && match v
    case EntityId(_, eid) => eid < UINT32
    case Other(t, n, data) => t < 256 && t != ENTITY_ID && LvTyped(Lv(n, data))
  }

  /** What follows the length of an LV or TLV. */
  function DataOut(length: nat, data: Option<seq<byte>>): Option<seq<byte>> {
    if length == 0 then Some([]) else data
  }

  lemma LvOutIs(v: Lv)
    requires LvTyped(v)
    ensures LvOut(v) == Join(Some([v.length as byte]), DataOut(v.length, v.data))
  {
  }

  lemma TlvOutIs(v: Tlv)
    requires TlvTyped(v)
    ensures match v
            case EntityId(n, eid) => TlvOut(v) == Join(Some([ENTITY_ID as byte, n as byte]), Some(ToBigEndian(eid, n)))
            case Other(t, n, data) => TlvOut(v) == Join(Some([t as byte, n as byte]), DataOut(n, data))
  {
    match v
    case EntityId(_, _) =>
    case Other(t, n, data) => assert TlvOut(v).Some? ==> TlvOut(v).value == [t as byte, n as byte] + DataOut(n, data).value;
  }

  lemma StartOfTlvs(s: State, vs: seq<Tlv>)
    requires Sound(s)
    ensures s.isValid ==> Wrote(s, s, TlvsOut(vs[..0]))
  {
    WroteNothing(s);
  }

  lemma StartOfSegments(s: State, vs: seq<Segment>)
    requires Sound(s)
    ensures s.isValid ==> Wrote(s, s, Some(SegmentsBytes(vs[..0])))
  {
    WroteNothing(s);
  }

  lemma {:induction false} SegmentsBytesSplits(vs: seq<Segment>, i: nat)
    requires i <= |vs|
    ensures SegmentsBytes(vs) == SegmentsBytes(vs[..i]) + SegmentsBytes(vs[i..])
    decreases |vs| - i
  {
    hide SegmentBytes;
    if i == |vs| {
      assert vs[..i] == vs && vs[i..] == [];
    } else {
      SegmentsBytesSplits(vs, i + 1);
      SegmentsBytesSnoc(vs, i);
      assert vs[i..][1..] == vs[i + 1..];
    }
  }

  // ---------------------------------------------------------------------------------------------------------------
  // The fixed parts
  // ---------------------------------------------------------------------------------------------------------------

  predicate HeaderTyped(h: Header) {
    && h.eidLength < 256 && h.seqLength < 256
    && h.sourceEid < UINT32 && h.sequenceNum < UINT32 && h.destinationEid < UINT32
  }

  function FixedHeader(h: Header, gap: seq<byte>): seq<byte> {
    [HeaderFlags(h)] + gap + [HeaderLengths(h)]
  }

  /** What stands where the data length belongs. */
  function SizeGap(s: State): (gap: seq<byte>)
    ensures |gap| == 2
  {
    if s.pos + 4 <= |s.buffer| then s.buffer[s.pos + 1..s.pos + 3] else [0, 0]
  }

  lemma FixedHeaderLength(h: Header, gap: seq<byte>)
    ensures |FixedHeader(h, gap)| == 2 + |gap|
    ensures |UnsizedHeaderBytes(h, gap)| >= 2 + |gap|
    ensures UnsizedHeaderBytes(h, gap)
            == FixedHeader(h, gap) + ToBigEndian(h.sourceEid, h.eidLength) + ToBigEndian(h.sequenceNum, h.seqLength)
               + ToBigEndian(h.destinationEid, h.eidLength)
  {
  }

  lemma SplicedGap(buffer: seq<byte>, p: nat, x: byte, y: byte)
    requires p + 4 <= |buffer|
    ensures |Spliced(buffer, p, [x])| == |buffer|
    ensures Spliced(Spliced(buffer, p, [x]), p + 3, [y]) == Spliced(buffer, p, [x] + buffer[p + 1..p + 3] + [y])
  {
  }

  lemma FlagsAre(h: Header)
    ensures FieldSet(FieldSet(FieldSet(FieldSet(0, 32, 8, h.version), 8, 2, h.direction), 16, 2, h.pduType), 4, 2, h.txmMode)
            == HeaderFlags(h)
  {
    hide FieldSet;
    var a, b, c := h.version % 8, h.direction % 2, h.pduType % 2;
    SetVersion(h.version);
    SetDirection(a, h.direction);
    SetType(a, b, h.pduType);
    SetMode(a, b, c, h.txmMode);
  }

  lemma SetVersion(val: nat)
    ensures FieldSet(0, 32, 8, val) == 32 * (val % 8)
  {
  }

  lemma SetDirection(a: nat, val: nat)
    ensures FieldSet(32 * a, 8, 2, val) == 32 * a + 8 * (val % 2)
  {
    assert 32 * a / 8 == 4 * a;
  }

  lemma SetType(a: nat, b: nat, val: nat)
    requires b < 2
    ensures FieldSet(32 * a + 8 * b, 16, 2, val) == 32 * a + 8 * b + 16 * (val % 2)
  {
    assert (32 * a + 8 * b) / 16 == 2 * a;
  }

  lemma SetMode(a: nat, b: nat, c: nat, val: nat)
    requires b < 2 && c < 2
    ensures FieldSet(32 * a + 8 * b + 16 * c, 4, 2, val) == 32 * a + 8 * b + 16 * c + 4 * (val % 2)
  {
    assert (32 * a + 8 * b + 16 * c) / 4 == 8 * a + 2 * b + 4 * c;
  }

  lemma LengthsAre(h: Header)
    requires h.eidLength < 256 && h.seqLength < 256
    ensures FieldSet(FieldSet(0, 16, 8, (h.eidLength + 255) % 256), 1, 8, (h.seqLength + 255) % 256) == HeaderLengths(h)
  {
    hide FieldSet;
    OneLess(h.eidLength);
    OneLess(h.seqLength);
    TwoFields((h.eidLength + 255) % 256, (h.seqLength + 255) % 256);
  }

  lemma OneLess(x: nat)
    requires x < 256
    ensures (x + 255) % 256 % 8 == (x - 1) % 8
  {
    if x > 0 {
      assert (x + 255) % 256 == x - 1;
    }
  }

  lemma TwoFields(a: nat, b: nat)
    ensures FieldSet(0, 16, 8, a) == 16 * (a % 8) && FieldSet(16 * (a % 8), 1, 8, b) == 16 * (a % 8) + b % 8
  {
    var u := a % 8;
    assert FieldSet(16 * u, 1, 8, b) == 16 * u + b % 8;
  }

  function MetadataFlags(v: Metadata): seq<byte> {
    [128 * (v.closeReq % 2) + v.checksumType % 16]
  }

  function MetadataFixed(v: Metadata): seq<byte> {
    MetadataFlags(v) + ToBigEndian(v.size, 4)
  }

  lemma MetadataOutIs(v: Metadata)
    ensures MetadataOut(v) == Join(Join(Some(MetadataFixed(v)), LvOut(v.source)), LvOut(v.dest))
    ensures MetadataFlags(v) == [FieldSet(FieldSet(0, 128, 2, v.closeReq), 1, 16, v.checksumType)]
  {
  }

  function EofFlags(v: Eof): seq<byte> {
    [16 * (v.cc % 16)]
  }

  function EofFixed(v: Eof): seq<byte> {
    EofFlags(v) + ToBigEndian(v.crc, 4) + ToBigEndian(v.size, 4)
  }

  lemma EofFlagsAre(v: Eof)
    ensures EofFlags(v) == [FieldSet(0, 16, 16, v.cc)]
  {
  }

  lemma EofOutIs(v: Eof)
    ensures EofOut(v) == Join(Some(EofFixed(v)), TlvsOut(v.tlvs))
    ensures EofFlags(v) == [FieldSet(0, 16, 16, v.cc)]
  {
    hide ToBigEndian, TlvsEncodable, TlvsBytes, FieldSet;
    EofFlagsAre(v);
  }

  function FinFixed(v: Fin): seq<byte> {
    [16 * (v.cc % 16) + 4 * (v.deliveryCode % 2) + v.fileStatus % 4]
  }

  lemma FinOutIs(v: Fin)
    ensures FinOut(v) == Join(Some(FinFixed(v)), TlvsOut(v.tlvs))
    ensures FinFixed(v)
            == [FieldSet(FieldSet(FieldSet(0, 16, 16, v.cc), 4, 2, v.deliveryCode), 1, 4, v.fileStatus)]
  {
  }

  lemma AckBytesAre(v: Ack)
    ensures AckBytes(v) == [FieldSet(FieldSet(0, 16, 16, v.directiveCode), 1, 16, v.subtypeCode),
                            FieldSet(FieldSet(0, 16, 16, v.cc), 1, 4, v.txnStatus)]
    ensures AckBytes(v) == [AckBytes(v)[0]] + [AckBytes(v)[1]]
  {
  }

  function MetaFlags(v: FileData): seq<byte> {
    [64 * (v.continuationState % 4) + |v.segments| % 64]
  }

  function MetaBytes(withMeta: bool, v: FileData): seq<byte> {
    if withMeta then MetaFlags(v) + SegmentsBytes(v.segments) else []
  }

  lemma MetaBytesAre(withMeta: bool, v: FileData)
    ensures FileDataHeaderBytes(withMeta, v) == MetaBytes(withMeta, v) + ToBigEndian(v.offset, 4)
    ensures !withMeta ==> FileDataHeaderBytes(withMeta, v) == ToBigEndian(v.offset, 4)
    ensures MetaFlags(v) == [FieldSet(FieldSet(0, 64, 4, v.continuationState), 1, 64, |v.segments|)]
  {
  }

  // ---------------------------------------------------------------------------------------------------------------
  // The encoder
  // ---------------------------------------------------------------------------------------------------------------

  /** The sub-fields of the fixed parts, as (1 << shift, mask + 1). */
  predicate IsField(unit: nat, size: nat) {
    (unit, size) in {(32, 8), (16, 2), (8, 2), (4, 2), (16, 8), (1, 8), (16, 16), (1, 4), (1, 16), (128, 2), (64, 4), (1, 64)}
  }

  lemma FieldSetIsByte(dest: byte, unit: nat, size: nat, val: nat)
    requires IsField(unit, size)
    ensures 0 <= FieldSet(dest, unit, size, val) < 256
  {
  }

  /** A number of what lies above a field, the field and what lies below it. */
  ghost function Composed(hi: nat, size: nat, v: nat, unit: nat, lo: nat): (x: nat) {
    ProductIsNat(hi, size);
    ProductIsNat(hi * size + v, unit);
    (hi * size + v) * unit + lo
  }

  lemma ProductIsNat(a: nat, b: nat)
    ensures a * b >= 0
  {
  }

  ghost function Above(x: nat, unit: nat, size: nat): nat
    requires unit > 0 && size > 0
  {
    x / unit / size
  }

  ghost function Remainder(x: nat, unit: nat): (r: nat)
    requires unit > 0
    ensures r < unit
  {
    x % unit
  }

  lemma ComposedParts(hi: nat, size: nat, v: nat, unit: nat, lo: nat)
    requires v < size && lo < unit
    ensures var x := Composed(hi, size, v, unit, lo);
            Remainder(x, unit) == lo && Above(x, unit, size) == hi && FieldGet(x, unit, size) == v
  {
    ProductIsNat(hi, size);
    ModUnique(Composed(hi, size, v, unit, lo), unit, hi * size + v, lo);
    ModUnique(hi * size + v, size, hi, v);
  }

  lemma FieldSetParts(dest: nat, unit: nat, size: nat, val: nat)
    requires unit > 0 && size > 0
    ensures FieldSet(dest, unit, size, val)
            == Composed(Above(dest, unit, size), size, Remainder(val, size), unit, Remainder(dest, unit))
  {
    var w := dest / unit;
    var a, f, v := w / size * size, w % size, val % size;
    assert w == a + f && dest == w * unit + dest % unit;
    Distributes(a, f, v, unit);
  }

  lemma Distributes(a: int, f: int, v: int, unit: int)
    ensures (a + f) * unit - f * unit + v * unit == (a + v) * unit
  {
  }

  /** Setting a field changes neither the quotient by its end nor the remainder by its unit. */
  lemma FieldSetQuotients(dest: nat, unit: nat, size: nat, val: nat)
    requires unit > 0 && size > 0
    ensures FieldSet(dest, unit, size, val) >= 0
    ensures var x := FieldSet(dest, unit, size, val);
            && Remainder(x, unit) == Remainder(dest, unit) && Above(x, unit, size) == Above(dest, unit, size)
            && FieldGet(x, unit, size) == Remainder(val, size)
  {
    hide FieldSet, Composed, FieldGet, Above, Remainder;
    FieldSetParts(dest, unit, size, val);
    ComposedParts(Above(dest, unit, size), size, Remainder(val, size), unit, Remainder(dest, unit));
  }

  lemma Refactored(q: nat, b: nat, r: nat, a: nat, s: nat)
    requires r < b && s < a
    ensures (q * b + r) * a + s == q * (a * b) + (r * a + s) && 0 <= r * a + s < a * b
  {
    assert (r + 1) * a <= b * a;
  }

  lemma QuotientOf(q: nat, b: nat, r: nat, a: nat, s: nat)
    requires r < b && s < a
    ensures a * b > 0 && ((q * b + r) * a + s) / (a * b) == q
  {
    Refactored(q, b, r, a, s);
    ModUnique((q * b + r) * a + s, a * b, q, r * a + s);
  }

  lemma Divided(x: nat, a: nat)
    requires a > 0
    ensures x == (x / a) * a + Remainder(x, a)
  {
  }

  lemma QuotientTwice(x: nat, a: nat, b: nat)
    requires a > 0 && b > 0
    ensures a * b > 0 && x / (a * b) == Above(x, a, b)
  {
    hide Remainder;
    Divided(x, a);
    Divided(x / a, b);
    QuotientOf(x / a / b, b, Remainder(x / a, b), a, Remainder(x, a));
  }

  /** A field that starts at the end of this one or above keeps its value. */
  lemma FieldAboveIsKept(dest: nat, unit: nat, size: nat, val: nat, k: nat, n: nat)
    requires unit > 0 && size > 0 && k > 0 && n > 0
    ensures FieldSet(dest, unit, size, val) >= 0 && unit * size * k > 0
    ensures FieldGet(FieldSet(dest, unit, size, val), unit * size * k, n) == FieldGet(dest, unit * size * k, n)
  {
    hide FieldSet, Above;
    FieldSetQuotients(dest, unit, size, val);
    var x := FieldSet(dest, unit, size, val);
    QuotientTwice(x, unit, size);
    QuotientTwice(dest, unit, size);
    SameQuotient(x, dest, unit * size, k, n);
  }

  lemma SameQuotient(x: nat, y: nat, u: nat, k: nat, n: nat)
    requires u > 0 && k > 0 && n > 0 && x / u == y / u
    ensures u * k > 0 && FieldGet(x, u * k, n) == FieldGet(y, u * k, n)
  {
    QuotientTwice(x, u, k);
    QuotientTwice(y, u, k);
  }

  lemma RemainderDecides(x: nat, u: nat, n: nat, k: nat)
    requires u > 0 && n > 0 && k > 0
    ensures u * n * k > 0 && FieldGet(x, u, n) == FieldGet(Remainder(x, u * n * k), u, n)
  {
    assert u * n > 0;
    var unit := u * n * k;
    var a, lo := x / unit, x % unit;
    assert x == a * unit + lo;
    assert a * unit == (a * k * n) * u;
    ModUnique(x, u, a * k * n + lo / u, lo % u);
    ModUnique(x / u, n, a * k + lo / u / n, (lo / u) % n);
  }

  /** A field that ends where this one starts or below keeps its value. */
  lemma FieldBelowIsKept(dest: nat, u: nat, n: nat, k: nat, size: nat, val: nat)
    requires u > 0 && n > 0 && k > 0 && size > 0
    ensures u * n * k > 0 && FieldSet(dest, u * n * k, size, val) >= 0
    ensures FieldGet(FieldSet(dest, u * n * k, size, val), u, n) == FieldGet(dest, u, n)
  {
    hide FieldSet, FieldGet, Above, Remainder;
    RemainderDecides(dest, u, n, k);
    FieldSetQuotients(dest, u * n * k, size, val);
    RemainderDecides(FieldSet(dest, u * n * k, size, val), u, n, k);
  }

  /** Two sub-fields that share no bit. */
  predicate BitsApart(unit: nat, size: nat, u: nat, n: nat) {
    unit * size <= u || u * n <= unit
  }

  lemma UnitsDivide(unit: nat, size: nat, u: nat, n: nat)
    requires IsField(unit, size) && IsField(u, n) && unit * size <= u
    ensures u == unit * size * (u / (unit * size)) && u / (unit * size) > 0
  {
  }

  /** Setting a sub-field: it reads back, and every other one that shares no bit with it is kept. */
  lemma FieldSetFacts(dest: byte, unit: nat, size: nat, val: nat)
    requires IsField(unit, size)
    ensures var x := FieldSet(dest, unit, size, val);
            && 0 <= x < 256 && FieldGet(x, unit, size) == val % size
            && forall u: nat, n: nat :: IsField(u, n) && BitsApart(unit, size, u, n) ==> FieldGet(x, u, n) == FieldGet(dest, u, n)
  {
    FieldSetIsByte(dest, unit, size, val);
    hide FieldSet, FieldGet, Above;
    FieldSetQuotients(dest, unit, size, val);
    var x := FieldSet(dest, unit, size, val);
    forall u: nat, n: nat | IsField(u, n) && BitsApart(unit, size, u, n)
      ensures FieldGet(x, u, n) == FieldGet(dest, u, n)
    {
      hide IsField;
      FieldsArePositive(unit, size);
      FieldsArePositive(u, n);
      if unit * size <= u {
        UnitsDivide(unit, size, u, n);
        FieldAboveIsKept(dest, unit, size, val, u / (unit * size), n);
      } else {
        UnitsDivide(u, n, unit, size);
        FieldBelowIsKept(dest, u, n, unit / (u * n), size, val);
      }
    }
  }

  lemma FieldsArePositive(unit: nat, size: nat)
    requires IsField(unit, size)
    ensures unit > 0 && size > 0
  {
  }

  /** `CF_Codec_Store_uint8`. */
  method StoreUint8(a: array<byte>, p: nat, val: nat)
    requires p < a.Length && val < 256
    modifies a
    ensures a[..] == Spliced(old(a[..]), p, [val]) && a[p] == val
  {
    a[p] := val;
  }

  /** `CF_FieldSetVal`, on a byte that has replaced the one in before. */
  method FieldSetVal(a: array<byte>, p: nat, unit: nat, size: nat, val: nat, ghost before: seq<byte>)
    requires p < a.Length == |before| && IsField(unit, size) && a[..] == Spliced(before, p, [a[p]])
    modifies a
    ensures FieldGet(a[p], unit, size) == val % size
    ensures forall u: nat, n: nat :: IsField(u, n) && BitsApart(unit, size, u, n) ==>
              FieldGet(a[p], u, n) == FieldGet(old(a[p]), u, n)
    ensures a[p] == FieldSet(old(a[p]), unit, size, val)
    ensures a[..] == Spliced(before, p, [a[p]])
  {
    hide IsField, BitsApart, FieldGet;
    FieldsArePositive(unit, size);
    FieldSetFacts(a[p], unit, size, val);
    a[p] := FieldSet(a[p], unit, size, val);
  }

  /** `CF_Codec_Store_uint16`: the low byte first, then the next, towards the front. */
  method StoreUint16(a: array<byte>, p: nat, value: nat)
    requires p + 2 <= a.Length
    modifies a
    ensures a[..] == Spliced(old(a[..]), p, ToBigEndian(value, 2))
  {
    var val := value;
    a[p + 1] := val % 256;
    val := val / 256;
    a[p] := val % 256;
    TwoBytes(value);
  }

  lemma TwoBytes(v: nat)
    ensures ToBigEndian(v, 2) == [v / 256 % 256, v % 256]
  {
    assert ToBigEndian(v / 256, 1) == ToBigEndian(v / 256 / 256, 0) + [v / 256 % 256];
  }

  lemma FourBytes(v: nat)
    ensures ToBigEndian(v, 4) == [v / 256 / 256 / 256 % 256, v / 256 / 256 % 256, v / 256 % 256, v % 256]
  {
    TwoBytes(v / 256 / 256);
    assert ToBigEndian(v / 256, 3) == ToBigEndian(v / 256 / 256, 2) + [v / 256 % 256];
  }

  /** `CF_Codec_Store_uint32`. */
  method StoreUint32(a: array<byte>, p: nat, value: nat)
    requires p + 4 <= a.Length
    modifies a
    ensures a[..] == Spliced(old(a[..]), p, ToBigEndian(value, 4))
  {
    var val := value;
    a[p + 3] := val % 256;
    val := val / 256;
    a[p + 2] := val % 256;
    val := val / 256;
    a[p + 1] := val % 256;
    val := val / 256;
    a[p] := val % 256;
    FourBytes(value);
  }

  /** `memcpy` into the buffer. */
  method CopyBytes(a: array<byte>, p: nat, data: seq<byte>)
    requires p + |data| <= a.Length
    modifies a
    ensures a[..] == Spliced(old(a[..]), p, data)
  {
    hide Spliced;
    ghost var before := a[..];
    var i := 0;
    SplicedEmpty(before, p);
    assert data[..0] == [];
    while i < |data|
      invariant 0 <= i <= |data|
      invariant a[..] == Spliced(before, p, data[..i])
    {
      ghost var now := a[..];
      a[p + i] := data[i];
      assert a[..] == now[p + i := data[i]];
      SplicedBack(before, p, data, i);
      i := i + 1;
    }
    assert data[..i] == data;
  }

  lemma SplicedBack(buffer: seq<byte>, p: nat, data: seq<byte>, i: nat)
    requires i < |data| && p + |data| <= |buffer|
    ensures |Spliced(buffer, p, data[..i])| == |buffer|
    ensures Spliced(buffer, p, data[..i])[p + i := data[i]] == Spliced(buffer, p, data[..i + 1])
  {
  }

  /** `CF_CFDP_GetValueEncodedSize`: the least number of bytes, from 1 to 8, that holds the value. */
  method GetValueEncodedSize(value: nat) returns (minSize: nat)
    requires value < UINT64
    ensures 1 <= minSize <= 8 && value < Pow256(minSize)
    ensures forall n :: 1 <= n < minSize ==> Pow256(n) <= value
  {
    var limit := 0x100;
    minSize := 1;
    PowValues();
    while minSize < 8 && value >= limit
      invariant 1 <= minSize <= 8 && (minSize < 8 ==> limit == Pow256(minSize))
      invariant forall n :: 1 <= n < minSize ==> Pow256(n) <= value
    {
      limit := (limit * 256) % UINT64;
      minSize := minSize + 1;
      PowStep(minSize);
    }
  }

  lemma PowStep(n: nat)
    requires 1 <= n <= 8
    ensures Pow256(n) == Pow256(n - 1) * 256 && (n < 8 ==> Pow256(n) < UINT64)
  {
    PowValues();
    assert Pow256(7) == 0x100_0000_0000_0000 && Pow256(5) == 0x100_0000_0000;
  }

  class Encoder {
    var isValid: bool
    var nextOffset: nat
    var maxSize: nat
    const base: array<byte>

    ghost function Now(): State
      reads this, base
    {
      State(isValid, nextOffset, maxSize, base[..])
    }

    ghost predicate Valid()
      reads this, base
    {
      Sound(Now())
    }

    /** `CF_CFDP_CodecReset`, with the buffer attached. */
    constructor (buffer: array<byte>, size: nat)
      requires size <= buffer.Length
      ensures base == buffer && Valid() && Now() == State(true, 0, size, buffer[..])
    {
      isValid, nextOffset, maxSize, base := true, 0, size, buffer;
    }

    /** `CF_CFDP_CodecCheckSize`.  The position advances if there is room even when the codec is no longer valid. */
    method CheckSize(chunkSize: nat) returns (ok: bool)
      requires Valid()
      modifies this
      ensures Valid() && ok == isValid && maxSize == old(maxSize)
      ensures if old(nextOffset) + chunkSize <= maxSize
              then nextOffset == old(nextOffset) + chunkSize && isValid == old(isValid)
              else nextOffset == old(nextOffset) && !isValid
    {
      var next := nextOffset + chunkSize;
      if next > maxSize {
        isValid := false;
      } else {
        nextOffset := next;
      }
      ok := isValid;
    }

    /** `CF_CFDP_DoEncodeChunk`: None stands for the null pointer. */
    method DoEncodeChunk(chunkSize: nat) returns (p: Option<nat>)
      requires Valid()
      modifies this
      ensures Valid() && p.Some? == (old(isValid) && old(nextOffset) + chunkSize <= maxSize)
      ensures p.Some? ==> p.value == old(nextOffset) && Now() == old(Now()).(pos := p.value + chunkSize)
      ensures forall out: Option<seq<byte>> :: p.None? && (out.Some? ==> |out.value| >= chunkSize)
                ==> Wrote(old(Now()), Now(), out)
      ensures p.None? ==> !isValid
    {
      var at := nextOffset;
      var ok := CheckSize(chunkSize);
      p := if ok then Some(at) else None;
    }

    /** `CF_EncodeIntegerInSize`: from the last byte to the first. */
    method EncodeIntegerInSize(value: nat, encodeSize: nat)
      requires Valid() && value < UINT64 && encodeSize < 256
      modifies this, base
      ensures Wrote(old(Now()), Now(), Some(ToBigEndian(value, encodeSize)))
    {
      hide Wrote, ToBigEndian, Spliced;
      ghost var s0 := Now();
      var chunk := DoEncodeChunk(encodeSize);
      if chunk.Some? {
        var p, k, rest := chunk.value, encodeSize, value;
        ghost var tail: seq<byte> := [];
        SplicedEmpty(base[..], p + k);
        SnocEmpty(value, encodeSize);
        while k > 0
          invariant 0 <= k <= encodeSize && |tail| == encodeSize - k
          invariant ToBigEndian(value, encodeSize) == ToBigEndian(rest, k) + tail
          invariant base[..] == Spliced(s0.buffer, p + k, tail)
          modifies base
        {
          k := k - 1;
          ghost var before := base[..];
          base[p + k] := rest % 256;
          assert base[..] == before[p + k := rest % 256];
          SplicedFront(s0.buffer, p + k, rest % 256, tail);
          ToBigEndianSnoc(rest, k, tail);
          tail, rest := [(rest % 256) as byte] + tail, rest / 256;
        }
        NoBytes(rest, tail);
        WroteChunk(s0, Now(), tail);
      }
    }

    /** The data of an LV or TLV: a null pointer where data is due ends the encoding. */
    method EncodeData(length: nat, data: Option<seq<byte>>)
      requires Valid() && length > 0 && (data.Some? ==> |data.value| == length)
      modifies this, base
      ensures Wrote(old(Now()), Now(), data)
    {
      ghost var s0 := Now();
      var chunk := DoEncodeChunk(length);
      if chunk.Some? && data.Some? {
        hide Wrote;
        CopyBytes(base, chunk.value, data.value);
        WroteChunk(s0, Now(), data.value);
      } else {
        isValid := false;
      }
    }

    /** `CF_CFDP_EncodeLV`. */
    method EncodeLv(v: Lv)
      requires Valid() && LvTyped(v)
      modifies this, base
      ensures Wrote(old(Now()), Now(), LvOut(v))
    {
      hide Wrote, Spliced, LvOut, Join;
      ghost var s0 := Now();
      LvOutIs(v);
      var chunk := DoEncodeChunk(1);
      if chunk.Some? {
        StoreUint8(base, chunk.value, v.length);
        ghost var s1 := Now();
        WroteChunk(s0, s1, [v.length]);
        if v.length > 0 {
          EncodeData(v.length, v.data);
        } else {
          WroteNothing(s1);
        }
        WroteThen(s0, s1, Now(), Some([v.length as byte]), DataOut(v.length, v.data));
      } else {
        JoinIsLonger(Some([v.length as byte]), DataOut(v.length, v.data));
      }
    }

    /** `CF_CFDP_EncodeTLV`. */
    method EncodeTlv(v: Tlv)
      requires Valid() && TlvTyped(v)
      modifies this, base
      ensures Wrote(old(Now()), Now(), TlvOut(v))
    {
      hide Wrote, Spliced, TlvOut, Join, Pow256;
      ghost var s0 := Now();
      ghost var fixed: seq<byte> := [if v.EntityId? then ENTITY_ID else v.tlvType, v.length];
      TlvOutIs(v);
      var chunk := DoEncodeChunk(2);
      if chunk.Some? {
        StoreUint8(base, chunk.value, if v.EntityId? then ENTITY_ID else v.tlvType);
        StoreUint8(base, chunk.value + 1, v.length);
        SplicedTwice(s0.buffer, s0.pos, [fixed[0]], [fixed[1]]);
        assert [fixed[0]] + [fixed[1]] == fixed;
        ghost var s1 := Now();
        WroteChunk(s0, s1, fixed);
        if v.EntityId? {
          EncodeIntegerInSize(v.eid, v.length);
        } else if v.length > 0 {
          EncodeData(v.length, v.data);
        } else {
          WroteNothing(s1);
        }
        WroteThen(s0, s1, Now(), Some(fixed),
                  if v.EntityId? then Some(ToBigEndian(v.eid, v.length)) else DataOut(v.length, v.data));
      } else {
        JoinIsLonger(Some(fixed), if v.EntityId? then Some(ToBigEndian(v.eid, v.length)) else DataOut(v.length, v.data));
      }
    }

    /** `CF_CFDP_EncodeSegmentRequest`. */
    method EncodeSegmentRequest(v: Segment)
      requires Valid()
      modifies this, base
      ensures Wrote(old(Now()), Now(), Some(SegmentBytes(v)))
    {
      hide Wrote, Spliced, ToBigEndian;
      ghost var s0 := Now();
      var chunk := DoEncodeChunk(8);
      if chunk.Some? {
        StoreUint32(base, chunk.value, v.offsetStart);
        StoreUint32(base, chunk.value + 4, v.offsetEnd);
        SplicedTwice(s0.buffer, s0.pos, ToBigEndian(v.offsetStart, 4), ToBigEndian(v.offsetEnd, 4));
        WroteChunk(s0, Now(), SegmentBytes(v));
      }
    }

    /** `CF_CFDP_EncodeAllTlv`. */
    method EncodeAllTlv(vs: seq<Tlv>)
      requires Valid() && |vs| <= MAX_TLV && forall i :: 0 <= i < |vs| ==> TlvTyped(vs[i])
      modifies this, base
      ensures old(isValid) ==> Wrote(old(Now()), Now(), TlvsOut(vs))
      ensures !old(isValid) ==> Now() == old(Now())
    {
      hide Wrote, TlvsOut, TlvOut, TlvTyped, Join;
      ghost var s0 := Now();
      var i := 0;
      StartOfTlvs(s0, vs);
      while isValid && i < |vs|
        invariant 0 <= i <= |vs| && Valid()
        invariant s0.isValid ==> Wrote(s0, Now(), TlvsOut(vs[..i]))
        invariant !s0.isValid ==> Now() == s0
      {
        ghost var s1 := Now();
        EncodeTlv(vs[i]);
        WroteThen(s0, s1, Now(), TlvsOut(vs[..i]), TlvOut(vs[i]));
        TlvsOutSnoc(vs, i);
        i := i + 1;
      }
      TlvsOutSplits(vs, i);
      if i == |vs| {
        assert vs[..i] == vs;
      } else if s0.isValid {
        WroteNoMore(s0, Now(), TlvsOut(vs[..i]), TlvsOut(vs[i..]));
      }
    }

    /** `CF_CFDP_EncodeAllSegments`. */
    method EncodeAllSegments(vs: seq<Segment>)
      requires Valid() && |vs| <= MAX_SEGMENTS
      modifies this, base
      ensures old(isValid) ==> Wrote(old(Now()), Now(), Some(SegmentsBytes(vs)))
      ensures !old(isValid) ==> Now() == old(Now())
    {
      hide Wrote, SegmentsBytes, SegmentBytes;
      ghost var s0 := Now();
      var i := 0;
      StartOfSegments(s0, vs);
      while isValid && i < |vs|
        invariant 0 <= i <= |vs| && Valid()
        invariant s0.isValid ==> Wrote(s0, Now(), Some(SegmentsBytes(vs[..i])))
        invariant !s0.isValid ==> Now() == s0
      {
        ghost var s1 := Now();
        EncodeSegmentRequest(vs[i]);
        WroteThen(s0, s1, Now(), Some(SegmentsBytes(vs[..i])), Some(SegmentBytes(vs[i])));
        SegmentsBytesSnoc(vs, i);
        i := i + 1;
      }
      if i == |vs| {
        assert vs[..i] == vs;
      } else if s0.isValid {
        SegmentsBytesSplits(vs, i);
        WroteNoMore(s0, Now(), Some(SegmentsBytes(vs[..i])), Some(SegmentsBytes(vs[i..])));
      }
    }

    /** The fixed part of a header but for the data length. */
    method StoreHeaderFlags(p: nat, h: Header)
      requires p + 4 <= base.Length && HeaderTyped(h)
      modifies base
      ensures base[..] == Spliced(old(base[..]), p, FixedHeader(h, old(base[..])[p + 1..p + 3]))
    {
      hide Spliced, FieldSet;
      ghost var b0 := base[..];
      StoreUint8(base, p, 0);
      FieldSetVal(base, p, 32, 8, h.version, b0);
      FieldSetVal(base, p, 8, 2, h.direction, b0);
      FieldSetVal(base, p, 16, 2, h.pduType, b0);
      FieldSetVal(base, p, 4, 2, h.txmMode, b0);
      FlagsAre(h);
      ghost var b1 := base[..];
      StoreUint8(base, p + 3, 0);
      FieldSetVal(base, p + 3, 16, 8, (h.eidLength + 255) % 256, b1);
      FieldSetVal(base, p + 3, 1, 8, (h.seqLength + 255) % 256, b1);
      LengthsAre(h);
      SplicedGap(b0, p, HeaderFlags(h), HeaderLengths(h));
    }

    /** `CF_CFDP_EncodeHeaderWithoutSize`: the two bytes of the data length keep what was there.  Returned is the length of
        the header, if its fixed part fitted. */
    method EncodeHeaderWithoutSize(h: Header) returns (headerLength: Option<nat>)
      requires Valid() && HeaderTyped(h)
      modifies this, base
      ensures Wrote(old(Now()), Now(), Some(UnsizedHeaderBytes(h, SizeGap(old(Now())))))
      ensures isValid ==> headerLength == Some(nextOffset)
    {
      hide Wrote, Spliced, FixedHeader, ToBigEndian, Pow256;
      ghost var s0 := Now();
      ghost var fixed := FixedHeader(h, SizeGap(s0));
      ghost var a, b, c := ToBigEndian(h.sourceEid, h.eidLength), ToBigEndian(h.sequenceNum, h.seqLength),
                           ToBigEndian(h.destinationEid, h.eidLength);
      FixedHeaderLength(h, SizeGap(s0));
      headerLength := None;
      var chunk := DoEncodeChunk(4);
      if chunk.Some? {
        StoreHeaderFlags(chunk.value, h);
        ghost var s1 := Now();
        WroteChunk(s0, s1, fixed);
        EncodeIntegerInSize(h.sourceEid, h.eidLength);
        WroteThen(s0, s1, Now(), Some(fixed), Some(a));
        ghost var s2 := Now();
        EncodeIntegerInSize(h.sequenceNum, h.seqLength);
        WroteThen(s0, s2, Now(), Some(fixed + a), Some(b));
        ghost var s3 := Now();
        EncodeIntegerInSize(h.destinationEid, h.eidLength);
        WroteThen(s0, s3, Now(), Some(fixed + a + b), Some(c));
        headerLength := Some(nextOffset);
      }
    }

    /** `CF_CFDP_EncodeHeaderFinalSize`: fills in the data length at the start of the buffer, if all went well, and closes
        the encoder in any case. */
    method EncodeHeaderFinalSize(dataLength: nat)
      requires Valid()
      modifies this, base
      ensures Now() == old(Now()).(isValid := false,
                                   buffer := if old(isValid && nextOffset >= 4)
                                             then Spliced(old(base[..]), 1, ToBigEndian(dataLength, 2))
                                             else old(base[..]))
    {
      hide Spliced, ToBigEndian;
      if isValid && nextOffset >= 4 {
        StoreUint16(base, 1, dataLength);
      }
      isValid := false;
    }

    /** `CF_CFDP_EncodeFileDirectiveHeader`. */
    method EncodeFileDirectiveHeader(directiveCode: nat)
      requires Valid() && directiveCode < 256
      modifies this, base
      ensures Wrote(old(Now()), Now(), Some([directiveCode]))
    {
      hide Wrote, Spliced;
      ghost var s0 := Now();
      var chunk := DoEncodeChunk(1);
      if chunk.Some? {
        StoreUint8(base, chunk.value, directiveCode);
        WroteChunk(s0, Now(), [directiveCode]);
      }
    }

    /** `CF_CFDP_EncodeMd`. */
    method EncodeMetadata(v: Metadata)
      requires Valid() && LvTyped(v.source) && LvTyped(v.dest)
      modifies this, base
      ensures Wrote(old(Now()), Now(), MetadataOut(v))
    {
      hide Wrote, Spliced, Join, LvOut, MetadataOut, FieldSet, ToBigEndian;
      ghost var s0 := Now();
      MetadataOutIs(v);
      JoinIsLonger(Some(MetadataFixed(v)), LvOut(v.source));
      JoinIsLonger(Join(Some(MetadataFixed(v)), LvOut(v.source)), LvOut(v.dest));
      var chunk := DoEncodeChunk(5);
      if chunk.Some? {
        StoreUint8(base, chunk.value, 0);
        FieldSetVal(base, chunk.value, 128, 2, v.closeReq, s0.buffer);
        FieldSetVal(base, chunk.value, 1, 16, v.checksumType, s0.buffer);
        StoreUint32(base, chunk.value + 1, v.size);
        SplicedTwice(s0.buffer, s0.pos, MetadataFlags(v), ToBigEndian(v.size, 4));
        ghost var s1 := Now();
        WroteChunk(s0, s1, MetadataFixed(v));
        EncodeLv(v.source);
        WroteThen(s0, s1, Now(), Some(MetadataFixed(v)), LvOut(v.source));
        ghost var s2 := Now();
        EncodeLv(v.dest);
        WroteThen(s0, s2, Now(), Join(Some(MetadataFixed(v)), LvOut(v.source)), LvOut(v.dest));
      }
    }

    /** `CF_CFDP_EncodeEof`. */
    method EncodeEof(v: Eof)
      requires Valid() && |v.tlvs| <= MAX_TLV && forall i :: 0 <= i < |v.tlvs| ==> TlvTyped(v.tlvs[i])
      modifies this, base
      ensures Wrote(old(Now()), Now(), EofOut(v))
    {
      hide Wrote, Spliced, Join, TlvsOut, TlvTyped, EofOut, FieldSet, ToBigEndian;
      ghost var s0 := Now();
      EofOutIs(v);
      JoinIsLonger(Some(EofFixed(v)), TlvsOut(v.tlvs));
      var chunk := DoEncodeChunk(9);
      if chunk.Some? {
        StoreUint8(base, chunk.value, 0);
        FieldSetVal(base, chunk.value, 16, 16, v.cc, s0.buffer);
        StoreUint32(base, chunk.value + 1, v.crc);
        SplicedTwice(s0.buffer, s0.pos, EofFlags(v), ToBigEndian(v.crc, 4));
        StoreUint32(base, chunk.value + 5, v.size);
        SplicedTwice(s0.buffer, s0.pos, EofFlags(v) + ToBigEndian(v.crc, 4), ToBigEndian(v.size, 4));
        ghost var s1 := Now();
        WroteChunk(s0, s1, EofFixed(v));
        EncodeAllTlv(v.tlvs);
        WroteThen(s0, s1, Now(), Some(EofFixed(v)), TlvsOut(v.tlvs));
      }
    }

    /** `CF_CFDP_EncodeFin`. */
    method EncodeFin(v: Fin)
      requires Valid() && |v.tlvs| <= MAX_TLV && forall i :: 0 <= i < |v.tlvs| ==> TlvTyped(v.tlvs[i])
      modifies this, base
      ensures Wrote(old(Now()), Now(), FinOut(v))
    {
      hide Wrote, Spliced, Join, TlvsOut, TlvTyped, FinOut, FieldSet;
      ghost var s0 := Now();
      FinOutIs(v);
      JoinIsLonger(Some(FinFixed(v)), TlvsOut(v.tlvs));
      var chunk := DoEncodeChunk(1);
      if chunk.Some? {
        StoreUint8(base, chunk.value, 0);
        FieldSetVal(base, chunk.value, 16, 16, v.cc, s0.buffer);
        FieldSetVal(base, chunk.value, 4, 2, v.deliveryCode, s0.buffer);
        FieldSetVal(base, chunk.value, 1, 4, v.fileStatus, s0.buffer);
        ghost var s1 := Now();
        WroteChunk(s0, s1, FinFixed(v));
        EncodeAllTlv(v.tlvs);
        WroteThen(s0, s1, Now(), Some(FinFixed(v)), TlvsOut(v.tlvs));
      }
    }

    /** `CF_CFDP_EncodeAck`. */
    method EncodeAck(v: Ack)
      requires Valid()
      modifies this, base
      ensures Wrote(old(Now()), Now(), Some(AckBytes(v)))
    {
      hide Wrote, Spliced, AckBytes, FieldSet;
      ghost var s0 := Now();
      AckBytesAre(v);
      var chunk := DoEncodeChunk(2);
      if chunk.Some? {
        StoreUint8(base, chunk.value, 0);
        FieldSetVal(base, chunk.value, 16, 16, v.directiveCode, s0.buffer);
        FieldSetVal(base, chunk.value, 1, 16, v.subtypeCode, s0.buffer);
        ghost var b1 := base[..];
        StoreUint8(base, chunk.value + 1, 0);
        FieldSetVal(base, chunk.value + 1, 16, 16, v.cc, b1);
        FieldSetVal(base, chunk.value + 1, 1, 4, v.txnStatus, b1);
        SplicedTwice(s0.buffer, s0.pos, [AckBytes(v)[0]], [AckBytes(v)[1]]);
        WroteChunk(s0, Now(), AckBytes(v));
      }
    }

    /** `CF_CFDP_EncodeNak`. */
    method EncodeNak(v: Nak)
      requires Valid() && |v.segments| <= MAX_SEGMENTS
      modifies this, base
      ensures Wrote(old(Now()), Now(), Some(NakBytes(v)))
    {
      hide Wrote, Spliced, SegmentsBytes, ToBigEndian;
      ghost var s0 := Now();
      ghost var fixed := ToBigEndian(v.scopeStart, 4) + ToBigEndian(v.scopeEnd, 4);
      var chunk := DoEncodeChunk(8);
      if chunk.Some? {
        StoreUint32(base, chunk.value, v.scopeStart);
        StoreUint32(base, chunk.value + 4, v.scopeEnd);
        SplicedTwice(s0.buffer, s0.pos, ToBigEndian(v.scopeStart, 4), ToBigEndian(v.scopeEnd, 4));
        ghost var s1 := Now();
        WroteChunk(s0, s1, fixed);
        EncodeAllSegments(v.segments);
        WroteThen(s0, s1, Now(), Some(fixed), Some(SegmentsBytes(v.segments)));
      }
    }

    /** `CF_CFDP_EncodeFileDataHeader`: the optional fields come first. */
    method EncodeFileDataHeader(withMeta: bool, v: FileData)
      requires Valid() && |v.segments| <= MAX_SEGMENTS
      modifies this, base
      ensures Wrote(old(Now()), Now(), Some(FileDataHeaderBytes(withMeta, v)))
    {
      hide Wrote, Spliced, SegmentsBytes, ToBigEndian, FieldSet;
      ghost var s0 := Now();
      ghost var optional := MetaBytes(withMeta, v);
      MetaBytesAre(withMeta, v);
      if withMeta {
        var flags := DoEncodeChunk(1);
        if flags.Some? {
          StoreUint8(base, flags.value, 0);
          FieldSetVal(base, flags.value, 64, 4, v.continuationState, s0.buffer);
          FieldSetVal(base, flags.value, 1, 64, |v.segments|, s0.buffer);
          ghost var s1 := Now();
          WroteChunk(s0, s1, MetaFlags(v));
          EncodeAllSegments(v.segments);
          WroteThen(s0, s1, Now(), Some(MetaFlags(v)), Some(SegmentsBytes(v.segments)));
        }
      }
      ghost var s2 := Now();
      assert withMeta ==> Wrote(s0, s2, Some(optional));
      var chunk := DoEncodeChunk(4);
      if chunk.Some? {
        StoreUint32(base, chunk.value, v.offset);
        WroteChunk(s2, Now(), ToBigEndian(v.offset, 4));
      }
      if withMeta {
        WroteThen(s0, s2, Now(), Some(optional), Some(ToBigEndian(v.offset, 4)));
      }
    }
  }
}
