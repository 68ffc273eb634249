/**
 The command packets that `cfdp_attach_cmd_header.py` wraps around PDUs: a primary header of section 4.1.3 of CCSDS 133.0-B, four
 bytes of offset, a secondary header of command code and checksum, and the payload.
 */
module CommandPacket {

  /** The exclusive or of all bytes. */
  function Xor(s: seq<bv8>): bv8 {
    if s == [] then 0 else Xor(s[..|s| - 1]) ^ s[|s| - 1]
  }

  lemma {:induction false} XorConcat(a: seq<bv8>, b: seq<bv8>)
    ensures Xor(a + b) == Xor(a) ^ Xor(b)
  {
    if b == [] {
      assert a + b == a;
    } else {
      var n := |b| - 1;
      XorConcat(a, b[..n]);
      assert (a + b)[..|a + b| - 1] == a + b[..n];
    }
  }

  function ByteOf(n: nat): bv8
    requires n < 256
  {
    n as bv8
  }

  /** The two bytes of `to_bytes(2, byteorder='big')`. */
  function TwoBytes(v: nat): (b: seq<bv8>)
    requires v < 0x1_0000
    ensures |b| == 2
  {
    [ByteOf(v / 256), ByteOf(v % 256)]
  }

  const OFFSET_SIZE: nat := 4
  const MAX_PAYLOAD: nat := 0xFFFF + 7 - 12

  /** Packet identifier, sequence control and length: the length of the whole packet less 7. */
  function PrimaryHeader(pktId: nat, payloadSize: nat): (b: seq<bv8>)
    requires pktId < 0x1_0000 && payloadSize <= MAX_PAYLOAD
    ensures |b| == 6
  {
    TwoBytes(pktId) + TwoBytes(0xC000) + TwoBytes(6 + 2 + payloadSize + OFFSET_SIZE - 7)
  }

  function Zeros(): seq<bv8> {
    [0, 0, 0, 0]
  }

  /** The checksum loop, from its initial value. */
  function Folded(s: seq<bv8>): bv8 {
    0xFF ^ Xor(s)
  }

  /** The checksum is taken over the packet with what its own place holds at that moment. */
  function Checksum(pktId: nat, cmdCode: bv8, place: bv8, payload: seq<bv8>): bv8
    requires pktId < 0x1_0000 && |payload| <= MAX_PAYLOAD
  {
    Folded(PrimaryHeader(pktId, |payload|) + Zeros() + [cmdCode, place] + payload)
  }

  function Packet(pktId: nat, cmdCode: bv8, checksum: bv8, payload: seq<bv8>): seq<bv8>
    requires pktId < 0x1_0000 && |payload| <= MAX_PAYLOAD
  {
    PrimaryHeader(pktId, |payload|) + Zeros() + [cmdCode, checksum] + payload
  }

  class MiniCmdUtil {
    const pktId: nat
    const cmdCode: nat
    const payload: seq<bv8>
    var packet: seq<bv8>
    var checksum: bv8
    const cfsCmdSecHdr: array<bv8>

    ghost predicate Valid()
      reads this
    {
      cfsCmdSecHdr.Length == 2 && checksum == 0xFF
    }

    constructor (pktId: nat, cmdCode: nat, payload: seq<bv8>)
      ensures Valid() && this.pktId == pktId && this.cmdCode == cmdCode && this.payload == payload
      ensures packet == [] && fresh(cfsCmdSecHdr) && cfsCmdSecHdr[..] == [0, 0]
    {
      this.pktId, this.cmdCode, this.payload := pktId, cmdCode, payload;
      packet, checksum := [], 0xFF;
      cfsCmdSecHdr := new bv8[2](_ => 0);
    }

    /** Whether the numbers fit: otherwise Python raises an error, for the identifier and the length before anything is
        written. */
    predicate HeaderFits() {
      pktId < 0x1_0000 && |payload| <= MAX_PAYLOAD
    }

    /** `assemble_pri_header`; None stands for the raised error. */
    method AssemblePriHeader() returns (ok: bool, header: seq<bv8>)
      requires Valid()
      ensures ok == HeaderFits()
      ensures ok ==> header == PrimaryHeader(pktId, |payload|)
    {
      header := [];
      if pktId >= 0x1_0000 {
        return false, header;
      }
      header := header + TwoBytes(pktId) + TwoBytes(0xC000);
      var totalPacketLen := 6 + cfsCmdSecHdr.Length;
      totalPacketLen := totalPacketLen + |payload|;
      totalPacketLen := totalPacketLen + OFFSET_SIZE;
      if totalPacketLen - 7 >= 0x1_0000 {
        return false, header;
      }
      header := header + TwoBytes(totalPacketLen - 7);
      ok := true;
    }

    /** `assemble_packet`: a code that is no byte is only noticed after the first ten bytes have been written. */
    method AssemblePacket() returns (ok: bool)
      requires Valid()
      modifies this`packet, this`checksum, cfsCmdSecHdr
      ensures Valid() && ok == (HeaderFits() && cmdCode < 256)
      ensures !HeaderFits() ==> packet == old(packet) && cfsCmdSecHdr[..] == old(cfsCmdSecHdr[..])
      ensures HeaderFits() && cmdCode >= 256 ==>
        packet == old(packet) + PrimaryHeader(pktId, |payload|) + Zeros() && cfsCmdSecHdr[..] == old(cfsCmdSecHdr[..])
      ensures ok ==> cfsCmdSecHdr[..] == [ByteOf(cmdCode), Checksum(pktId, ByteOf(cmdCode), old(cfsCmdSecHdr[1]), payload)]
      ensures ok ==> packet == old(packet) + Packet(pktId, ByteOf(cmdCode), cfsCmdSecHdr[1], payload)
    {
      hide PrimaryHeader, Xor, ByteOf, Folded, TwoBytes;
      var headerOk, priHeader := AssemblePriHeader();
      if !headerOk {
        return false;
      }
      packet := packet + priHeader;
      var priOffset := Zeros();
      packet := packet + priOffset;
      if cmdCode >= 256 {
        return false;
      }
      cfsCmdSecHdr[0] := ByteOf(cmdCode);
      var all := priHeader + priOffset + cfsCmdSecHdr[..] + payload;
      ghost var place := old(cfsCmdSecHdr[1]);
      assert cfsCmdSecHdr[..] == [ByteOf(cmdCode), place];
      NothingYet(all);
      for i := 0 to |all|
        invariant checksum == Folded(all[..i])
        modifies this`checksum
      {
        XorNext(all, i);
        checksum := checksum ^ all[i];
      }
      assert all[..|all|] == all;
      cfsCmdSecHdr[1] := checksum;
      assert cfsCmdSecHdr[..] == [ByteOf(cmdCode), checksum];
      packet := packet + cfsCmdSecHdr[..];
      packet := packet + payload;
      checksum := 0xFF;
      ok := true;
      PacketParts(old(packet), priHeader, priOffset, cfsCmdSecHdr[..], payload);
    }
  }

  lemma NothingYet(all: seq<bv8>)
    ensures Folded(all[..0]) == 0xFF
  {
  }

  lemma XorNext(all: seq<bv8>, i: nat)
    requires i < |all|
    ensures Folded(all[..i + 1]) == Folded(all[..i]) ^ all[i]
  {
    assert all[..i + 1][..i] == all[..i];
    Reassociate(Xor(all[..i]), all[i]);
  }

  lemma Reassociate(x: bv8, y: bv8)
    ensures 0xFF ^ (x ^ y) == (0xFF ^ x) ^ y
  {
  }

  lemma PacketParts(before: seq<bv8>, a: seq<bv8>, b: seq<bv8>, c: seq<bv8>, d: seq<bv8>)
    ensures before + a + b + c + d == before + (a + b + c + d)
  {
  }

  lemma FromZero(x: bv8)
    ensures 0 ^ x == x
  {
  }

  lemma XorOne(x: bv8)
    ensures Xor([x]) == x
  {
    assert [x][..0] == [];
    FromZero(x);
  }

  lemma XorPair(x: bv8, y: bv8)
    ensures Xor([x, y]) == x ^ y
  {
    hide Xor;
    XorConcat([x], [y]);
    XorOne(x);
    XorOne(y);
    assert [x] + [y] == [x, y];
  }

  /** The exclusive or of a whole packet whose checksum was taken with place in the checksum's own byte. */
  lemma PacketXor(pktId: nat, cmdCode: bv8, place: bv8, payload: seq<bv8>)
    requires pktId < 0x1_0000 && |payload| <= MAX_PAYLOAD
    ensures Xor(Packet(pktId, cmdCode, Checksum(pktId, cmdCode, place, payload), payload)) == 0xFF ^ place
  {
    hide Xor, PrimaryHeader;
    var head, sum := PrimaryHeader(pktId, |payload|) + Zeros(), Checksum(pktId, cmdCode, place, payload);
    XorConcat(head + [cmdCode, place], payload);
    XorConcat(head, [cmdCode, place]);
    XorConcat(head + [cmdCode, sum], payload);
    XorConcat(head, [cmdCode, sum]);
    XorPair(cmdCode, place);
    XorPair(cmdCode, sum);
    Cancels(Xor(head), cmdCode, place, Xor(payload));
  }

  lemma Cancels(h: bv8, c: bv8, p: bv8, d: bv8)
    ensures var sum := 0xFF ^ (h ^ (c ^ p) ^ d); h ^ (c ^ sum) ^ d == 0xFF ^ p
  {
  }

  /** A packet checks, all its bytes giving 0xFF, exactly if the place of the checksum was 0 when the checksum was taken: for the
      first packet of an object, but in general not for a later one. */
  lemma PacketChecksIff(pktId: nat, cmdCode: bv8, place: bv8, payload: seq<bv8>)
    requires pktId < 0x1_0000 && |payload| <= MAX_PAYLOAD
    ensures Xor(Packet(pktId, cmdCode, Checksum(pktId, cmdCode, place, payload), payload)) == 0xFF <==> place == 0
  {
    hide Xor, Packet, Checksum;
    PacketXor(pktId, cmdCode, place, payload);
    assert 0xFF ^ place == 0xFF <==> place == 0;
  }

  /** The second packet of the same object carries the checksum 0, whatever it contains, so it checks only if the first
      checksum was 0 too. */
  lemma SecondPacketHasNoChecksum(pktId: nat, cmdCode: bv8, payload: seq<bv8>)
    requires pktId < 0x1_0000 && |payload| <= MAX_PAYLOAD
    ensures var first := Checksum(pktId, cmdCode, 0, payload); Checksum(pktId, cmdCode, first, payload) == 0
  {
    hide Xor, PrimaryHeader;
    var first := Checksum(pktId, cmdCode, 0, payload);
    var head := PrimaryHeader(pktId, |payload|) + Zeros();
    XorConcat(head + [cmdCode, 0], payload);
    XorConcat(head, [cmdCode, 0]);
    XorConcat(head + [cmdCode, first], payload);
    XorConcat(head, [cmdCode, first]);
    XorPair(cmdCode, 0);
    XorPair(cmdCode, first);
    CancelsTwice(Xor(head), cmdCode, Xor(payload));
  }

  lemma CancelsTwice(h: bv8, c: bv8, d: bv8)
    ensures var first := 0xFF ^ (h ^ (c ^ 0) ^ d); 0xFF ^ (h ^ (c ^ first) ^ d) == 0
  {
  }

  lemma {:induction false} ByteWith(n: nat) returns (b: bv8)
    requires n < 256
    ensures b as int == n
  {
    b := 0;
    if n > 0 {
      b := ByteWith(n - 1);
      b := b + 1;
    }
  }

  lemma ByteOfIs(n: nat)
    requires n < 256
    ensures ByteOf(n) as int == n
  {
    var b := ByteWith(n);
    OnlyByteWith(n, b);
  }

  lemma OnlyByteWith(n: nat, b: bv8)
    requires n < 256 && b as int == n
    ensures ByteOf(n) == b
  {
  }

  lemma TwoBytesAre(v: nat)
    requires v < 0x1_0000
    ensures 256 * TwoBytes(v)[0] as int + TwoBytes(v)[1] as int == v
  {
    hide ByteOf;
    ByteOfIs(v / 256);
    ByteOfIs(v % 256);
  }

  /** Every packet byte by byte, numbers most significant byte first: identifier, 0xC000, its length less 7, four zeros, command
      code, checksum and payload. */
  lemma PacketLayout(pktId: nat, cmdCode: bv8, checksum: bv8, payload: seq<bv8>)
    requires pktId < 0x1_0000 && |payload| <= 65530
    ensures var p := Packet(pktId, cmdCode, checksum, payload);
            && |p| == 12 + |payload| && 256 * p[0] as int + p[1] as int == pktId && p[2] == 0xC0 && p[3] == 0
            && 256 * p[4] as int + p[5] as int == |p| - 7 && p[6..10] == [0, 0, 0, 0]
            && p[10] == cmdCode && p[11] == checksum && p[12..] == payload
  {
    hide TwoBytes;
    var n := 6 + 2 + |payload| + OFFSET_SIZE - 7;
    var a, b, c := TwoBytes(pktId), TwoBytes(0xC000), TwoBytes(n);
    TwoBytesAre(pktId);
    TwoBytesAre(n);
    SequenceControl();
    var p := Packet(pktId, cmdCode, checksum, payload);
    assert p == a + b + c + (Zeros() + [cmdCode, checksum] + payload);
    assert p[6..10] == [0, 0, 0, 0] && p[12..] == payload;
  }

  lemma SequenceControl()
    ensures TwoBytes(0xC000) == [0xC0, 0]
  {
    ByteOfIs(0xC0);
    ByteOfIs(0);
  }
}
