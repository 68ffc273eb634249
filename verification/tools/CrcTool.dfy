/**
 The table CRC tool (`cfe_ts_crc.c`): the table-driven loop and the program around it, which reads a table file in
 pieces of whatever size the operating system hands out.
 */
module CrcTool {
  import opened CrcArc
  import opened Options

  /** The value of an `int16` returned as `uint32`: the upper half repeats the sign bit. */
  function SignExtend(r: bv16): bv32 {
    if r & 0x8000 != 0 then (r as bv32) | 0xFFFF_0000 else r as bv32
  }

  function Low16(x: bv32): bv16 {
    (x & 0xFFFF) as bv16
  }

  /** `CalculateCRC`. */
  method CalculateCRC(data: seq<bv8>, inputCrc: bv32) returns (result: bv32)
    ensures result == SignExtend(Arc(Low16(inputCrc), data))
  {
    hide Arc, FeedAll, Bits, TableRound;
    var crc := Low16(inputCrc);
    assert data[..0] == [];
    ArcEmpty(crc);
    for i := 0 to |data|
      invariant crc == Arc(Low16(inputCrc), data[..i])
    {
      ArcNext(Low16(inputCrc), data[..i], data[i]);
      assert data[..i] + [data[i]] == data[..i + 1];
      crc := TableRound(crc, data[i]);
    }
    assert data[..|data|] == data;
    result := SignExtend(crc);
  }

  lemma ArcEmpty(init: bv16)
    ensures Arc(init, []) == init
  {
    ReflectFacts(init);
  }

  lemma ArcNext(init: bv16, data: seq<bv8>, b: bv8)
    ensures Arc(init, data + [b]) == TableRound(Arc(init, data), b)
  {
    hide Arc, FeedAll, TableRound;
    ArcConcat(init, data, [b]);
    ArcIsFeedAll(Arc(init, data), [b]);
    assert [b][..0] == [] && Bits([b]) == ByteBits(b);
    TableStep(Arc(init, data), b);
  }

  /** The truncation at the start of the next call undoes the sign extension at the end of the last one. */
  lemma Low16OfSignExtend(r: bv16)
    ensures Low16(SignExtend(r)) == r
    ensures SignExtend(r) >> 16 == if r & 0x8000 != 0 then 0xFFFF else 0
  {
  }

  const HEADER_SIZE: nat := 64 + 52
  const BUFFER_SIZE: nat := 100

  function Payload(file: seq<bv8>): seq<bv8> {
    if HEADER_SIZE <= |file| then file[HEADER_SIZE..] else []
  }

  /** The results of successive `read` calls with left bytes to go: each returns part of what is left, at most one buffer,
      0 only at the end of the file, or a negative number on failure; the program stops at the first result <= 0. */
  ghost predicate LegalReads(counts: seq<int>, left: nat) {
    && counts != []
    && (|| counts[0] < 0
        || (counts[0] == 0 && left == 0)
        || (0 < counts[0] <= BUFFER_SIZE && counts[0] <= left && LegalReads(counts[1..], left - counts[0])))
  }

  ghost predicate ReadFails(counts: seq<int>) {
    counts != [] && (counts[0] < 0 || (counts[0] > 0 && ReadFails(counts[1..])))
  }

  lemma PayloadAt(file: seq<bv8>, from: nat, n: nat)
    requires from + n <= |Payload(file)|
    ensures n > 0 ==> HEADER_SIZE + from + n <= |file|
    ensures Payload(file)[from..from + n]
            == if n == 0 then [] else file[HEADER_SIZE + from..HEADER_SIZE + from + n]
  {
  }

  /** What the program prints: the size and the CRC of the table behind the header.  None stands for a failed read. */
  method RunTool(file: seq<bv8>, counts: seq<int>) returns (printed: Option<(nat, bv32)>)
    requires LegalReads(counts, |Payload(file)|)
    ensures printed.None? <==> ReadFails(counts)
    ensures printed.Some? ==> printed.value.0 == |Payload(file)|
    ensures printed.Some? ==> printed.value.1 == SignExtend(Arc(0, Payload(file)))
  {
    hide Arc;
    ghost var payload := Payload(file);
    var pos := HEADER_SIZE;
    var fileSize := 0;
    var fileCrc: bv32 := 0;
    var call := 0;
    var readSize := 1;
    ArcEmpty(0);
    assert Low16(SignExtend(0)) == 0;
    while readSize > 0
      invariant 0 <= call <= |counts| && 0 <= fileSize <= |payload|
      invariant readSize > 0 ==> pos == HEADER_SIZE + fileSize
      invariant readSize > 0 ==> LegalReads(counts[call..], |payload| - fileSize)
      invariant readSize > 0 ==> (ReadFails(counts) <==> ReadFails(counts[call..]))
      invariant readSize == 0 ==> fileSize == |payload| && !ReadFails(counts)
      invariant readSize >= 0
      invariant fileCrc == SignExtend(Arc(0, payload[..fileSize]))
      decreases |counts| - call, readSize
    {
      readSize := counts[call];
      assert counts[call..][1..] == counts[call + 1..];
      call := call + 1;
      if readSize < 0 {
        return None;
      }
      PayloadAt(file, fileSize, readSize);
      var buffer := if readSize == 0 then [] else file[pos..pos + readSize];
      Low16OfSignExtend(Arc(0, payload[..fileSize]));
      ArcConcat(0, payload[..fileSize], buffer);
      assert payload[..fileSize] + buffer == payload[..fileSize + readSize];
      fileCrc := CalculateCRC(buffer, fileCrc);
      pos := pos + readSize;
      fileSize := fileSize + readSize;
    }
    assert payload[..fileSize] == payload;
    printed := Some((fileSize, fileCrc));
  }

  lemma Round(data: seq<bv8>, b: bv8, crc: bv16, next: bv16)
    requires Arc(0, data) == crc && TableRound(crc, b) == next
    ensures Arc(0, data + [b]) == next
  {
    hide Arc, TableRound;
    ArcNext(0, data, b);
  }

  lemma FirstRounds()
    ensures TableRound(0, 0x31) == 0xD4C1 && TableRound(0xD4C1, 0x32) == 0x4594 && TableRound(0x4594, 0x33) == 0xBA04
    ensures TableRound(0xBA04, 0x34) == 0x14BA && TableRound(0x14BA, 0x35) == 0xA455
  {
  }

  lemma LastRounds()
    ensures TableRound(0xA455, 0x36) == 0x29E4 && TableRound(0x29E4, 0x37) == 0x9D68
    ensures TableRound(0x9D68, 0x38) == 0x3C9D && TableRound(0x3C9D, 0x39) == 0xBB3D
  {
  }

  /** The check value by which CRC-16/ARC is known: the CRC of the text "123456789" is 0xBB3D. */
  lemma CheckValue()
    ensures Arc(0, [0x31, 0x32, 0x33, 0x34, 0x35, 0x36, 0x37, 0x38, 0x39]) == 0xBB3D
  {
    hide Arc, TableRound;
    FirstRounds();
    LastRounds();
    var s: seq<bv8> := [0x31, 0x32, 0x33, 0x34, 0x35, 0x36, 0x37, 0x38, 0x39];
    ArcEmpty(0);
    assert [] + [0x31] == s[..1] && s[..1] + [0x32] == s[..2] && s[..2] + [0x33] == s[..3] && s[..3] + [0x34] == s[..4];
    assert s[..4] + [0x35] == s[..5] && s[..5] + [0x36] == s[..6] && s[..6] + [0x37] == s[..7] && s[..7] + [0x38] == s[..8];
    assert s[..8] + [0x39] == s;
    Round([], 0x31, 0, 0xD4C1);
    Round(s[..1], 0x32, 0xD4C1, 0x4594);
    Round(s[..2], 0x33, 0x4594, 0xBA04);
    Round(s[..3], 0x34, 0xBA04, 0x14BA);
    Round(s[..4], 0x35, 0x14BA, 0xA455);
    Round(s[..5], 0x36, 0xA455, 0x29E4);
    Round(s[..6], 0x37, 0x29E4, 0x9D68);
    Round(s[..7], 0x38, 0x9D68, 0x3C9D);
    Round(s[..8], 0x39, 0x3C9D, 0xBB3D);
  }

  /** The headers that are skipped have 116 bytes. */
  lemma PayloadIs(file: seq<bv8>)
    ensures |file| >= 116 ==> Payload(file) == file[116..]
    ensures |file| < 116 ==> Payload(file) == []
  {
  }
}
