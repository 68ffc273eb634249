/**
 The contract between the two table tools: on any file that `elf2cfetbl` writes, the CRC tool skips exactly the two headers,
 prints the size that the table header names, and computes the CRC of the bytes of the object.
 */
module TableContract {
  import opened Bytes
  import opened Options
  import opened ElfLayout
  import opened ElfSpec
  import opened ElfTool
  import CrcArc
  import CrcTool

  function AsBits(s: seq<byte>): (r: seq<bv8>)
    ensures |r| == |s|
  {
    seq(|s|, i requires 0 <= i < |s| => s[i] as bv8)
  }

  /** Where the size stands in the table header. */
  const NUM_BYTES_AT: nat := 64 + 8

  function NumBytes(table: seq<byte>): nat
    requires |table| >= NUM_BYTES_AT + 4
  {
    BigEndian(table[NUM_BYTES_AT..NUM_BYTES_AT + 4])
  }

  lemma HeaderLengths(opts: Settings, def: Definition, numBytes: nat)
    requires SettingsFit(opts, def)
    ensures |FileHeader(opts, Overridden(opts.description, def.description))| == 64
    ensures |TableHeader(numBytes, Overridden(opts.tableName, def.tableName))| == 52
    ensures TableHeader(numBytes, Overridden(opts.tableName, def.tableName))[8..12] == ToBigEndian(numBytes, 4)
  {
    hide Padded, ToBigEndian;
  }

  /** The parts of a table file. */
  lemma TableFileParts(opts: Settings, def: Definition, data: seq<byte>)
    requires SettingsFit(opts, def) && |data| < LIMIT32
    ensures var f := TableFile(opts, def, data);
            && |f| == CrcTool.HEADER_SIZE + |data| && f[CrcTool.HEADER_SIZE..] == data && NumBytes(f) == |data|
  {
    hide FileHeader, TableHeader, BigEndian;
    var a := FileHeader(opts, Overridden(opts.description, def.description));
    var b := TableHeader(|data|, Overridden(opts.tableName, def.tableName));
    HeaderLengths(opts, def, |data|);
    PowValues();
    BigEndianExact(|data|, 4);
    var f := TableFile(opts, def, data);
    assert f == a + b + data;
    assert f[72..76] == b[8..12];
  }

  /** A text in n bytes at pos, filled up with zeros. */
  ghost predicate TextAt(s: seq<byte>, pos: nat, n: nat, text: Name) {
    && |text| <= n && pos + n <= |s| && s[pos..pos + |text|] == text
    && forall i :: pos + |text| <= i < pos + n ==> s[i] == 0
  }

  lemma StoredAt(s: seq<byte>, pos: nat, v: nat)
    requires v < LIMIT32 && pos + 4 <= |s| && s[pos..pos + 4] == ToBigEndian(v, 4)
    ensures U32(s, pos) == v
  {
    hide U32, ToBigEndian;
    PowValues();
    FourAt(s, pos);
    BigEndianExact(v, 4);
  }

  lemma PaddedAt(s: seq<byte>, pos: nat, n: nat, text: Name)
    requires |text| <= n && pos + n <= |s| && s[pos..pos + n] == Padded(text, n)
    ensures TextAt(s, pos, n, text)
  {
    var b := Padded(text, n);
    assert s[pos..pos + |text|] == b[..|text|] == text;
    forall i | pos + |text| <= i < pos + n
      ensures s[i] == 0
    {
      assert s[i] == s[pos..pos + n][i - pos];
    }
  }

  lemma FileHeaderParts(opts: Settings, description: Name)
    requires |description| <= 32
    ensures var h := FileHeader(opts, description);
            && |h| == 64 && h[0..4] == ToBigEndian(0x63464531, 4) && h[4..8] == ToBigEndian(8, 4)
            && h[8..12] == ToBigEndian(64, 4) && h[12..16] == ToBigEndian(opts.spacecraftId, 4)
            && h[16..20] == ToBigEndian(opts.processorId, 4) && h[20..24] == ToBigEndian(opts.applicationId, 4)
            && h[24..28] == ToBigEndian(opts.timeSeconds, 4) && h[28..32] == ToBigEndian(0, 4)
            && h[32..64] == Padded(description, 32)
  {
    hide Padded, ToBigEndian;
  }

  lemma TableHeaderParts(numBytes: nat, tableName: Name)
    requires |tableName| <= 40
    ensures var h := TableHeader(numBytes, tableName);
            && |h| == 52 && h[0..4] == ToBigEndian(0, 4) && h[4..8] == ToBigEndian(0, 4) && h[8..12] == ToBigEndian(numBytes, 4)
            && h[12..52] == Padded(tableName, 40)
  {
    hide Padded, ToBigEndian;
  }

  /** A table file byte by byte: the file header of the flight executive, the table header, and the data. */
  ghost predicate TableFileAt(f: seq<byte>, opts: Settings, description: Name, tableName: Name, data: seq<byte>) {
    && |f| == 116 + |data| && f[0..4] == [0x63, 0x46, 0x45, 0x31] && U32(f, 4) == 8 && U32(f, 8) == 64
    && U32(f, 12) == opts.spacecraftId && U32(f, 16) == opts.processorId && U32(f, 20) == opts.applicationId
    && U32(f, 24) == opts.timeSeconds && U32(f, 28) == 0 && TextAt(f, 32, 32, description)
    && U32(f, 64) == 0 && U32(f, 68) == 0 && U32(f, 72) == |data| && TextAt(f, 76, 40, tableName) && f[116..] == data
  }

  lemma FileHeaderAt(f: seq<byte>, opts: Settings, description: Name)
    requires opts.spacecraftId < LIMIT32 && opts.processorId < LIMIT32 && opts.applicationId < LIMIT32
    requires opts.timeSeconds < LIMIT32 && |description| <= 32 && 64 <= |f| && f[..64] == FileHeader(opts, description)
    ensures U32(f, 0) == 0x63464531 && U32(f, 4) == 8 && U32(f, 8) == 64
    ensures U32(f, 12) == opts.spacecraftId && U32(f, 16) == opts.processorId && U32(f, 20) == opts.applicationId
    ensures U32(f, 24) == opts.timeSeconds && U32(f, 28) == 0 && TextAt(f, 32, 32, description)
  {
    hide FileHeader, ToBigEndian, U32, Padded, TextAt;
    FileHeaderParts(opts, description);
    assert f[..64] == f[0..0 + 64];
    SliceOfSlice(f, 0, 64, 0, 4);
    SliceOfSlice(f, 0, 64, 4, 8);
    SliceOfSlice(f, 0, 64, 8, 12);
    SliceOfSlice(f, 0, 64, 12, 16);
    SliceOfSlice(f, 0, 64, 16, 20);
    SliceOfSlice(f, 0, 64, 20, 24);
    SliceOfSlice(f, 0, 64, 24, 28);
    SliceOfSlice(f, 0, 64, 28, 32);
    SliceOfSlice(f, 0, 64, 32, 64);
    StoredAt(f, 0, 0x63464531);
    StoredAt(f, 4, 8);
    StoredAt(f, 8, 64);
    StoredAt(f, 12, opts.spacecraftId);
    StoredAt(f, 16, opts.processorId);
    StoredAt(f, 20, opts.applicationId);
    StoredAt(f, 24, opts.timeSeconds);
    StoredAt(f, 28, 0);
    PaddedAt(f, 32, 32, description);
  }

  lemma TableHeaderAt(f: seq<byte>, numBytes: nat, tableName: Name)
    requires numBytes < LIMIT32 && |tableName| <= 40 && 116 <= |f| && f[64..116] == TableHeader(numBytes, tableName)
    ensures U32(f, 64) == 0 && U32(f, 68) == 0 && U32(f, 72) == numBytes && TextAt(f, 76, 40, tableName)
  {
    hide TableHeader, ToBigEndian, U32, Padded, TextAt;
    TableHeaderParts(numBytes, tableName);
    SliceOfSlice(f, 64, 52, 0, 4);
    SliceOfSlice(f, 64, 52, 4, 8);
    SliceOfSlice(f, 64, 52, 8, 12);
    SliceOfSlice(f, 64, 52, 12, 52);
    StoredAt(f, 64, 0);
    StoredAt(f, 68, 0);
    StoredAt(f, 72, numBytes);
    PaddedAt(f, 76, 40, tableName);
  }

  lemma ContentType(f: seq<byte>)
    requires 4 <= |f| && U32(f, 0) == 0x63464531
    ensures f[0..4] == [0x63, 0x46, 0x45, 0x31]
  {
  }

  /** Every table file has this layout; settings take the place of what the definition says. */
  lemma TableFileLayout(opts: Settings, def: Definition, data: seq<byte>)
    requires SettingsFit(opts, def) && |data| < LIMIT32
    ensures TableFileAt(TableFile(opts, def, data), opts,
                        if opts.description.Some? then opts.description.value else def.description,
                        if opts.tableName.Some? then opts.tableName.value else def.tableName, data)
  {
    hide FileHeader, TableHeader, U32, TextAt;
    var f := TableFile(opts, def, data);
    var a := FileHeader(opts, Overridden(opts.description, def.description));
    var b := TableHeader(|data|, Overridden(opts.tableName, def.tableName));
    FileHeaderParts(opts, Overridden(opts.description, def.description));
    TableHeaderParts(|data|, Overridden(opts.tableName, def.tableName));
    assert f == a + b + data;
    assert f[..64] == a && f[64..116] == b && f[116..] == data;
    FileHeaderAt(f, opts, Overridden(opts.description, def.description));
    TableHeaderAt(f, |data|, Overridden(opts.tableName, def.tableName));
    ContentType(f);
  }

  /** So has every output, for some definition that the object contains. */
  lemma OutputLayout(file: seq<byte>, opts: Settings) returns (def: Definition, data: seq<byte>)
    requires Translate(file, opts).Ok? && opts.Ok() && opts.spacecraftId < LIMIT32 && opts.processorId < LIMIT32
    requires opts.applicationId < LIMIT32 && opts.timeSeconds < LIMIT32
    ensures TableFileAt(Translate(file, opts).value, opts,
                        if opts.description.Some? then opts.description.value else def.description,
                        if opts.tableName.Some? then opts.tableName.value else def.tableName, data)
  {
    hide Translate, TableFile, SettingsFit, TableFileAt;
    def, data := OutputIsTableFile(file, opts);
    TableFileLayout(opts, def, data);
  }

  /** Every output is a table file for some definition that fits and some data. */
  lemma OutputIsTableFile(file: seq<byte>, opts: Settings) returns (def: Definition, data: seq<byte>)
    requires Translate(file, opts).Ok? && opts.Ok() && opts.spacecraftId < LIMIT32 && opts.processorId < LIMIT32
    requires opts.applicationId < LIMIT32 && opts.timeSeconds < LIMIT32
    ensures Translate(file, opts) == Ok(TableFile(opts, def, data)) && SettingsFit(opts, def) && |data| < LIMIT31
  {
    hide ReadHeader, ReadSection, ScanSections, ScanSymbols, ReadDefinition, Locate, TableFile, ObjectData;
    var src := ReadHeader(file, opts.machines).value;
    var names := ReadSection(file, src, src.header.shstrndx).value;
    var scan := ScanSections(file, src, Int64(names.offset), 0, Scan([], [], NO_TABLES)).value;
    var symbols := ScanSymbols(file, src, scan.tables, 0, Symbols([], [], None)).value;
    def := ReadDefinition(file, src, scan.sections, symbols.entries[symbols.def.value]).value;
    DefinitionFits(file, src, scan.sections, symbols.entries[symbols.def.value]);
    var l := Locate(scan, symbols, def).value;
    data := ObjectData(file, l);
  }

  /** For every file the table writer produces, the payload that the CRC tool sees is as long as the table header says, and
      consists of the bytes behind the headers. */
  lemma CrcToolSeesTheObject(file: seq<byte>, opts: Settings)
    requires Translate(file, opts).Ok? && opts.Ok() && opts.spacecraftId < LIMIT32 && opts.processorId < LIMIT32
    requires opts.applicationId < LIMIT32 && opts.timeSeconds < LIMIT32
    ensures var out := Translate(file, opts).value;
            && |out| >= CrcTool.HEADER_SIZE
            && |CrcTool.Payload(AsBits(out))| == NumBytes(out)
            && CrcTool.Payload(AsBits(out)) == AsBits(out[CrcTool.HEADER_SIZE..])
  {
    hide Translate, TableFile, NumBytes, SettingsFit;
    var def, data := OutputIsTableFile(file, opts);
    TableFileParts(opts, def, data);
  }

  /** The CRC printed for a table file is the CRC-16/ARC of the object's bytes. */
  lemma CrcOfTableFile(opts: Settings, def: Definition, data: seq<byte>)
    requires SettingsFit(opts, def) && |data| < LIMIT32
    ensures CrcArc.Arc(0, CrcTool.Payload(AsBits(TableFile(opts, def, data)))) == CrcArc.Arc(0, AsBits(data))
    ensures |CrcTool.Payload(AsBits(TableFile(opts, def, data)))| == |data|
  {
    hide TableFile, NumBytes, SettingsFit, CrcArc.Arc;
    TableFileParts(opts, def, data);
    assert CrcTool.Payload(AsBits(TableFile(opts, def, data))) == AsBits(data);
  }

  /** Both tools in a row, for an object file that becomes a table file and any way the operating system splits the reads: the
      size printed is the one in the table header, and the CRC is that of the bytes behind the headers. */
  method TranslateAndCheck(host: Encoding, file: seq<byte>, opts: Settings, counts: seq<int>)
    returns (table: Result<seq<byte>>, printed: Option<(nat, bv32)>)
    requires opts.Ok() && opts.spacecraftId < LIMIT32 && opts.processorId < LIMIT32
    requires opts.applicationId < LIMIT32 && opts.timeSeconds < LIMIT32
    requires Translate(file, opts).Ok? ==>
               CrcTool.LegalReads(counts, |CrcTool.Payload(AsBits(Translate(file, opts).value))|)
               && !CrcTool.ReadFails(counts)
    ensures table == Translate(file, opts)
    ensures table.Ok? ==>
      && printed.Some? && |table.value| >= CrcTool.HEADER_SIZE && printed.value.0 == NumBytes(table.value)
      && CrcTool.Low16(printed.value.1) == CrcArc.Arc(0, AsBits(table.value[CrcTool.HEADER_SIZE..]))
  {
    hide Translate, NumBytes, CrcArc.Arc, AsBits, CrcTool.SignExtend, CrcTool.Low16;
    var tool := new Elf2CfeTbl(host, file, opts);
    table := tool.Run();
    printed := None;
    if table.Ok? {
      CrcToolSeesTheObject(file, opts);
      printed := CrcTool.RunTool(AsBits(table.value), counts);
      CrcTool.Low16OfSignExtend(CrcArc.Arc(0, AsBits(table.value[CrcTool.HEADER_SIZE..])));
    }
  }
}
