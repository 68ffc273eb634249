/**
 `elf2cfetbl.c` as it runs: global state, structures read into memory and swapped there, scan loops, and output field by field.
 Whatever the byte order of the host, it writes what `ElfSpec.Translate` says, which does not mention the host.
 */
module ElfTool {
  import opened Bytes
  import opened Options
  import opened ElfLayout
  import opened ElfSpec

  /** `GetStringFromMap`: whether the key is listed before the sentinel. */
  method GetStringFromMap(entries: StrMap, key: nat) returns (found: bool)
    requires exists i :: 0 <= i < |entries| && IsSentinel(entries[i])
    ensures found <==> Listed(entries, key)
  {
    found := false;
    var k := 0;
    while !IsSentinel(entries[k]) && !found
      invariant 0 <= k < |entries| && (forall j :: 0 <= j < k ==> !IsSentinel(entries[j]) && entries[j].0 != key)
      invariant exists i :: k <= i < |entries| && IsSentinel(entries[i])
      invariant found ==> entries[k].0 == key && !IsSentinel(entries[k])
      decreases |entries| - k, !found
    {
      if entries[k].0 == key {
        found := true;
      } else {
        k := k + 1;
      }
    }
  }

  /** `e_type_Map`. */
  const TYPE_MAP: StrMap := [(0, "ET_NONE (0)"), (1, "ET_REL (1)"), (2, "ET_EXEC (2)"), (3, "ET_DYN (3)"), (4, "ET_CORE (4)"),
                             (0, "* Unknown Elf File Type (%d) *")]

  lemma ListedInOrder(entries: StrMap, key: nat)
    requires entries != [] && IsSentinel(entries[|entries| - 1])
    requires forall i :: 0 <= i < |entries| - 1 ==> entries[i].0 == i && !IsSentinel(entries[i])
    ensures Listed(entries, key) <==> key < |entries| - 1
  {
    hide IsSentinel;
    if key < |entries| - 1 {
      assert entries[key].0 == key;
    }
  }

  lemma TypesListed(key: nat)
    ensures IsSentinel(TYPE_MAP[5])
    ensures Listed(TYPE_MAP, key) <==> key <= 4
  {
    hide Listed;
    ListedInOrder(TYPE_MAP, key);
  }

  lemma HeaderIsHeld(host: Encoding, memory: seq<byte>, enc: Encoding, cls: Class, image: seq<byte>)
    requires |image| == HeaderSize(cls) && Held(host, memory, enc, image, HeaderFields(cls))
    ensures |memory| == HeaderSize(cls) && HeaderOf(host, cls, memory) == HeaderOf(enc, cls, image)
  {
    hide Get;
    HeaderLayout(cls);
    var f := HeaderFields(cls);
    assert f[0] == H_TYPE && f[1] == H_MACHINE && f[2] == H_VERSION && f[5] == HShoff(cls);
    assert f[10] == HShentsize(cls) && f[11] == HShnum(cls) && f[12] == HShstrndx(cls);
  }

  lemma SectionIsHeld(host: Encoding, memory: seq<byte>, enc: Encoding, cls: Class, image: seq<byte>)
    requires |image| == SectionSize(cls) && Held(host, memory, enc, image, SectionFields(cls))
    ensures |memory| == SectionSize(cls) && SectionOf(host, cls, memory) == SectionOf(enc, cls, image)
  {
    hide Get;
    SectionLayout(cls);
    var f := SectionFields(cls);
    assert f[0] == S_NAME && f[1] == S_TYPE && f[4] == SOffset(cls) && f[5] == SSize(cls) && f[7] == SEntsize(cls);
  }

  lemma SymbolIsHeld(host: Encoding, memory: seq<byte>, enc: Encoding, cls: Class, image: seq<byte>)
    requires |image| == SymbolSize(cls) && Held(host, memory, enc, image, SymbolFields(cls))
    ensures |memory| == SymbolSize(cls) && SymbolOf(host, cls, memory) == SymbolOf(enc, cls, image)
  {
    hide Get;
    SymbolLayout(cls);
    var f := SymbolFields(cls);
    assert f[0] == Y_NAME && f[1] == YValue(cls) && f[2] == YSize(cls) && f[3] == YShndx(cls);
  }

  function SectionsIn(host: Encoding, cls: Class, images: seq<seq<byte>>): seq<Section>
    requires forall i :: 0 <= i < |images| ==> |images[i]| == SectionSize(cls)
  {
    seq(|images|, i requires 0 <= i < |images| => SectionOf(host, cls, images[i]))
  }

  function SymbolsIn(host: Encoding, cls: Class, images: seq<seq<byte>>): seq<Symbol>
    requires forall i :: 0 <= i < |images| ==> |images[i]| == SymbolSize(cls)
  {
    seq(|images|, i requires 0 <= i < |images| => SymbolOf(host, cls, images[i]))
  }

  function WithPrefix(prefix: Name, rest: Option<Name>): Option<Name> {
    if rest.Some? then Some(prefix + rest.value) else None
  }

  lemma WithPrefixNone(rest: Option<Name>)
    ensures WithPrefix([], rest) == rest
  {
    if rest.Some? {
      assert [] + rest.value == rest.value;
    }
  }

  lemma WithPrefixTwice(a: Name, b: Name, rest: Option<Name>)
    ensures WithPrefix(a, WithPrefix(b, rest)) == WithPrefix(a + b, rest)
  {
    if rest.Some? {
      assert a + (b + rest.value) == (a + b) + rest.value;
    }
  }

  class Elf2CfeTbl {
    const host: Encoding
    const file: seq<byte>
    const opts: Settings
    var cls: Class
    var byteSwapRequired: bool
    var elfHeader: seq<byte>
    var sectionHeaders: seq<seq<byte>>
    var sectionNames: seq<Option<Name>>
    var sectionHeaderStringTableDataOffset: int
    var tables: Tables
    var symbols: seq<seq<byte>>
    var symbolNames: seq<Name>
    var tblDefSymbolIndex: Option<nat>
    var output: seq<byte>

    constructor (host: Encoding, file: seq<byte>, opts: Settings)
      ensures this.host == host && this.file == file && this.opts == opts
      ensures sectionHeaders == [] && sectionNames == [] && symbols == [] && symbolNames == [] && tblDefSymbolIndex == None
      ensures sectionHeaderStringTableDataOffset == 0 && tables == NO_TABLES && output == [] && !byteSwapRequired
    {
      this.host, this.file, this.opts := host, file, opts;
      cls, byteSwapRequired, elfHeader := Elf32, false, [];
      sectionHeaders, sectionNames, sectionHeaderStringTableDataOffset := [], [], 0;
      tables, symbols, symbolNames, tblDefSymbolIndex, output := NO_TABLES, [], [], None, [];
    }

    /** The byte order of the source file, as the tool knows it. */
    function Enc(): Encoding
      reads this
    {
      if byteSwapRequired then (if host.Lsb? then Msb else Lsb) else host
    }

    ghost predicate HeaderRead()
      reads this
    {
      |elfHeader| == HeaderSize(cls)
    }

    /** The source as the host reads it from its memory. */
    ghost function Src(): Source
      requires HeaderRead()
      reads this
    {
      Source(cls, Enc(), HeaderOf(host, cls, elfHeader))
    }

    /** The `fgetc` loop that reads a string into the buffer; None if the buffer would overflow. */
    method ReadString(pos: nat) returns (name: Option<Name>)
      ensures name == CString(file, pos, BUFFER_SIZE)
    {
      var text: Name := [];
      var i := 0;
      WithPrefixNone(CString(file, pos, BUFFER_SIZE));
      while i < BUFFER_SIZE && ByteAt(file, pos + i) != 0
        invariant 0 <= i <= BUFFER_SIZE
        invariant CString(file, pos, BUFFER_SIZE) == WithPrefix(text, CString(file, pos + i, BUFFER_SIZE - i))
      {
        WithPrefixTwice(text, [ByteAt(file, pos + i)], CString(file, pos + i + 1, BUFFER_SIZE - i - 1));
        text := text + [ByteAt(file, pos + i)];
        i := i + 1;
      }
      assert text + [] == text;
      name := if i < BUFFER_SIZE then Some(text) else None;
    }

    /** The first half of `GetElfHeader`: the identification bytes. */
    method GetIdent() returns (err: Option<Error>)
      requires !byteSwapRequired
      modifies this`cls, this`byteSwapRequired, this`elfHeader
      ensures var r := Ident(file);
              (r.Err? ==> err == Some(r.error)) && (r.Ok? ==> err == None && (cls, Enc()) == r.value)
    {
      err := None;
      if |file| < IDENT_SIZE {
        return Some(ShortFile);
      }
      elfHeader := file[..IDENT_SIZE];
      if elfHeader[0] != 0x7f || elfHeader[1] != 69 || elfHeader[2] != 76 || elfHeader[3] != 70 {
        return Some(NotElf);
      }
      if elfHeader[4] == 1 {
        cls := Elf32;
      } else if elfHeader[4] == 2 {
        cls := Elf64;
      } else {
        return Some(WrongClass);
      }
      if elfHeader[5] == 1 {
        byteSwapRequired := host.Msb?;
      } else if elfHeader[5] == 2 {
        byteSwapRequired := host.Lsb?;
      } else {
        return Some(WrongEncoding);
      }
      if elfHeader[6] != 1 {
        return Some(WrongVersion);
      }
    }

    /** `GetElfHeader`. */
    method GetElfHeader() returns (err: Option<Error>)
      requires !byteSwapRequired && opts.Ok()
      modifies this`cls, this`byteSwapRequired, this`elfHeader
      ensures var r := ReadHeader(file, opts.machines);
              && (r.Err? ==> err == Some(r.error))
              && (r.Ok? ==> err == None && HeaderRead() && Src() == r.value)
    {
      hide Held, Get, Listed, Ident;
      err := GetIdent();
      if err.Some? {
        return;
      }
      if |file| < HeaderSize(cls) {
        return Some(ShortFile);
      }
      var image := file[0..HeaderSize(cls)];
      HeaderLayout(cls);
      elfHeader := Load(image, host, Enc(), HeaderFields(cls));
      HeaderIsHeld(host, elfHeader, Enc(), cls, image);
      TypesListed(Get(host, elfHeader, H_TYPE));
      var known := GetStringFromMap(TYPE_MAP, Get(host, elfHeader, H_TYPE));
      if !known {
        return Some(WrongType);
      }
      known := GetStringFromMap(opts.machines, Get(host, elfHeader, H_MACHINE));
      if !known {
        return Some(WrongMachine);
      }
      if Get(host, elfHeader, H_VERSION) != 1 {
        return Some(WrongVersion);
      }
    }

    /** The section headers read so far, as the host has them in memory. */
    ghost predicate SectionsRead()
      reads this
    {
      forall i :: 0 <= i < |sectionHeaders| ==> |sectionHeaders[i]| == SectionSize(cls)
    }

    ghost function ScanSoFar(): Scan
      requires SectionsRead()
      reads this
    {
      Scan(SectionsIn(host, cls, sectionHeaders), sectionNames, tables)
    }

    /** The seek, the read and the swap of `GetSectionHeader`. */
    method LoadSectionHeader(sectionIndex: nat) returns (r: Result<seq<byte>>)
      requires HeaderRead()
      ensures var s := ReadSection(file, Src(), sectionIndex);
              && (s.Err? ==> r == Err(s.error))
              && (s.Ok? ==> r.Ok? && |r.value| == SectionSize(cls) && SectionOf(host, cls, r.value) == s.value)
    {
      hide Held, HeaderOf, SectionOf, Get, Layout;
      var shentsize := Get(host, elfHeader, HShentsize(cls));
      HeaderOfIs(host, cls, elfHeader);
      if sectionIndex * shentsize >= LIMIT31 {
        return Err(Undefined);
      }
      var seekOffset := Int64(Get(host, elfHeader, HShoff(cls)));
      if sectionIndex > 0 {
        seekOffset := seekOffset + sectionIndex * shentsize;
      }
      if seekOffset < 0 || seekOffset + SectionSize(cls) > |file| {
        return Err(BadSectionHeader);
      }
      var image := file[seekOffset..seekOffset + SectionSize(cls)];
      SectionLayout(cls);
      var memory := Load(image, host, Enc(), SectionFields(cls));
      SectionIsHeld(host, memory, Enc(), cls, image);
      r := Ok(memory);
    }

    /** `GetSectionHeader`: what it notes about the string table, the symbol table and the name of the section.  The name is
        None if its buffer stays as it was. */
    method GetSectionHeader(sectionIndex: nat) returns (r: Result<(seq<byte>, Option<Name>)>)
      requires HeaderRead()
      modifies this`tables
      ensures match ReadSection(file, Src(), sectionIndex)
              case Err(e) => r == Err(e)
              case Ok(s) =>
                match SectionName(file, sectionHeaderStringTableDataOffset, s)
                case Err(e) => r == Err(e)
                case Ok(name) =>
                  && r.Ok? && |r.value.0| == SectionSize(cls) && SectionOf(host, cls, r.value.0) == s && r.value.1 == name
                  && tables == Noted(cls, Src().header.shstrndx, sectionIndex, s, name, old(tables))
    {
      hide Get, CString, ReadSection, HeaderOf;
      HeaderOfIs(host, cls, elfHeader);
      var loaded := LoadSectionHeader(sectionIndex);
      if loaded.Err? {
        return Err(loaded.error);
      }
      var memory := loaded.value;
      var name: Option<Name> := None;
      var shName := Get(host, memory, S_NAME);
      if sectionHeaderStringTableDataOffset != 0 && shName != 0 {
        var seekOffset := sectionHeaderStringTableDataOffset + shName;
        if seekOffset < 0 {
          return Err(Undefined);
        }
        name := ReadString(seekOffset);
        if name.None? {
          return Err(Undefined);
        }
        var shType := Get(host, memory, S_TYPE);
        if shType == SHT_SYMTAB {
          tables := tables.(symbols := Int32(Get(host, memory, SOffset(cls)) + SymbolSize(cls)),
                            entsize := Get(host, memory, SEntsize(cls)));
          if tables.entsize == 0 {
            tables := tables.(numSymbols := 0);
          } else {
            tables := tables.(numSymbols := Get(host, memory, SSize(cls)) / tables.entsize - 1);
          }
        } else if shType == SHT_STRTAB {
          if name.value == STRTAB_NAME
             || (tables.strings == 0 && sectionIndex != Get(host, elfHeader, HShstrndx(cls))) {
            tables := tables.(strings := Get(host, memory, SOffset(cls)));
          }
        }
      }
      r := Ok((memory, name));
    }

    /** The section loop of `main`. */
    method GetAllSectionHeaders() returns (err: Option<Error>)
      requires HeaderRead() && sectionHeaders == [] && sectionNames == []
      modifies this`tables, this`sectionHeaders, this`sectionNames
      ensures SectionsRead() && |sectionNames| == |sectionHeaders|
      ensures var r := ScanSections(file, Src(), sectionHeaderStringTableDataOffset, 0, Scan([], [], old(tables)));
              && (r.Err? ==> err == Some(r.error))
              && (r.Ok? ==> err == None && ScanSoFar() == r.value)
    {
      hide ReadSection, SectionName, Noted, Get, HeaderOf, SectionOf;
      HeaderOfIs(host, cls, elfHeader);
      ghost var whole := ScanSections(file, Src(), sectionHeaderStringTableDataOffset, 0, Scan([], [], tables));
      err := None;
      var i := 0;
      SectionsInNone(host, cls);
      while i < Get(host, elfHeader, HShnum(cls))
        invariant 0 <= i == |sectionHeaders| == |sectionNames| && SectionsRead()
        invariant whole == ScanSections(file, Src(), sectionHeaderStringTableDataOffset, i, ScanSoFar())
        modifies this`tables, this`sectionHeaders, this`sectionNames
        decreases Get(host, elfHeader, HShnum(cls)) - i
      {
        var r := GetSectionHeader(i);
        if r.Err? {
          return Some(r.error);
        }
        SectionsInSnoc(host, cls, sectionHeaders, r.value.0);
        sectionHeaders := sectionHeaders + [r.value.0];
        sectionNames := sectionNames + [r.value.1];
        i := i + 1;
      }
    }

    ghost predicate SymbolsRead()
      reads this
    {
      && (forall i :: 0 <= i < |symbols| ==> |symbols[i]| == SymbolSize(cls))
      && |symbolNames| == |symbols| && (tblDefSymbolIndex.Some? ==> tblDefSymbolIndex.value < |symbols|)
    }

    ghost function SymbolsSoFar(): Symbols
      requires SymbolsRead()
      reads this
    {
      Symbols(SymbolsIn(host, cls, symbols), symbolNames, tblDefSymbolIndex)
    }

    /** The seek, the read and the swap of `GetSymbol`. */
    method LoadSymbol(symbolIndex: nat) returns (r: Result<seq<byte>>)
      requires HeaderRead()
      ensures var s := ReadSymbol(file, Src(), tables, symbolIndex);
              && (s.Err? ==> r == Err(s.error))
              && (s.Ok? ==> r.Ok? && |r.value| == SymbolSize(cls) && SymbolOf(host, cls, r.value) == s.value)
    {
      hide Held, HeaderOf, SymbolOf;
      var seekOffset := (tables.symbols + symbolIndex * tables.entsize) % LIMIT64;
      if seekOffset >= LIMIT31 || seekOffset + SymbolSize(cls) > |file| {
        return Err(BadSymbol);
      }
      var image := file[seekOffset..seekOffset + SymbolSize(cls)];
      SymbolLayout(cls);
      var memory := Load(image, host, Enc(), SymbolFields(cls));
      SymbolIsHeld(host, memory, Enc(), cls, image);
      r := Ok(memory);
    }

    /** `GetSymbol`. */
    method GetSymbol(symbolIndex: nat) returns (err: Option<Error>)
      requires HeaderRead() && SymbolsRead() && symbolIndex == |symbols|
      modifies this`symbols, this`symbolNames, this`tblDefSymbolIndex
      ensures SymbolsRead()
      ensures var r := ScanSymbol(file, Src(), tables, symbolIndex, old(SymbolsSoFar()));
              && (r.Err? ==> err == Some(r.error))
              && (r.Ok? ==> err == None && SymbolsSoFar() == r.value && |symbols| == symbolIndex + 1)
    {
      hide Get, CString, ReadSymbol, HeaderOf;
      err := None;
      var loaded := LoadSymbol(symbolIndex);
      if loaded.Err? {
        return Some(loaded.error);
      }
      var seekOffset := Int32(tables.strings + Get(host, loaded.value, Y_NAME));
      if seekOffset < 0 {
        return Some(Undefined);
      }
      var name := ReadString(seekOffset);
      if name.None? {
        return Some(Undefined);
      }
      SymbolsInSnoc(host, cls, symbols, loaded.value);
      symbols := symbols + [loaded.value];
      symbolNames := symbolNames + [name.value];
      if name.value == DEF_NAME || (name.value != [] && name.value[1..] == DEF_NAME) {
        tblDefSymbolIndex := Some(symbolIndex);
      }
    }

    /** The symbol loop of `main`. */
    method GetAllSymbols() returns (err: Option<Error>)
      requires HeaderRead() && symbols == [] && symbolNames == [] && tblDefSymbolIndex == None
      modifies this`symbols, this`symbolNames, this`tblDefSymbolIndex
      ensures SymbolsRead()
      ensures var r := ScanSymbols(file, Src(), tables, 0, Symbols([], [], None));
              && (r.Err? ==> err == Some(r.error))
              && (r.Ok? ==> err == None && SymbolsSoFar() == r.value)
    {
      hide ScanSymbol, HeaderOf, SymbolOf;
      ghost var whole := ScanSymbols(file, Src(), tables, 0, Symbols([], [], None));
      err := None;
      var i := 0;
      SymbolsInNone(host, cls);
      while i < tables.numSymbols
        invariant 0 <= i == |symbols| && SymbolsRead() && err == None
        invariant whole == ScanSymbols(file, Src(), tables, i, SymbolsSoFar())
        modifies this`symbols, this`symbolNames, this`tblDefSymbolIndex
        decreases tables.numSymbols - i
      {
        err := GetSymbol(i);
        if err.Some? {
          return;
        }
        i := i + 1;
      }
    }

    /** Where a symbol's data lies: the offset of its section plus its value. */
    method GetDataOffset(s: seq<byte>) returns (offset: Option<nat>)
      requires SectionsRead() && |s| == SymbolSize(cls)
      ensures offset == DataOffset(ScanSoFar().sections, SymbolOf(host, cls, s))
    {
      hide Get;
      var shndx := Get(host, s, YShndx(cls));
      if shndx >= |sectionHeaders| {
        return None;
      }
      offset := Some((Get(host, sectionHeaders[shndx], SOffset(cls)) + Get(host, s, YValue(cls))) % LIMIT64);
    }

    /** `GetTblDefInfo`. */
    method GetTblDefInfo() returns (r: Result<Definition>)
      requires HeaderRead() && SectionsRead() && SymbolsRead() && tblDefSymbolIndex.Some?
      ensures r == ReadDefinition(file, Src(), ScanSoFar().sections, SymbolsSoFar().entries[tblDefSymbolIndex.value])
    {
      hide Get, DefinitionOf, HeaderOf, DataOffset, SwappedAt, ToNul, SymbolOf;
      var s := symbols[tblDefSymbolIndex.value];
      SymbolOfIs(host, cls, s);
      var stSize := Get(host, s, YSize(cls));
      if stSize != DEF_SIZE && stSize != 0 {
        return Err(BadDefinition);
      }
      var offset := GetDataOffset(s);
      if offset.None? {
        return Err(Undefined);
      }
      if offset.value >= LIMIT32 || offset.value + DEF_SIZE > |file| {
        return Err(BadDefinition);
      }
      var image := file[offset.value..offset.value + DEF_SIZE];
      var tblFileDef := new byte[DEF_SIZE](i requires 0 <= i < DEF_SIZE => image[i]);
      assert tblFileDef[..] == image;
      tblFileDef[63], tblFileDef[103], tblFileDef[135], tblFileDef[155] := 0, 0, 0, 0;
      ghost var terminated := tblFileDef[..];
      if byteSwapRequired {
        SwapUInt32(tblFileDef, 156);
      }
      DefinitionIsHeld(host, Enc(), image, terminated, tblFileDef[..]);
      r := Ok(Definition(ToNul(tblFileDef[0..64]), ToNul(tblFileDef[64..104]), ToNul(tblFileDef[104..136]),
                         Get(host, tblFileDef[..], D_OBJECT_SIZE)));
    }

    /** `LocateAndReadUserObject`. */
    method LocateAndReadUserObject(def: Definition) returns (r: Result<Located>)
      requires SectionsRead() && SymbolsRead() && |sectionNames| == |sectionHeaders|
      ensures r == Locate(ScanSoFar(), SymbolsSoFar(), def)
    {
      hide Get, DataOffset, IsObjectName, SectionOf;
      ghost var names := symbolNames;
      var i := 0;
      while i < |symbolNames| && !Matches(symbolNames[i], def.objectName)
        invariant 0 <= i <= |symbolNames|
        invariant FindObject(symbolNames, def.objectName, i) == FindObject(symbolNames, def.objectName, 0)
      {
        MatchesIs(symbolNames[i], def.objectName);
        i := i + 1;
      }
      if i == |symbolNames| {
        return Err(NoObject);
      }
      MatchesIs(symbolNames[i], def.objectName);
      assert FindObject(symbolNames, def.objectName, 0) == Some(i);
      var s := symbols[i];
      var shndx := Get(host, s, YShndx(cls));
      if shndx >= |sectionNames| || sectionNames[shndx].None? {
        return Err(Undefined);
      }
      var stSize := Get(host, s, YSize(cls));
      if sectionNames[shndx].value == BSS_NAME {
        return Ok(Located(true, 0, stSize));
      }
      var offset := GetDataOffset(s);
      if offset.None? {
        return Err(Undefined);
      }
      if offset.value >= LIMIT32 {
        return Err(BadObjectOffset);
      }
      if stSize != 0 {
        if stSize != def.objectSize && def.objectSize < stSize {
          stSize := def.objectSize;
        }
      } else {
        stSize := def.objectSize;
      }
      r := Ok(Located(false, offset.value, stSize));
    }

    /** A 32-bit field is set in memory, swapped on a little-endian host, and written. */
    method PutUInt32(value: nat)
      requires value < LIMIT32
      modifies this`output
      ensures output == old(output) + ToBigEndian(value, 4)
    {
      hide Stored, ToBigEndian, Reversed;
      var bytes := Stored(host, value, 4);
      var memory := new byte[4](i requires 0 <= i < 4 => bytes[i]);
      assert memory[..] == bytes;
      if host.Lsb? {
        SwapUInt32(memory, 0);
        SwappedWhole(bytes);
      }
      InMemory(host, value);
      output := output + memory[..];
    }

    /** A text field: cleared, then the string copied into it. */
    method PutText(text: Name, size: nat)
      requires |text| <= size
      modifies this`output
      ensures output == old(output) + Padded(text, size)
    {
      output := output + (text + seq(size - |text|, _ => 0));
    }

    method PutFileHeader(description: Name)
      requires |description| <= 32 && opts.spacecraftId < LIMIT32 && opts.processorId < LIMIT32
      requires opts.applicationId < LIMIT32 && opts.timeSeconds < LIMIT32 && output == []
      modifies this`output
      ensures output == FileHeader(opts, description)
    {
      hide ToBigEndian, Padded;
      PutUInt32(0x63464531);
      PutUInt32(8);
      PutUInt32(64);
      PutUInt32(opts.spacecraftId);
      PutUInt32(opts.processorId);
      PutUInt32(opts.applicationId);
      PutUInt32(opts.timeSeconds);
      PutUInt32(0);
      PutText(description, 32);
    }

    method PutTableHeader(numBytes: nat, tableName: Name)
      requires numBytes < LIMIT32 && |tableName| <= 40
      modifies this`output
      ensures output == old(output) + TableHeader(numBytes, tableName)
    {
      hide ToBigEndian, Padded;
      ghost var before := output;
      PutUInt32(0);
      PutUInt32(0);
      PutUInt32(numBytes);
      PutText(tableName, 40);
      TableHeaderIs(before, numBytes, tableName);
    }

    /** `OutputDataToTargetFile`. */
    method OutputDataToTargetFile(def: Definition, l: Located) returns (r: Result<seq<byte>>)
      requires output == [] && SettingsFit(opts, def)
      modifies this`output
      ensures r == Output(file, opts, def, l)
    {
      hide FileHeader, TableHeader, ObjectData;
      if l.size >= LIMIT31 {
        return Err(Undefined);
      }
      var description := if opts.description.Some? then opts.description.value else def.description;
      var tableName := if opts.tableName.Some? then opts.tableName.value else def.tableName;
      PutFileHeader(description);
      PutTableHeader(l.size, tableName);
      ghost var headers := output;
      ghost var data := ObjectData(file, l);
      DataBytes(file, l);
      var i := 0;
      NoDataYet(headers, data);
      while i < l.size
        invariant 0 <= i <= l.size && output == headers + data[..i]
        modifies this`output
      {
        DataSoFar(headers, data, i);
        output := output + [DataByte(file, l, i)];
        i := i + 1;
      }
      assert data[..i] == data;
      r := Ok(output);
    }

    /** The second half of `main`: symbols, definition, object and output. */
    method Finish() returns (r: Result<seq<byte>>)
      requires opts.Ok() && opts.spacecraftId < LIMIT32 && opts.processorId < LIMIT32 && opts.applicationId < LIMIT32
      requires opts.timeSeconds < LIMIT32
      requires HeaderRead() && SectionsRead() && |sectionNames| == |sectionHeaders|
      requires symbols == [] && symbolNames == [] && tblDefSymbolIndex == None && output == []
      modifies this`symbols, this`symbolNames, this`tblDefSymbolIndex, this`output
      ensures r == FromSymbols(file, opts, Src(), ScanSoFar())
    {
      hide ScanSymbols, ReadDefinition, Locate, Output, HeaderOf, SectionOf, SymbolOf, Get;
      if tables.strings == 0 {
        return Err(NoStringTable);
      }
      if tables.numSymbols < 0 {
        return Err(Undefined);
      }
      if tables.numSymbols == 0 {
        return Err(NoSymbols);
      }
      var err := GetAllSymbols();
      if err.Some? {
        return Err(err.value);
      }
      if tblDefSymbolIndex.None? {
        return Err(NoDefinition);
      }
      var def := GetTblDefInfo();
      if def.Err? {
        return Err(def.error);
      }
      var located := LocateAndReadUserObject(def.value);
      if located.Err? {
        return Err(located.error);
      }
      DefinitionFits(file, Src(), ScanSoFar().sections, SymbolsSoFar().entries[tblDefSymbolIndex.value]);
      r := OutputDataToTargetFile(def.value, located.value);
    }

    /** `main`, from the header of the source file to the last byte of the table file. */
    method Run() returns (r: Result<seq<byte>>)
      requires opts.Ok() && opts.spacecraftId < LIMIT32 && opts.processorId < LIMIT32 && opts.applicationId < LIMIT32
      requires opts.timeSeconds < LIMIT32
      requires sectionHeaders == [] && sectionNames == [] && symbols == [] && symbolNames == [] && tblDefSymbolIndex == None
      requires sectionHeaderStringTableDataOffset == 0 && tables == NO_TABLES && output == [] && !byteSwapRequired
      modifies this
      ensures r == Translate(file, opts)
    {
      hide ReadHeader, ScanSections, FromSymbols, ReadSection, HeaderOf, SectionOf, Get;
      var err := GetElfHeader();
      if err.Some? {
        return Err(err.value);
      }
      HeaderOfIs(host, cls, elfHeader);
      var names := LoadSectionHeader(Get(host, elfHeader, HShstrndx(cls)));
      if names.Err? {
        return Err(names.error);
      }
      SectionOfIs(host, cls, names.value);
      sectionHeaderStringTableDataOffset := Int64(Get(host, names.value, SOffset(cls)));
      if Get(host, elfHeader, HShnum(cls)) == 0 {
        return Err(NoSections);
      }
      err := GetAllSectionHeaders();
      if err.Some? {
        return Err(err.value);
      }
      r := Finish();
    }
  }

  lemma SymbolOfIs(host: Encoding, cls: Class, memory: seq<byte>)
    requires |memory| == SymbolSize(cls)
    ensures SymbolOf(host, cls, memory).size == Get(host, memory, YSize(cls))
  {
    hide Get;
  }

  lemma SectionOfIs(host: Encoding, cls: Class, memory: seq<byte>)
    requires |memory| == SectionSize(cls)
    ensures SectionOf(host, cls, memory).offset == Get(host, memory, SOffset(cls))
  {
    hide Get;
  }

  lemma DefinitionFits(file: seq<byte>, src: Source, sections: seq<Section>, s: Symbol)
    ensures var r := ReadDefinition(file, src, sections, s);
            r.Ok? ==> |r.value.description| <= 31 && |r.value.tableName| <= 39
  {
    hide Get;
  }

  /** The comparison in the search loop, as it is written. */
  predicate Matches(name: Name, wanted: Name) {
    wanted <= name && (|name| - |wanted| == 1 || |name| - |wanted| == 0)
  }

  lemma MatchesIs(name: Name, wanted: Name)
    ensures Matches(name, wanted) <==> IsObjectName(name, wanted)
  {
  }

  /** Numbers fit 32 bits, and texts their places. */
  predicate SettingsFit(opts: Settings, def: Definition) {
    && opts.Ok() && opts.spacecraftId < LIMIT32 && opts.processorId < LIMIT32 && opts.applicationId < LIMIT32
    && opts.timeSeconds < LIMIT32 && |def.description| <= 31 && |def.tableName| <= 39
  }

  lemma {:induction false} ToNulTerminated(b: seq<byte>)
    requires b != [] && b[|b| - 1] == 0
    ensures ToNul(b) == ToNul(b[..|b| - 1])
    decreases |b|
  {
    var n := |b| - 1;
    if n > 0 && b[0] != 0 {
      var rest := b[1..];
      assert rest[|rest| - 1] == 0;
      ToNulTerminated(rest);
      assert rest[..|rest| - 1] == b[..n][1..];
      assert b[..n][0] == b[0];
    }
  }

  lemma DefinitionIsHeld(host: Encoding, enc: Encoding, image: seq<byte>, terminated: seq<byte>, memory: seq<byte>)
    requires |image| == DEF_SIZE && terminated == image[63 := 0][103 := 0][135 := 0][155 := 0]
    requires memory == if host != enc then SwappedAt(terminated, D_OBJECT_SIZE) else terminated
    ensures |memory| == DEF_SIZE
    ensures DefinitionOf(enc, image)
            == Definition(ToNul(memory[0..64]), ToNul(memory[64..104]), ToNul(memory[104..136]), Get(host, memory, D_OBJECT_SIZE))
  {
    hide ToNul, Value, Reversed;
    SwappedFacts(terminated, D_OBJECT_SIZE, D_OBJECT_SIZE);
    assert memory[..156] == terminated[..156];
    assert memory[0..64] == memory[..156][0..64] == terminated[0..64];
    assert memory[64..104] == memory[..156][64..104] == terminated[64..104];
    assert memory[104..136] == memory[..156][104..136] == terminated[104..136];
    ToNulTerminated(terminated[0..64]);
    ToNulTerminated(terminated[64..104]);
    ToNulTerminated(terminated[104..136]);
    assert terminated[0..64][..63] == image[..63];
    assert terminated[64..104][..39] == image[64..103];
    assert terminated[104..136][..31] == image[104..135];
    assert At(terminated, D_OBJECT_SIZE) == At(image, D_OBJECT_SIZE);
    if host != enc {
      ReversedValue(host, enc, At(image, D_OBJECT_SIZE));
    }
  }

  lemma SwappedWhole(b: seq<byte>)
    requires |b| == 4
    ensures SwappedAt(b, Field(0, 4)) == Reversed(b)
  {
    assert At(b, Field(0, 4)) == b;
  }

  lemma InMemory(host: Encoding, value: nat)
    ensures ToBigEndian(value, 4) == if host.Lsb? then Reversed(Stored(host, value, 4)) else Stored(host, value, 4)
  {
    ReversedTwice(ToBigEndian(value, 4));
  }

  lemma TableHeaderIs(before: seq<byte>, numBytes: nat, tableName: Name)
    ensures before + ToBigEndian(0, 4) + ToBigEndian(0, 4) + ToBigEndian(numBytes, 4) + Padded(tableName, 40)
            == before + TableHeader(numBytes, tableName)
  {
  }

  lemma DataBytes(file: seq<byte>, l: Located)
    ensures forall i :: 0 <= i < l.size ==> ObjectData(file, l)[i] == DataByte(file, l, i)
  {
  }

  lemma NoDataYet(headers: seq<byte>, data: seq<byte>)
    ensures headers == headers + data[..0]
  {
  }

  lemma DataSoFar(headers: seq<byte>, data: seq<byte>, i: nat)
    requires i < |data|
    ensures headers + data[..i] + [data[i]] == headers + data[..i + 1]
  {
  }

  lemma SymbolsInNone(host: Encoding, cls: Class)
    ensures SymbolsIn(host, cls, []) == []
  {
  }

  lemma SymbolsInSnoc(host: Encoding, cls: Class, images: seq<seq<byte>>, image: seq<byte>)
    requires forall i :: 0 <= i < |images| ==> |images[i]| == SymbolSize(cls)
    requires |image| == SymbolSize(cls)
    ensures forall i :: 0 <= i < |images + [image]| ==> |(images + [image])[i]| == SymbolSize(cls)
    ensures SymbolsIn(host, cls, images + [image]) == SymbolsIn(host, cls, images) + [SymbolOf(host, cls, image)]
  {
  }

  lemma SectionsInNone(host: Encoding, cls: Class)
    ensures SectionsIn(host, cls, []) == []
  {
  }

  lemma SectionsInSnoc(host: Encoding, cls: Class, images: seq<seq<byte>>, image: seq<byte>)
    requires forall i :: 0 <= i < |images| ==> |images[i]| == SectionSize(cls)
    requires |image| == SectionSize(cls)
    ensures forall i :: 0 <= i < |images + [image]| ==> |(images + [image])[i]| == SectionSize(cls)
    ensures SectionsIn(host, cls, images + [image]) == SectionsIn(host, cls, images) + [SectionOf(host, cls, image)]
  {
  }

  lemma HeaderOfIs(host: Encoding, cls: Class, memory: seq<byte>)
    requires |memory| == HeaderSize(cls)
    ensures var h := HeaderOf(host, cls, memory);
            && h.shoff == Get(host, memory, HShoff(cls)) && h.shentsize == Get(host, memory, HShentsize(cls))
            && h.shnum == Get(host, memory, HShnum(cls)) && h.shstrndx == Get(host, memory, HShstrndx(cls))
  {
    hide Get;
  }
}
