/**
 What `elf2cfetbl.c` makes of an ELF object file, as a function of the bytes of the file: the stages of the program, in its
 order and with its error conditions, without the byte order of the host.
 */
module ElfSpec {
  import opened Bytes
  import opened Options
  import opened ElfLayout

  type Name = seq<byte>

  /** Why there is no table file.  Undefined stands for inputs on which the C program has no defined behaviour: names that do
      not end within its buffers or lie beyond 2^31, section indices out of range, names never read, and sizes that wrap its
      counters. */
  datatype Error =
    | ShortFile | NotElf | WrongClass | WrongEncoding | WrongVersion | WrongType | WrongMachine
    | NoSections | BadSectionHeader | NoStringTable | NoSymbols | BadSymbol
    | NoDefinition | BadDefinition | NoObject | BadObjectOffset
    | Undefined

  datatype Result<+T> = Ok(value: T) | Err(error: Error)

  /** `ElfStrMap`: a value and its text; the list ends at a text that starts with an asterisk. */
  type StrMap = seq<(nat, string)>

  predicate IsSentinel(entry: (nat, string)) {
    entry.1 != "" && entry.1[0] == '*'
  }

  predicate Listed(entries: StrMap, key: nat) {
    exists i :: 0 <= i < |entries| && entries[i].0 == key && forall j :: 0 <= j <= i ==> !IsSentinel(entries[j])
  }

  /** The command line: ids and time for the file header (0 if not given) and overrides, and the list of machine types. */
  datatype Settings = Settings(spacecraftId: nat, processorId: nat, applicationId: nat, timeSeconds: nat,
                               tableName: Option<Name>, description: Option<Name>, machines: StrMap)
  {
    /** The list ends, and the overrides fit their places with a terminator. */
    predicate Ok() {
      && (exists i :: 0 <= i < |machines| && IsSentinel(machines[i]))
      && (tableName.Some? ==> |tableName.value| <= 37) && (description.Some? ==> |description.value| <= 31)
    }
  }

  const BUFFER_SIZE: nat := 60
  const SHT_SYMTAB: nat := 2
  const SHT_STRTAB: nat := 3
  const LIMIT31: nat := 0x8000_0000
  const LIMIT32: nat := 0x1_0000_0000
  const LIMIT64: nat := 0x1_0000_0000_0000_0000

  /** ".strtab", ".bss" and "CFE_TBL_FileDef". */
  const STRTAB_NAME: Name := [46, 115, 116, 114, 116, 97, 98]
  const BSS_NAME: Name := [46, 98, 115, 115]
  const DEF_NAME: Name := [67, 70, 69, 95, 84, 66, 76, 95, 70, 105, 108, 101, 68, 101, 102]

  /** Conversions to signed integers wrap around. */
  function Int32(x: int): int {
    var m := x % LIMIT32;
    if m < LIMIT31 then m else m - LIMIT32
  }

  function Int64(x: nat): int {
    if x < LIMIT64 / 2 then x else x - LIMIT64
  }

  // ---------------------------------------------------------------------------------------------------------------
  // Reading
  // ---------------------------------------------------------------------------------------------------------------

  /** `fseek` and `fread` of n bytes. */
  function ReadAt(file: seq<byte>, pos: int, n: nat): (r: Option<seq<byte>>)
    ensures r.Some? ==> |r.value| == n
  {
    if 0 <= pos && pos + n <= |file| then Some(file[pos..pos + n]) else None
  }

  /** The string at pos, without its terminator, if it ends within max bytes of the file. */
  function CString(file: seq<byte>, pos: nat, max: nat): Option<Name>
    decreases max
  {
    if max == 0 || pos >= |file| then None
    else if file[pos] == 0 then Some([])
    else
      var rest := CString(file, pos + 1, max - 1);
      if rest.None? then None else Some([file[pos]] + rest.value)
  }

  // ---------------------------------------------------------------------------------------------------------------
  // The header
  // ---------------------------------------------------------------------------------------------------------------

  datatype Header = Header(etype: nat, machine: nat, version: nat, shoff: nat, shentsize: nat, shnum: nat, shstrndx: nat)

  datatype Source = Source(cls: Class, enc: Encoding, header: Header)

  function HeaderOf(enc: Encoding, cls: Class, image: seq<byte>): Header
    requires |image| == HeaderSize(cls)
  {
    Header(Get(enc, image, H_TYPE), Get(enc, image, H_MACHINE), Get(enc, image, H_VERSION), Get(enc, image, HShoff(cls)),
           Get(enc, image, HShentsize(cls)), Get(enc, image, HShnum(cls)), Get(enc, image, HShstrndx(cls)))
  }

  /** The identification bytes: magic number, class, byte order and version. */
  function Ident(file: seq<byte>): Result<(Class, Encoding)> {
    if |file| < IDENT_SIZE then Err(ShortFile)
    else if file[0] != 0x7f || file[1] != 69 || file[2] != 76 || file[3] != 70 then Err(NotElf)
    else if file[4] != 1 && file[4] != 2 then Err(WrongClass)
    else if file[5] != 1 && file[5] != 2 then Err(WrongEncoding)
    else if file[6] != 1 then Err(WrongVersion)
    else Ok((if file[4] == 1 then Elf32 else Elf64, if file[5] == 1 then Lsb else Msb))
  }

  /** `GetElfHeader`. */
  function ReadHeader(file: seq<byte>, machines: StrMap): Result<Source> {
    match Ident(file)
    case Err(e) => Err(e)
    case Ok((cls, enc)) =>
      match ReadAt(file, 0, HeaderSize(cls))
      case None => Err(ShortFile)
      case Some(image) =>
        var h := HeaderOf(enc, cls, image);
        if h.etype > 4 then Err(WrongType)
        else if !Listed(machines, h.machine) then Err(WrongMachine)
        else if h.version != 1 then Err(WrongVersion)
        else Ok(Source(cls, enc, h))
  }

  // ---------------------------------------------------------------------------------------------------------------
  // Sections
  // ---------------------------------------------------------------------------------------------------------------

  datatype Section = Section(name: nat, stype: nat, offset: nat, size: nat, entsize: nat)

  function SectionOf(enc: Encoding, cls: Class, image: seq<byte>): Section
    requires |image| == SectionSize(cls)
  {
    Section(Get(enc, image, S_NAME), Get(enc, image, S_TYPE), Get(enc, image, SOffset(cls)), Get(enc, image, SSize(cls)),
            Get(enc, image, SEntsize(cls)))
  }

  function ReadSection(file: seq<byte>, src: Source, i: nat): Result<Section> {
    if i * src.header.shentsize >= LIMIT31 then Err(Undefined)
    else
      match ReadAt(file, Int64(src.header.shoff) + i * src.header.shentsize, SectionSize(src.cls))
      case None => Err(BadSectionHeader)
      case Some(image) => Ok(SectionOf(src.enc, src.cls, image))
  }

  /** The name of a section; there is none, and its buffer stays as it is, if it has no name or there is no table of names. */
  function SectionName(file: seq<byte>, names: int, s: Section): Result<Option<Name>> {
    if names == 0 || s.name == 0 then Ok(None)
    else if names + s.name < 0 then Err(Undefined)
    else
      var name := CString(file, names + s.name, BUFFER_SIZE);
      if name.None? then Err(Undefined) else Ok(name)
  }

  /** `StringTableDataOffset`, `SymbolTableDataOffset`, `SymbolTableEntrySize` and `NumSymbols`. */
  datatype Tables = Tables(strings: nat, symbols: int, entsize: nat, numSymbols: int)

  const NO_TABLES := Tables(0, 0, 0, 0)

  /** What a named section contributes: the symbol table, less its first entry, or the table of symbol names. */
  function Noted(cls: Class, shstrndx: nat, i: nat, s: Section, name: Option<Name>, t: Tables): Tables {
    if name.None? then t
    else if s.stype == SHT_SYMTAB then
      t.(symbols := Int32(s.offset + SymbolSize(cls)), entsize := s.entsize,
         numSymbols := if s.entsize == 0 then 0 else s.size / s.entsize - 1)
    else if s.stype == SHT_STRTAB && (name.value == STRTAB_NAME || (t.strings == 0 && i != shstrndx)) then
      t.(strings := s.offset)
    else t
  }

  datatype Scan = Scan(sections: seq<Section>, names: seq<Option<Name>>, tables: Tables)

  /** `GetSectionHeader` for one index of the loop. */
  function ScanOne(file: seq<byte>, src: Source, names: int, i: nat, scan: Scan): Result<Scan> {
    match ReadSection(file, src, i)
    case Err(e) => Err(e)
    case Ok(s) =>
      match SectionName(file, names, s)
      case Err(e) => Err(e)
      case Ok(name) =>
        Ok(Scan(scan.sections + [s], scan.names + [name],
                Noted(src.cls, src.header.shstrndx, i, s, name, scan.tables)))
  }

  function ScanSections(file: seq<byte>, src: Source, names: int, i: nat, scan: Scan): Result<Scan>
    decreases if i < src.header.shnum then src.header.shnum - i else 0
  {
    if i >= src.header.shnum then Ok(scan)
    else
      match ScanOne(file, src, names, i, scan)
      case Err(e) => Err(e)
      case Ok(next) => ScanSections(file, src, names, i + 1, next)
  }

  // ---------------------------------------------------------------------------------------------------------------
  // Symbols
  // ---------------------------------------------------------------------------------------------------------------

  datatype Symbol = Symbol(name: nat, value: nat, size: nat, shndx: nat)

  function SymbolOf(enc: Encoding, cls: Class, image: seq<byte>): Symbol
    requires |image| == SymbolSize(cls)
  {
    Symbol(Get(enc, image, Y_NAME), Get(enc, image, YValue(cls)), Get(enc, image, YSize(cls)), Get(enc, image, YShndx(cls)))
  }

  function ReadSymbol(file: seq<byte>, src: Source, t: Tables, i: nat): Result<Symbol> {
    var pos := (t.symbols + i * t.entsize) % LIMIT64;
    if pos >= LIMIT31 then Err(BadSymbol)
    else
      match ReadAt(file, pos, SymbolSize(src.cls))
      case None => Err(BadSymbol)
      case Some(image) => Ok(SymbolOf(src.enc, src.cls, image))
  }

  function SymbolName(file: seq<byte>, t: Tables, s: Symbol): Result<Name> {
    var pos := Int32(t.strings + s.name);
    if pos < 0 then Err(Undefined)
    else
      var name := CString(file, pos, BUFFER_SIZE);
      if name.None? then Err(Undefined) else Ok(name.value)
  }

  /** The name of the definition, or that name after any one character. */
  predicate IsDefName(name: Name) {
    name == DEF_NAME || (name != [] && name[1..] == DEF_NAME)
  }

  datatype Symbols = Symbols(entries: seq<Symbol>, names: seq<Name>, def: Option<nat>) {
    predicate Ok() {
      |names| == |entries| && (def.Some? ==> def.value < |entries|)
    }
  }

  /** `GetSymbol` for one index of the loop. */
  function ScanSymbol(file: seq<byte>, src: Source, t: Tables, i: nat, acc: Symbols): (r: Result<Symbols>)
    requires acc.Ok() && i == |acc.entries|
    ensures r.Ok? ==> r.value.Ok() && |r.value.entries| == i + 1
  {
    match ReadSymbol(file, src, t, i)
    case Err(e) => Err(e)
    case Ok(s) =>
      match SymbolName(file, t, s)
      case Err(e) => Err(e)
      case Ok(name) => Ok(Symbols(acc.entries + [s], acc.names + [name], if IsDefName(name) then Some(i) else acc.def))
  }

  function ScanSymbols(file: seq<byte>, src: Source, t: Tables, i: nat, acc: Symbols): (r: Result<Symbols>)
    requires acc.Ok() && i == |acc.entries|
    ensures r.Ok? ==> r.value.Ok()
    decreases if i < t.numSymbols then t.numSymbols - i else 0
  {
    if i >= t.numSymbols then Ok(acc)
    else
      match ScanSymbol(file, src, t, i, acc)
      case Err(e) => Err(e)
      case Ok(next) => ScanSymbols(file, src, t, i + 1, next)
  }

  // ---------------------------------------------------------------------------------------------------------------
  // The definition and the object
  // ---------------------------------------------------------------------------------------------------------------

  /** Where a symbol's data lies in the file, in 64-bit arithmetic. */
  function DataOffset(sections: seq<Section>, s: Symbol): Option<nat> {
    if s.shndx < |sections| then Some((sections[s.shndx].offset + s.value) % LIMIT64) else None
  }

  /** The bytes before the first NUL. */
  function ToNul(b: seq<byte>): (r: Name)
    ensures |r| <= |b|
  {
    if b == [] || b[0] == 0 then [] else [b[0]] + ToNul(b[1..])
  }

  datatype Definition = Definition(objectName: Name, tableName: Name, description: Name, objectSize: nat)

  /** `CFE_TBL_FileDef_t`, with the last byte of every name taken as NUL. */
  function DefinitionOf(enc: Encoding, image: seq<byte>): Definition
    requires |image| == DEF_SIZE
  {
    Definition(ToNul(image[..63]), ToNul(image[64..103]), ToNul(image[104..135]), Get(enc, image, D_OBJECT_SIZE))
  }

  /** `GetTblDefInfo`. */
  function ReadDefinition(file: seq<byte>, src: Source, sections: seq<Section>, s: Symbol): Result<Definition> {
    if s.size != DEF_SIZE && s.size != 0 then Err(BadDefinition)
    else
      match DataOffset(sections, s)
      case None => Err(Undefined)
      case Some(offset) =>
        if offset >= LIMIT32 then Err(BadDefinition)
        else
          match ReadAt(file, offset, DEF_SIZE)
          case None => Err(BadDefinition)
          case Some(image) => Ok(DefinitionOf(src.enc, image))
  }

  /** The name of the object, or that name and any one character more: what was meant to test whether that character is
      printable tests the terminator. */
  predicate IsObjectName(name: Name, wanted: Name) {
    wanted <= name && |name| <= |wanted| + 1
  }

  /** The first symbol with a matching name. */
  function FindObject(names: seq<Name>, wanted: Name, i: nat): (r: Option<nat>)
    ensures r.Some? ==> i <= r.value < |names| && IsObjectName(names[r.value], wanted)
                        && forall j :: i <= j < r.value ==> !IsObjectName(names[j], wanted)
    ensures r.None? ==> forall j :: i <= j < |names| ==> !IsObjectName(names[j], wanted)
    decreases if i < |names| then |names| - i else 0
  {
    if i >= |names| then None else if IsObjectName(names[i], wanted) then Some(i) else FindObject(names, wanted, i + 1)
  }

  /** The size to emit: the smaller of the two known ones. */
  function Reconciled(symbolSize: nat, objectSize: nat): nat {
    if symbolSize == 0 || objectSize < symbolSize then objectSize else symbolSize
  }

  /** Zeros, or bytes of the file from offset on. */
  datatype Located = Located(zeros: bool, offset: nat, size: nat)

  /** `LocateAndReadUserObject`. */
  function Locate(scan: Scan, symbols: Symbols, def: Definition): Result<Located>
    requires symbols.Ok()
  {
    var found := FindObject(symbols.names, def.objectName, 0);
    if found.None? then Err(NoObject)
    else
      var s := symbols.entries[found.value];
      if s.shndx >= |scan.names| || scan.names[s.shndx].None? then Err(Undefined)
      else if scan.names[s.shndx].value == BSS_NAME then Ok(Located(true, 0, s.size))
      else
        match DataOffset(scan.sections, s)
        case None => Err(Undefined)
        case Some(offset) =>
          if offset >= LIMIT32 then Err(BadObjectOffset)
          else Ok(Located(false, offset, Reconciled(s.size, def.objectSize)))
  }

  // ---------------------------------------------------------------------------------------------------------------
  // The table file
  // ---------------------------------------------------------------------------------------------------------------

  /** `fgetc`: past the end it yields the byte 0xFF. */
  function ByteAt(file: seq<byte>, k: nat): byte {
    if k < |file| then file[k] else 255
  }

  function DataByte(file: seq<byte>, l: Located, i: nat): byte {
    if l.zeros then 0 else ByteAt(file, l.offset + i)
  }

  function ObjectData(file: seq<byte>, l: Located): (data: seq<byte>)
    ensures |data| == l.size
  {
    seq(l.size, i requires 0 <= i < l.size => DataByte(file, l, i))
  }

  function Padded(name: Name, n: nat): (r: seq<byte>)
    ensures |name| <= n ==> |r| == n
  {
    if |name| <= n then name + seq(n - |name|, _ => 0) else name
  }

  /** The file header, all numbers most significant byte first. */
  function FileHeader(opts: Settings, description: Name): seq<byte> {
    ToBigEndian(0x63464531, 4) + ToBigEndian(8, 4) + ToBigEndian(64, 4)
    + ToBigEndian(opts.spacecraftId, 4) + ToBigEndian(opts.processorId, 4) + ToBigEndian(opts.applicationId, 4)
    + ToBigEndian(opts.timeSeconds, 4) + ToBigEndian(0, 4) + Padded(description, 32)
  }

  function TableHeader(numBytes: nat, tableName: Name): seq<byte> {
    ToBigEndian(0, 4) + ToBigEndian(0, 4) + ToBigEndian(numBytes, 4) + Padded(tableName, 40)
  }

  function Overridden(override: Option<Name>, defined: Name): Name {
    if override.Some? then override.value else defined
  }

  /** The whole output: two headers and the data. */
  function TableFile(opts: Settings, def: Definition, data: seq<byte>): seq<byte> {
    FileHeader(opts, Overridden(opts.description, def.description))
    + TableHeader(|data|, Overridden(opts.tableName, def.tableName))
    + data
  }

  /** `OutputDataToTargetFile`. */
  function Output(file: seq<byte>, opts: Settings, def: Definition, l: Located): Result<seq<byte>> {
    if l.size >= LIMIT31 then Err(Undefined) else Ok(TableFile(opts, def, ObjectData(file, l)))
  }

  // ---------------------------------------------------------------------------------------------------------------
  // The program
  // ---------------------------------------------------------------------------------------------------------------

  function FromDefinition(file: seq<byte>, opts: Settings, src: Source, scan: Scan, symbols: Symbols): Result<seq<byte>>
    requires symbols.Ok()
  {
    if symbols.def.None? then Err(NoDefinition)
    else
      match ReadDefinition(file, src, scan.sections, symbols.entries[symbols.def.value])
      case Err(e) => Err(e)
      case Ok(def) =>
        match Locate(scan, symbols, def)
        case Err(e) => Err(e)
        case Ok(l) => Output(file, opts, def, l)
  }

  function FromSymbols(file: seq<byte>, opts: Settings, src: Source, scan: Scan): Result<seq<byte>> {
    var t := scan.tables;
    if t.strings == 0 then Err(NoStringTable)
    else if t.numSymbols < 0 then Err(Undefined)
    else if t.numSymbols == 0 then Err(NoSymbols)
    else
      match ScanSymbols(file, src, t, 0, Symbols([], [], None))
      case Err(e) => Err(e)
      case Ok(symbols) => FromDefinition(file, opts, src, scan, symbols)
  }

  function FromSections(file: seq<byte>, opts: Settings, src: Source): Result<seq<byte>> {
    match ReadSection(file, src, src.header.shstrndx)
    case Err(e) => Err(e)
    case Ok(names) =>
      if src.header.shnum == 0 then Err(NoSections)
      else
        match ScanSections(file, src, Int64(names.offset), 0, Scan([], [], NO_TABLES))
        case Err(e) => Err(e)
        case Ok(scan) => FromSymbols(file, opts, src, scan)
  }

  /** `main`. */
  function Translate(file: seq<byte>, opts: Settings): Result<seq<byte>> {
    match ReadHeader(file, opts.machines)
    case Err(e) => Err(e)
    case Ok(src) => FromSections(file, opts, src)
  }
}
