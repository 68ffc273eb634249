/**
 The ELF structures byte by byte, as chapter 4 of the System V gABI lays them out: where `elf2cfetbl` finds each number it uses,
 for both classes, and what a file must contain to get past each stage.
 */
module ElfFormat {
  import opened Bytes
  import opened Options
  import opened ElfLayout
  import opened ElfSpec

  /** The number that bytes make: the first one weighs most, or least. */
  function Number(enc: Encoding, b: seq<byte>): nat {
    if b == [] then 0
    else if enc.Msb? then b[0] * Pow256(|b| - 1) + Number(enc, b[1..])
    else b[0] + 256 * Number(enc, b[1..])
  }

  lemma {:induction false} ValueIsNumber(enc: Encoding, b: seq<byte>)
    ensures Value(enc, b) == Number(enc, b)
    decreases |b|
  {
    if b == [] {
      assert Reversed(b) == [];
    } else {
      var rest := b[1..];
      assert b == [b[0]] + rest;
      ValueIsNumber(enc, rest);
      if enc.Msb? {
        BigEndianOfFirst(b[0], rest);
      } else {
        assert Reversed(b) == Reversed(rest) + [b[0]];
        assert Reversed(b)[..|b| - 1] == Reversed(rest);
      }
    }
  }

  function NumberAt(enc: Encoding, file: seq<byte>, pos: nat, n: nat): nat
    requires pos + n <= |file|
  {
    Number(enc, file[pos..pos + n])
  }

  lemma GetIsNumber(enc: Encoding, file: seq<byte>, pos: nat, size: nat, f: Field)
    requires pos + size <= |file| && Inside(f, size)
    ensures Get(enc, file[pos..pos + size], f) == NumberAt(enc, file, pos + f.offset, f.size)
  {
    hide Value, Number;
    ValueIsNumber(enc, file[pos + f.offset..pos + f.offset + f.size]);
    SliceOfSlice(file, pos, size, f.offset, f.offset + f.size);
  }

  /** The bytes of a text. */
  function Ascii(text: string): Name
    requires forall i :: 0 <= i < |text| ==> text[i] as int < 128
  {
    seq(|text|, i requires 0 <= i < |text| => text[i] as byte)
  }

  // ---------------------------------------------------------------------------------------------------------------
  // The header
  // ---------------------------------------------------------------------------------------------------------------

  /** Magic number, class, byte order and version. */
  predicate IsIdent(file: seq<byte>) {
    && |file| >= 16 && file[0] == 0x7f && file[1..4] == Ascii("ELF")
    && (file[4] == 1 || file[4] == 2) && (file[5] == 1 || file[5] == 2) && file[6] == 1
  }

  function ClassOf(file: seq<byte>): Class
    requires |file| >= 16
  {
    if file[4] == 1 then Elf32 else Elf64
  }

  function EncodingOf(file: seq<byte>): Encoding
    requires |file| >= 16
  {
    if file[5] == 1 then Lsb else Msb
  }

  /** The header has 52 bytes, or 64. */
  predicate HeaderAt(file: seq<byte>, cls: Class, enc: Encoding, h: Header) {
    if cls.Elf32? then
      && 52 <= |file| && h.etype == NumberAt(enc, file, 16, 2) && h.machine == NumberAt(enc, file, 18, 2)
      && h.version == NumberAt(enc, file, 20, 4) && h.shoff == NumberAt(enc, file, 32, 4)
      && h.shentsize == NumberAt(enc, file, 46, 2) && h.shnum == NumberAt(enc, file, 48, 2)
      && h.shstrndx == NumberAt(enc, file, 50, 2)
    else
      && 64 <= |file| && h.etype == NumberAt(enc, file, 16, 2) && h.machine == NumberAt(enc, file, 18, 2)
      && h.version == NumberAt(enc, file, 20, 4) && h.shoff == NumberAt(enc, file, 40, 8)
      && h.shentsize == NumberAt(enc, file, 58, 2) && h.shnum == NumberAt(enc, file, 60, 2)
      && h.shstrndx == NumberAt(enc, file, 62, 2)
  }

  lemma HeaderOfIs(file: seq<byte>, cls: Class, enc: Encoding)
    requires HeaderSize(cls) <= |file|
    ensures HeaderSize(cls) == if cls.Elf32? then 52 else 64
    ensures HeaderAt(file, cls, enc, HeaderOf(enc, cls, file[0..HeaderSize(cls)]))
  {
    hide Get, NumberAt;
    var n := HeaderSize(cls);
    GetIsNumber(enc, file, 0, n, H_TYPE);
    GetIsNumber(enc, file, 0, n, H_MACHINE);
    GetIsNumber(enc, file, 0, n, H_VERSION);
    GetIsNumber(enc, file, 0, n, HShoff(cls));
    GetIsNumber(enc, file, 0, n, HShentsize(cls));
    GetIsNumber(enc, file, 0, n, HShnum(cls));
    GetIsNumber(enc, file, 0, n, HShstrndx(cls));
  }

  lemma IdentIs(file: seq<byte>)
    ensures Ident(file).Ok? <==> IsIdent(file)
    ensures IsIdent(file) ==> Ident(file) == Ok((ClassOf(file), EncodingOf(file)))
  {
    if |file| >= 16 {
      assert file[1..4] == [file[1], file[2], file[3]];
      assert Ascii("ELF") == [69, 76, 70];
    }
  }

  lemma IdentIsLong(file: seq<byte>)
    ensures IsIdent(file) ==> |file| >= 16
  {
  }

  /** Exactly which files have a header that is accepted, and what is taken from it. */
  lemma HeaderIsAccepted(file: seq<byte>, machines: StrMap)
    ensures ReadHeader(file, machines).Ok? <==>
              && IsIdent(file) && |file| >= (if file[4] == 1 then 52 else 64)
              && NumberAt(EncodingOf(file), file, 16, 2) <= 4 && Listed(machines, NumberAt(EncodingOf(file), file, 18, 2))
              && NumberAt(EncodingOf(file), file, 20, 4) == 1
    ensures ReadHeader(file, machines).Ok? ==>
              var src := ReadHeader(file, machines).value;
              src.cls == ClassOf(file) && src.enc == EncodingOf(file) && HeaderAt(file, src.cls, src.enc, src.header)
  {
    hide HeaderOf, NumberAt, Listed, Ident, IsIdent;
    IdentIs(file);
    IdentIsLong(file);
    if IsIdent(file) && |file| >= HeaderSize(ClassOf(file)) {
      HeaderOfIs(file, ClassOf(file), EncodingOf(file));
    }
  }

  /** What each complaint about the header says is true. */
  lemma HeaderErrorIsTrue(file: seq<byte>, machines: StrMap)
    requires ReadHeader(file, machines).Err?
    ensures match ReadHeader(file, machines).error
            case ShortFile => |file| < 64
            case NotElf => |file| >= 16 && !(file[0] == 0x7f && file[1..4] == Ascii("ELF"))
            case WrongClass => |file| >= 16 && file[4] != 1 && file[4] != 2
            case WrongEncoding => |file| >= 16 && file[5] != 1 && file[5] != 2
            case WrongType => |file| >= 52 && NumberAt(EncodingOf(file), file, 16, 2) > 4
            case WrongMachine => |file| >= 52 && !Listed(machines, NumberAt(EncodingOf(file), file, 18, 2))
            case WrongVersion => |file| >= 16 && (file[6] != 1 || (|file| >= 52 && NumberAt(EncodingOf(file), file, 20, 4) != 1))
            case _ => false
  {
    hide HeaderOf, NumberAt, Listed;
    if |file| >= 16 {
      assert file[1..4] == [file[1], file[2], file[3]];
      assert Ascii("ELF") == [69, 76, 70];
      var cls, enc := ClassOf(file), EncodingOf(file);
      if |file| >= HeaderSize(cls) {
        HeaderOfIs(file, cls, enc);
      }
    }
  }

  /** A list of machines ends at the first text that starts with an asterisk. */
  lemma ListedIs(a: (nat, string), b: (nat, string), c: (nat, string))
    requires a.1 != "" && a.1[0] != '*' && b.1 != "" && b.1[0] == '*'
    ensures Listed([a, b, c], a.0) && (c.0 != a.0 ==> !Listed([a, b, c], c.0)) && (b.0 != a.0 ==> !Listed([a, b, c], b.0))
  {
    var s := [a, b, c];
    assert s[0].0 == a.0 && !IsSentinel(s[0]) && IsSentinel(s[1]);
  }

  // ---------------------------------------------------------------------------------------------------------------
  // Sections
  // ---------------------------------------------------------------------------------------------------------------

  /** A section header has 40 bytes, or 64. */
  predicate SectionAt(file: seq<byte>, pos: nat, cls: Class, enc: Encoding, s: Section) {
    if cls.Elf32? then
      && pos + 40 <= |file| && s.name == NumberAt(enc, file, pos, 4) && s.stype == NumberAt(enc, file, pos + 4, 4)
      && s.offset == NumberAt(enc, file, pos + 16, 4) && s.size == NumberAt(enc, file, pos + 20, 4)
      && s.entsize == NumberAt(enc, file, pos + 36, 4)
    else
      && pos + 64 <= |file| && s.name == NumberAt(enc, file, pos, 4) && s.stype == NumberAt(enc, file, pos + 4, 4)
      && s.offset == NumberAt(enc, file, pos + 24, 8) && s.size == NumberAt(enc, file, pos + 32, 8)
      && s.entsize == NumberAt(enc, file, pos + 56, 8)
  }

  /** Section i stands i entries behind the start of the table, if that entry lies in the file. */
  lemma SectionIsRead(file: seq<byte>, src: Source, i: nat)
    ensures var r, shoff := ReadSection(file, src, i), src.header.shoff;
            var pos := (if shoff < 0x8000_0000_0000_0000 then shoff else shoff - LIMIT64) + i * src.header.shentsize;
            && (r == Err(Undefined) <==> i * src.header.shentsize >= 0x8000_0000)
            && (r.Ok? <==> i * src.header.shentsize < 0x8000_0000 && 0 <= pos
                           && pos + (if src.cls.Elf32? then 40 else 64) <= |file|)
            && (if r.Ok? then SectionAt(file, pos, src.cls, src.enc, r.value)
                else r == Err(Undefined) || r == Err(BadSectionHeader))
  {
    hide Get, NumberAt;
    var n, pos := SectionSize(src.cls), Int64(src.header.shoff) + i * src.header.shentsize;
    if 0 <= pos && pos + n <= |file| {
      GetIsNumber(src.enc, file, pos, n, S_NAME);
      GetIsNumber(src.enc, file, pos, n, S_TYPE);
      GetIsNumber(src.enc, file, pos, n, SOffset(src.cls));
      GetIsNumber(src.enc, file, pos, n, SSize(src.cls));
      GetIsNumber(src.enc, file, pos, n, SEntsize(src.cls));
    }
  }

  /** Types 2 and 3 are symbol and string tables: of the string tables the one named ".strtab" counts, or the first
      other one that is not the table of section names. The first symbol is skipped: one symbol has 16 bytes, or 24. */
  lemma TablesAreNoted(cls: Class, shstrndx: nat, i: nat, s: Section, name: Name, t: Tables)
    ensures s.stype == 2 && s.offset < 0x7fff_0000 ==>
              && Noted(cls, shstrndx, i, s, Some(name), t).symbols == s.offset + (if cls.Elf32? then 16 else 24)
              && Noted(cls, shstrndx, i, s, Some(name), t).entsize == s.entsize
              && (s.entsize > 0 ==> Noted(cls, shstrndx, i, s, Some(name), t).numSymbols == s.size / s.entsize - 1)
              && Noted(cls, shstrndx, i, s, Some(name), t).strings == t.strings
    ensures s.stype == 3 && (name == Ascii(".strtab") || (t.strings == 0 && i != shstrndx)) ==>
              Noted(cls, shstrndx, i, s, Some(name), t) == t.(strings := s.offset)
    ensures s.stype != 2 && !(s.stype == 3 && (name == Ascii(".strtab") || (t.strings == 0 && i != shstrndx))) ==>
              Noted(cls, shstrndx, i, s, Some(name), t) == t
    ensures Noted(cls, shstrndx, i, s, None, t) == t
  {
    assert Ascii(".strtab") == STRTAB_NAME;
  }

  // ---------------------------------------------------------------------------------------------------------------
  // Symbols
  // ---------------------------------------------------------------------------------------------------------------

  /** In the 64-bit structure the section index comes before value and size. */
  predicate SymbolAt(file: seq<byte>, pos: nat, cls: Class, enc: Encoding, s: Symbol) {
    if cls.Elf32? then
      && pos + 16 <= |file| && s.name == NumberAt(enc, file, pos, 4) && s.value == NumberAt(enc, file, pos + 4, 4)
      && s.size == NumberAt(enc, file, pos + 8, 4) && s.shndx == NumberAt(enc, file, pos + 14, 2)
    else
      && pos + 24 <= |file| && s.name == NumberAt(enc, file, pos, 4) && s.shndx == NumberAt(enc, file, pos + 6, 2)
      && s.value == NumberAt(enc, file, pos + 8, 8) && s.size == NumberAt(enc, file, pos + 16, 8)
  }

  lemma SymbolIsRead(file: seq<byte>, src: Source, t: Tables, i: nat)
    requires 0 <= t.symbols && t.symbols + i * t.entsize < 0x8000_0000
    ensures var r, pos := ReadSymbol(file, src, t, i), t.symbols + i * t.entsize;
            if pos + (if src.cls.Elf32? then 16 else 24) > |file| then r == Err(BadSymbol)
            else r.Ok? && SymbolAt(file, pos, src.cls, src.enc, r.value)
  {
    hide Get, NumberAt;
    var n, pos := SymbolSize(src.cls), t.symbols + i * t.entsize;
    assert pos % LIMIT64 == pos;
    if pos + n <= |file| {
      GetIsNumber(src.enc, file, pos, n, Y_NAME);
      GetIsNumber(src.enc, file, pos, n, YValue(src.cls));
      GetIsNumber(src.enc, file, pos, n, YSize(src.cls));
      GetIsNumber(src.enc, file, pos, n, YShndx(src.cls));
    }
  }

  // ---------------------------------------------------------------------------------------------------------------
  // Names
  // ---------------------------------------------------------------------------------------------------------------

  /** A string of less than n bytes with its terminator. */
  predicate StringAt(file: seq<byte>, pos: nat, n: nat, text: Name) {
    |text| < n && pos + |text| < |file| && file[pos..pos + |text|] == text && file[pos + |text|] == 0 && 0 !in text
  }

  lemma {:induction false} CStringIff(file: seq<byte>, pos: nat, n: nat, text: Name)
    ensures CString(file, pos, n) == Some(text) <==> StringAt(file, pos, n, text)
    decreases n
  {
    if n > 0 && pos < |file| && file[pos] != 0 {
      if text != [] {
        CStringIff(file, pos + 1, n - 1, text[1..]);
        assert text == [text[0]] + text[1..];
        if pos + |text| < |file| {
          assert file[pos..pos + |text|] == [file[pos]] + file[pos + 1..pos + |text|];
        }
      }
    }
  }

  /** Symbol names are found in the string table, section names in the table of section names, in both cases up to 59 bytes. */
  lemma NamesAreRead(file: seq<byte>, t: Tables, y: Symbol, names: nat, s: Section, text: Name)
    requires t.strings + y.name < 0x8000_0000 && names > 0
    ensures SectionName(file, 0, s) == Ok(None)
    ensures SymbolName(file, t, y) == Ok(text) <==> StringAt(file, t.strings + y.name, 60, text)
    ensures s.name > 0 ==> (SectionName(file, names, s) == Ok(Some(text)) <==> StringAt(file, names + s.name, 60, text))
    ensures s.name == 0 ==> SectionName(file, names, s) == Ok(None)
  {
    hide CString, StringAt;
    CStringIff(file, t.strings + y.name, 60, text);
    CStringIff(file, names + s.name, 60, text);
  }

  /** The definition is the symbol "CFE_TBL_FileDef", with or without one character before it. */
  lemma DefinitionNames(name: Name)
    ensures IsDefName(name) <==>
              name == Ascii("CFE_TBL_FileDef") || (|name| == 16 && name[1..] == Ascii("CFE_TBL_FileDef"))
    ensures BSS_NAME == Ascii(".bss")
  {
    assert Ascii("CFE_TBL_FileDef") == DEF_NAME;
  }

  // ---------------------------------------------------------------------------------------------------------------
  // The table definition
  // ---------------------------------------------------------------------------------------------------------------

  /** A text in n bytes at pos: up to the first NUL, or all but the last byte. */
  predicate FieldTextAt(file: seq<byte>, pos: nat, n: nat, text: Name) {
    && |text| < n && pos + n <= |file| && file[pos..pos + |text|] == text && 0 !in text
    && (|text| < n - 1 ==> file[pos + |text|] == 0)
  }

  lemma {:induction false} ToNulIs(b: seq<byte>)
    ensures ToNul(b) == b[..|ToNul(b)|] && 0 !in ToNul(b) && (|ToNul(b)| < |b| ==> b[|ToNul(b)|] == 0)
  {
    if b != [] && b[0] != 0 {
      ToNulIs(b[1..]);
      assert b == [b[0]] + b[1..];
    }
  }

  lemma TextIsRead(file: seq<byte>, pos: nat, n: nat)
    requires pos + n <= |file| && n > 0
    ensures FieldTextAt(file, pos, n, ToNul(file[pos..pos + n - 1]))
  {
    hide ToNul;
    var b := file[pos..pos + n - 1];
    ToNulIs(b);
    assert file[pos..pos + |ToNul(b)|] == b[..|ToNul(b)|];
  }

  /** A definition has 160 bytes: the name of the object, of the table and the description in 64, 40 and 32 bytes, a
      file name in 20, and the size of the object. */
  predicate DefinitionAt(file: seq<byte>, pos: nat, enc: Encoding, d: Definition) {
    && pos + 160 <= |file| && FieldTextAt(file, pos, 64, d.objectName) && FieldTextAt(file, pos + 64, 40, d.tableName)
    && FieldTextAt(file, pos + 104, 32, d.description) && d.objectSize == NumberAt(enc, file, pos + 156, 4)
  }

  lemma DefinitionIsRead(file: seq<byte>, src: Source, sections: seq<Section>, s: Symbol)
    requires s.shndx < |sections| && sections[s.shndx].offset + s.value < LIMIT64
    ensures var r, pos := ReadDefinition(file, src, sections, s), sections[s.shndx].offset + s.value;
            && (r.Ok? <==> (s.size == 160 || s.size == 0) && pos < LIMIT32 && pos + 160 <= |file|)
            && (if r.Ok? then DefinitionAt(file, pos, src.enc, r.value) else r == Err(BadDefinition))
  {
    hide Get, NumberAt, ToNul, FieldTextAt;
    var pos := sections[s.shndx].offset + s.value;
    assert pos % LIMIT64 == pos;
    if pos + 160 <= |file| {
      var image := file[pos..pos + 160];
      GetIsNumber(src.enc, file, pos, 160, D_OBJECT_SIZE);
      TextIsRead(file, pos, 64);
      TextIsRead(file, pos + 64, 40);
      TextIsRead(file, pos + 104, 32);
      assert image[..63] == image[0..63];
      SliceOfSlice(file, pos, 160, 0, 63);
      SliceOfSlice(file, pos, 160, 64, 103);
      SliceOfSlice(file, pos, 160, 104, 135);
    }
  }

  /** The data are zeros, or the bytes of the file from an offset on; past the end of the file they are 0xff. */
  lemma DataIsRead(file: seq<byte>, offset: nat, size: nat, i: nat)
    requires i < size
    ensures ObjectData(file, Located(true, offset, size))[i] == 0
    ensures ObjectData(file, Located(false, offset, size))[i] == if offset + i < |file| then file[offset + i] else 0xff
  {
    assert ByteAt(file, offset + i) == if offset + i < |file| then file[offset + i] else 0xff;
  }

  // ---------------------------------------------------------------------------------------------------------------
  // Complaints
  // ---------------------------------------------------------------------------------------------------------------

  lemma {:induction false} SectionErrors(file: seq<byte>, src: Source, names: int, i: nat, scan: Scan)
    ensures var r := ScanSections(file, src, names, i, scan);
            r.Err? ==> r == Err(BadSectionHeader) || r == Err(Undefined)
    decreases if i < src.header.shnum then src.header.shnum - i else 0
  {
    if i < src.header.shnum {
      var next := ScanOne(file, src, names, i, scan);
      if next.Ok? {
        SectionErrors(file, src, names, i + 1, next.value);
      }
    }
  }

  lemma {:induction false} SymbolErrors(file: seq<byte>, src: Source, t: Tables, i: nat, acc: Symbols)
    requires acc.Ok() && i == |acc.entries|
    ensures var r := ScanSymbols(file, src, t, i, acc);
            r.Err? ==> r == Err(BadSymbol) || r == Err(Undefined)
    decreases if i < t.numSymbols then t.numSymbols - i else 0
  {
    if i < t.numSymbols {
      var next := ScanSymbol(file, src, t, i, acc);
      if next.Ok? {
        SymbolErrors(file, src, t, i + 1, next.value);
      }
    }
  }

  /** An object in a section of the file other than ".bss" is found at an offset below 2^32. */
  lemma OffsetComplaint(scan: Scan, symbols: Symbols, def: Definition, i: nat)
    requires symbols.Ok() && FindObject(symbols.names, def.objectName, 0) == Some(i)
    requires symbols.entries[i].shndx < |scan.names| == |scan.sections| && scan.names[symbols.entries[i].shndx].Some?
    requires scan.names[symbols.entries[i].shndx].value != Ascii(".bss")
    ensures var s := symbols.entries[i];
            var offset := (scan.sections[s.shndx].offset + s.value) % 0x1_0000_0000_0000_0000;
            if offset >= 0x1_0000_0000 then Locate(scan, symbols, def) == Err(BadObjectOffset)
            else Locate(scan, symbols, def).Ok? && Locate(scan, symbols, def).value.offset == offset
                 && !Locate(scan, symbols, def).value.zeros
  {
    assert Ascii(".bss") == BSS_NAME;
  }

  /** There is no definition among the symbols, or the named object is none of them. */
  lemma DefinitionComplaints(file: seq<byte>, opts: Settings, src: Source, scan: Scan, symbols: Symbols)
    requires symbols.Ok()
    ensures var r := FromDefinition(file, opts, src, scan, symbols);
            && (r == Err(NoDefinition) <==> symbols.def.None?)
            && (r == Err(NoObject) <==>
                  && symbols.def.Some? && ReadDefinition(file, src, scan.sections, symbols.entries[symbols.def.value]).Ok?
                  && var wanted := ReadDefinition(file, src, scan.sections, symbols.entries[symbols.def.value]).value.objectName;
                     forall j :: 0 <= j < |symbols.names| ==> !IsObjectName(symbols.names[j], wanted))
            && (r.Err? ==> r.error in {NoDefinition, BadDefinition, NoObject, BadObjectOffset, Undefined})
  {
    hide ObjectData, TableFile, IsObjectName, DefinitionOf;
  }

  /** There is no string table, or there are no symbols in the symbol table. */
  lemma SymbolComplaints(file: seq<byte>, opts: Settings, src: Source, scan: Scan)
    ensures var r := FromSymbols(file, opts, src, scan);
            && (r == Err(NoStringTable) <==> scan.tables.strings == 0)
            && (r == Err(NoSymbols) <==> scan.tables.strings != 0 && scan.tables.numSymbols == 0)
            && (r.Err? ==> r.error in {NoStringTable, NoSymbols, BadSymbol, NoDefinition, BadDefinition, NoObject,
                                       BadObjectOffset, Undefined})
  {
    hide FromDefinition, ScanSymbols;
    SymbolErrors(file, src, scan.tables, 0, Symbols([], [], None));
    var symbols := ScanSymbols(file, src, scan.tables, 0, Symbols([], [], None));
    if symbols.Ok? {
      DefinitionComplaints(file, opts, src, scan, symbols.value);
    }
  }

  /** There are no sections. */
  lemma NoSectionsIff(file: seq<byte>, opts: Settings)
    ensures Translate(file, opts) == Err(NoSections) <==>
              && ReadHeader(file, opts.machines).Ok?
              && var src := ReadHeader(file, opts.machines).value;
                 src.header.shnum == 0 && ReadSection(file, src, src.header.shstrndx).Ok?
  {
    hide ReadHeader, ReadSection, FromSymbols, ScanSections;
    var header := ReadHeader(file, opts.machines);
    if header.Err? {
      HeaderErrorIsTrue(file, opts.machines);
    } else {
      var src := header.value;
      SectionIsRead(file, src, src.header.shstrndx);
      var names := ReadSection(file, src, src.header.shstrndx);
      if names.Ok? && src.header.shnum != 0 {
        SectionErrors(file, src, Int64(names.value.offset), 0, Scan([], [], NO_TABLES));
        var scan := ScanSections(file, src, Int64(names.value.offset), 0, Scan([], [], NO_TABLES));
        if scan.Ok? {
          SymbolComplaints(file, opts, src, scan.value);
        }
      }
    }
  }
}
