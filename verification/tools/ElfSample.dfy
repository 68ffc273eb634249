/**
 A writer of ELF objects with one table, in each class and byte order: what it writes satisfies `ElfMeaning`, so compiling a
 table and translating the object gives the table file back.
 */
module ElfSample {
  import opened Bytes
  import opened Options
  import opened ElfLayout
  import opened ElfSpec
  import opened ElfTheory
  import opened ElfMeaning

  // ---------------------------------------------------------------------------------------------------------------
  // Structures
  // ---------------------------------------------------------------------------------------------------------------

  function HeaderBytes(cls: Class, enc: Encoding, h: Header): seq<byte> {
    IdentBytes(cls, enc) + [0, 0, 0, 0, 0, 0, 0, 0, 0]
    + Stored(enc, h.etype, 2) + Stored(enc, h.machine, 2) + Stored(enc, h.version, 4)
    + Stored(enc, 0, Addr(cls)) + Stored(enc, 0, Addr(cls)) + Stored(enc, h.shoff, Addr(cls))
    + Stored(enc, 0, 4) + Stored(enc, HeaderSize(cls), 2) + Stored(enc, 0, 2) + Stored(enc, 0, 2)
    + Stored(enc, h.shentsize, 2) + Stored(enc, h.shnum, 2) + Stored(enc, h.shstrndx, 2)
  }

  function SectionBytes(cls: Class, enc: Encoding, s: Section): (b: seq<byte>)
    ensures |b| == SectionSize(cls)
  {
    Stored(enc, s.name, 4) + Stored(enc, s.stype, 4) + Stored(enc, 0, Addr(cls)) + Stored(enc, 0, Addr(cls))
    + Stored(enc, s.offset, Addr(cls)) + Stored(enc, s.size, Addr(cls)) + Stored(enc, 0, 4) + Stored(enc, 0, 4)
    + Stored(enc, 0, Addr(cls)) + Stored(enc, s.entsize, Addr(cls))
  }

  function SymbolBytes(cls: Class, enc: Encoding, s: Symbol): (b: seq<byte>)
    ensures |b| == SymbolSize(cls)
  {
    match cls
    case Elf32 =>
      Stored(enc, s.name, 4) + Stored(enc, s.value, 4) + Stored(enc, s.size, 4) + [0, 0] + Stored(enc, s.shndx, 2)
    case Elf64 =>
      Stored(enc, s.name, 4) + [0, 0] + Stored(enc, s.shndx, 2) + Stored(enc, s.value, 8) + Stored(enc, s.size, 8)
  }

  // ---------------------------------------------------------------------------------------------------------------
  // The file
  // ---------------------------------------------------------------------------------------------------------------

  /** "\\0.data\\0.strtab\\0.symtab\\0.shstrtab\\0". */
  const SECTION_NAMES: seq<byte> := [0] + (DATA_NAME + [0]) + (STRTAB_NAME + [0]) + (SYMTAB_NAME + [0]) + (SHSTRTAB_NAME + [0])
  const DATA_NAME: Name := [46, 100, 97, 116, 97]
  const SYMTAB_NAME: Name := [46, 115, 121, 109, 116, 97, 98]
  const SHSTRTAB_NAME: Name := [46, 115, 104, 115, 116, 114, 116, 97, 98]

  function Strings(t: Table): seq<byte> {
    [0] + (t.def.objectName + [0]) + (DEF_NAME + [0])
  }

  function DataPos(cls: Class): nat { HeaderSize(cls) }
  function DefPos(cls: Class, t: Table): nat { DataPos(cls) + |t.data| }
  function NamesPos(cls: Class, t: Table): nat { DefPos(cls, t) + DEF_SIZE }
  function StringsPos(cls: Class, t: Table): nat { NamesPos(cls, t) + 33 }
  function SymbolsPos(cls: Class, t: Table): nat { StringsPos(cls, t) + |t.def.objectName| + 18 }
  function SectionsPos(cls: Class, t: Table): nat { SymbolsPos(cls, t) + 3 * SymbolSize(cls) }

  function SampleSections(cls: Class, t: Table): seq<Section> {
    [Section(0, 0, 0, 0, 0),
     Section(1, 1, DataPos(cls), |t.data| + DEF_SIZE, 0),
     Section(7, SHT_STRTAB, StringsPos(cls, t), |t.def.objectName| + 18, 0),
     Section(15, SHT_SYMTAB, SymbolsPos(cls, t), 3 * SymbolSize(cls), SymbolSize(cls)),
     Section(23, SHT_STRTAB, NamesPos(cls, t), 33, 0)]
  }

  function SampleSymbols(t: Table): seq<Symbol> {
    [Symbol(1, 0, |t.data|, 1), Symbol(|t.def.objectName| + 2, |t.data|, DEF_SIZE, 1)]
  }

  function Sample(cls: Class, machine: nat, t: Table): Elf {
    Elf(1, machine, SectionsPos(cls, t), SectionSize(cls), 4, SampleSections(cls, t),
        [None, Some(DATA_NAME), Some(STRTAB_NAME), Some(SYMTAB_NAME), Some(SHSTRTAB_NAME)],
        SampleSymbols(t), [t.def.objectName, DEF_NAME])
  }

  const ROLES := Roles(2, 3, 1, 0)

  function SymbolTable(cls: Class, enc: Encoding, t: Table): seq<byte> {
    SymbolBytes(cls, enc, Symbol(0, 0, 0, 0)) + SymbolBytes(cls, enc, SampleSymbols(t)[0])
    + SymbolBytes(cls, enc, SampleSymbols(t)[1])
  }

  function SectionTable(cls: Class, enc: Encoding, t: Table): seq<byte> {
    var s := SampleSections(cls, t);
    SectionBytes(cls, enc, s[0]) + SectionBytes(cls, enc, s[1]) + SectionBytes(cls, enc, s[2]) + SectionBytes(cls, enc, s[3])
    + SectionBytes(cls, enc, s[4])
  }

  /** The object file with this table. */
  function Compile(cls: Class, enc: Encoding, machine: nat, t: Table, target: Name): seq<byte> {
    HeaderBytes(cls, enc, HeaderFor(Sample(cls, machine, t)))
    + t.data
    + DefinitionBytes(enc, t.def, target)
    + SECTION_NAMES
    + Strings(t)
    + SymbolTable(cls, enc, t)
    + SectionTable(cls, enc, t)
  }

  /** The table can be compiled: its names fit, the size in its definition is right, and the file stays below 2^31. */
  predicate Compilable(machine: nat, t: Table, target: Name) {
    && DefinitionFits(t.def, target) && |t.def.objectName| < BUFFER_SIZE && t.def.objectSize == |t.data|
    && |t.data| < 0x7000_0000 && machine < 0x1_0000
  }

  // ---------------------------------------------------------------------------------------------------------------
  // What is written is there
  // ---------------------------------------------------------------------------------------------------------------

  lemma BytesSplit(file: seq<byte>, pos: nat, a: seq<byte>, b: seq<byte>)
    requires HasBytes(file, pos, a + b)
    ensures HasBytes(file, pos, a) && HasBytes(file, pos + |a|, b)
  {
    assert (a + b)[..|a|] == a && (a + b)[|a|..] == b;
    assert file[pos..pos + |a|] == file[pos..pos + |a + b|][..|a|];
    assert file[pos + |a|..pos + |a + b|] == file[pos..pos + |a + b|][|a|..];
  }

  lemma Powers(cls: Class)
    ensures Pow256(2) == 0x1_0000 && Pow256(4) == LIMIT32 && Pow256(Addr(cls)) >= LIMIT32
  {
    PowValues();
  }

  lemma HeaderIsWritten(file: seq<byte>, cls: Class, enc: Encoding, h: Header)
    requires HasBytes(file, 0, HeaderBytes(cls, enc, h))
    requires h.etype < 0x1_0000 && h.machine < 0x1_0000 && h.version < LIMIT32 && h.shoff < LIMIT32
    requires h.shentsize < 0x1_0000 && h.shnum < 0x1_0000 && h.shstrndx < 0x1_0000
    ensures HasHeader(file, cls, enc, h)
  {
    hide HasBytes, Stored, IdentBytes;
    Powers(cls);
    var ident := IdentBytes(cls, enc) + [0, 0, 0, 0, 0, 0, 0, 0, 0];
    assert |IdentBytes(cls, enc)| == 7 by { IdentLength(cls, enc); }
    var f1 := ident + Stored(enc, h.etype, 2);
    var f2 := f1 + Stored(enc, h.machine, 2);
    var f3 := f2 + Stored(enc, h.version, 4);
    var f5 := f3 + Stored(enc, 0, Addr(cls)) + Stored(enc, 0, Addr(cls));
    var f6 := f5 + Stored(enc, h.shoff, Addr(cls));
    var f10 := f6 + Stored(enc, 0, 4) + Stored(enc, HeaderSize(cls), 2) + Stored(enc, 0, 2) + Stored(enc, 0, 2);
    var f11 := f10 + Stored(enc, h.shentsize, 2);
    var f12 := f11 + Stored(enc, h.shnum, 2);
    assert HeaderBytes(cls, enc, h) == f12 + Stored(enc, h.shstrndx, 2);
    BytesSplit(file, 0, f12, Stored(enc, h.shstrndx, 2));
    BytesSplit(file, 0, f11, Stored(enc, h.shnum, 2));
    BytesSplit(file, 0, f10, Stored(enc, h.shentsize, 2));
    BytesSplit(file, 0, f6 + Stored(enc, 0, 4) + Stored(enc, HeaderSize(cls), 2) + Stored(enc, 0, 2), Stored(enc, 0, 2));
    BytesSplit(file, 0, f6 + Stored(enc, 0, 4) + Stored(enc, HeaderSize(cls), 2), Stored(enc, 0, 2));
    BytesSplit(file, 0, f6 + Stored(enc, 0, 4), Stored(enc, HeaderSize(cls), 2));
    BytesSplit(file, 0, f6, Stored(enc, 0, 4));
    BytesSplit(file, 0, f5, Stored(enc, h.shoff, Addr(cls)));
    BytesSplit(file, 0, f3 + Stored(enc, 0, Addr(cls)), Stored(enc, 0, Addr(cls)));
    BytesSplit(file, 0, f3, Stored(enc, 0, Addr(cls)));
    BytesSplit(file, 0, f2, Stored(enc, h.version, 4));
    BytesSplit(file, 0, f1, Stored(enc, h.machine, 2));
    BytesSplit(file, 0, ident, Stored(enc, h.etype, 2));
    BytesSplit(file, 0, IdentBytes(cls, enc), [0, 0, 0, 0, 0, 0, 0, 0, 0]);
    HeaderBytesLength(cls, enc, h);
    BytesEnd(file, 0, HeaderBytes(cls, enc, h));
  }

  lemma IdentLength(cls: Class, enc: Encoding)
    ensures |IdentBytes(cls, enc)| == 7
  {
  }

  lemma BytesEnd(file: seq<byte>, pos: nat, b: seq<byte>)
    requires HasBytes(file, pos, b)
    ensures pos + |b| <= |file|
  {
  }

  lemma HeaderBytesLength(cls: Class, enc: Encoding, h: Header)
    ensures |HeaderBytes(cls, enc, h)| == HeaderSize(cls)
  {
    hide Stored;
  }

  lemma SectionIsWritten(file: seq<byte>, pos: nat, cls: Class, enc: Encoding, s: Section)
    requires HasBytes(file, pos, SectionBytes(cls, enc, s))
    requires s.name < LIMIT32 && s.stype < LIMIT32 && s.offset < LIMIT32 && s.size < LIMIT32 && s.entsize < LIMIT32
    ensures HasSection(file, pos, cls, enc, s)
  {
    hide HasBytes, Stored;
    Powers(cls);
    var a := Addr(cls);
    var f2 := Stored(enc, s.name, 4) + Stored(enc, s.stype, 4);
    var f4 := f2 + Stored(enc, 0, a) + Stored(enc, 0, a);
    var f6 := f4 + Stored(enc, s.offset, a) + Stored(enc, s.size, a);
    var f9 := f6 + Stored(enc, 0, 4) + Stored(enc, 0, 4) + Stored(enc, 0, a);
    assert SectionBytes(cls, enc, s) == f9 + Stored(enc, s.entsize, a);
    BytesEnd(file, pos, SectionBytes(cls, enc, s));
    BytesSplit(file, pos, f9, Stored(enc, s.entsize, a));
    BytesSplit(file, pos, f6 + Stored(enc, 0, 4) + Stored(enc, 0, 4), Stored(enc, 0, a));
    BytesSplit(file, pos, f6 + Stored(enc, 0, 4), Stored(enc, 0, 4));
    BytesSplit(file, pos, f6, Stored(enc, 0, 4));
    BytesSplit(file, pos, f4 + Stored(enc, s.offset, a), Stored(enc, s.size, a));
    BytesSplit(file, pos, f4, Stored(enc, s.offset, a));
    BytesSplit(file, pos, f2 + Stored(enc, 0, a), Stored(enc, 0, a));
    BytesSplit(file, pos, f2, Stored(enc, 0, a));
    BytesSplit(file, pos, Stored(enc, s.name, 4), Stored(enc, s.stype, 4));
  }

  lemma SymbolIsWritten(file: seq<byte>, pos: nat, cls: Class, enc: Encoding, s: Symbol)
    requires HasBytes(file, pos, SymbolBytes(cls, enc, s))
    requires s.name < LIMIT32 && s.value < LIMIT32 && s.size < LIMIT32 && s.shndx < 0x1_0000
    ensures HasSymbol(file, pos, cls, enc, s)
  {
    hide HasBytes, Stored;
    Powers(cls);
    BytesEnd(file, pos, SymbolBytes(cls, enc, s));
    var name := Stored(enc, s.name, 4);
    match cls
    case Elf32 =>
      var f3 := name + Stored(enc, s.value, 4) + Stored(enc, s.size, 4);
      BytesSplit(file, pos, f3 + [0, 0], Stored(enc, s.shndx, 2));
      BytesSplit(file, pos, f3, [0, 0]);
      BytesSplit(file, pos, name + Stored(enc, s.value, 4), Stored(enc, s.size, 4));
      BytesSplit(file, pos, name, Stored(enc, s.value, 4));
    case Elf64 =>
      var f3 := name + [0, 0] + Stored(enc, s.shndx, 2);
      BytesSplit(file, pos, f3 + Stored(enc, s.value, 8), Stored(enc, s.size, 8));
      BytesSplit(file, pos, f3, Stored(enc, s.value, 8));
      BytesSplit(file, pos, name + [0, 0], Stored(enc, s.shndx, 2));
      BytesSplit(file, pos, name, [0, 0]);
  }

  /** Where the parts of a compiled file lie. */
  lemma PartsOfFile(cls: Class, enc: Encoding, machine: nat, t: Table, target: Name)
    requires DefinitionFits(t.def, target)
    ensures var file := Compile(cls, enc, machine, t, target);
            && HasBytes(file, 0, HeaderBytes(cls, enc, HeaderFor(Sample(cls, machine, t))))
            && HasBytes(file, DataPos(cls), t.data)
            && HasBytes(file, DefPos(cls, t), DefinitionBytes(enc, t.def, target))
            && HasBytes(file, NamesPos(cls, t), SECTION_NAMES)
            && HasBytes(file, StringsPos(cls, t), Strings(t))
            && HasBytes(file, SymbolsPos(cls, t), SymbolTable(cls, enc, t))
            && HasBytes(file, SectionsPos(cls, t), SectionTable(cls, enc, t))
  {
    hide HasBytes, HeaderBytes, DefinitionBytes, SECTION_NAMES, Strings, SymbolTable, SectionTable, DefinitionOf;
    var file := Compile(cls, enc, machine, t, target);
    var a, d, n, s := HeaderBytes(cls, enc, HeaderFor(Sample(cls, machine, t))), DefinitionBytes(enc, t.def, target),
                      SECTION_NAMES, Strings(t);
    var y, z := SymbolTable(cls, enc, t), SectionTable(cls, enc, t);
    HeaderBytesLength(cls, enc, HeaderFor(Sample(cls, machine, t)));
    DefinitionIsRead(enc, t.def, target);
    PartLengths(cls, enc, t);
    WholeFile(file);
    assert file == a + t.data + d + n + s + y + z;
    BytesSplit(file, 0, a + t.data + d + n + s + y, z);
    BytesSplit(file, 0, a + t.data + d + n + s, y);
    BytesSplit(file, 0, a + t.data + d + n, s);
    BytesSplit(file, 0, a + t.data + d, n);
    BytesSplit(file, 0, a + t.data, d);
    BytesSplit(file, 0, a, t.data);
  }

  lemma WholeFile(file: seq<byte>)
    ensures HasBytes(file, 0, file)
  {
  }

  lemma PartLengths(cls: Class, enc: Encoding, t: Table)
    ensures |SECTION_NAMES| == 33 && |Strings(t)| == |t.def.objectName| + 18
    ensures |SymbolTable(cls, enc, t)| == 3 * SymbolSize(cls)
  {
  }

  lemma StringsInTable(file: seq<byte>, pos: nat, t: Table)
    requires HasBytes(file, pos, Strings(t)) && |t.def.objectName| < BUFFER_SIZE && 0 !in t.def.objectName
    ensures HasString(file, pos + 1, t.def.objectName) && HasString(file, pos + |t.def.objectName| + 2, DEF_NAME)
  {
    hide HasBytes;
    var o, d := t.def.objectName + [0], DEF_NAME + [0];
    BytesSplit(file, pos, [0] + o, d);
    BytesSplit(file, pos, [0], o);
  }

  lemma NamesInTable(file: seq<byte>, pos: nat)
    requires HasBytes(file, pos, SECTION_NAMES)
    ensures HasString(file, pos + 1, DATA_NAME) && HasString(file, pos + 7, STRTAB_NAME)
    ensures HasString(file, pos + 15, SYMTAB_NAME) && HasString(file, pos + 23, SHSTRTAB_NAME)
  {
    hide HasBytes;
    var a, b, c, d := DATA_NAME + [0], STRTAB_NAME + [0], SYMTAB_NAME + [0], SHSTRTAB_NAME + [0];
    BytesSplit(file, pos, [0] + a + b + c, d);
    BytesSplit(file, pos, [0] + a + b, c);
    BytesSplit(file, pos, [0] + a, b);
    BytesSplit(file, pos, [0], a);
  }

  // ---------------------------------------------------------------------------------------------------------------
  // The compiled file in the terms of the translation
  // ---------------------------------------------------------------------------------------------------------------

  lemma SampleTables(cls: Class, machine: nat, t: Table)
    ensures var e := Sample(cls, machine, t);
            && StringsElsewhere(e.sections, e.sectionNames)
            && LastStrtab(e.sections, e.sectionNames, 5, 2) && LastSymtab(e.sections, e.sectionNames, 5, 3)
  {
  }

  lemma SampleDef(t: Table)
    ensures LastDef([t.def.objectName, DEF_NAME], 2, Some(1))
  {
  }

  lemma SampleIsConsistent(cls: Class, machine: nat, t: Table, target: Name)
    requires Compilable(machine, t, target)
    ensures Consistent(cls, Sample(cls, machine, t), ROLES)
  {
    hide StringsElsewhere, LastStrtab, FirstOther, LastSymtab, LastDef, DefinitionFits;
    SampleTables(cls, machine, t);
    SampleDef(t);
    assert |t.def.objectName| < BUFFER_SIZE;
  }

  lemma SectionsAreWritten(file: seq<byte>, cls: Class, enc: Encoding, machine: nat, t: Table, target: Name, i: nat)
    requires Compilable(machine, t, target) && HasBytes(file, SectionsPos(cls, t), SectionTable(cls, enc, t)) && i < 5
    ensures var e := Sample(cls, machine, t); HasSection(file, e.shoff + i * e.shentsize, cls, enc, e.sections[i])
  {
    hide HasBytes, SectionBytes, HasSection, DefinitionFits;
    var s, p, n := SampleSections(cls, t), SectionsPos(cls, t), SectionSize(cls);
    var b0, b1, b2, b3, b4 := SectionBytes(cls, enc, s[0]), SectionBytes(cls, enc, s[1]), SectionBytes(cls, enc, s[2]),
                              SectionBytes(cls, enc, s[3]), SectionBytes(cls, enc, s[4]);
    BytesSplit(file, p, b0 + b1 + b2 + b3, b4);
    BytesSplit(file, p, b0 + b1 + b2, b3);
    BytesSplit(file, p, b0 + b1, b2);
    BytesSplit(file, p, b0, b1);
    SectionIsWritten(file, p + i * n, cls, enc, s[i]);
  }

  lemma SymbolsAreWritten(file: seq<byte>, cls: Class, enc: Encoding, machine: nat, t: Table, target: Name, i: nat)
    requires Compilable(machine, t, target) && HasBytes(file, SymbolsPos(cls, t), SymbolTable(cls, enc, t)) && i < 2
    ensures var e := Sample(cls, machine, t); HasSymbol(file, SymbolPos(cls, e, ROLES, i), cls, enc, e.symbols[i])
  {
    hide HasBytes, SymbolBytes, HasSymbol, DefinitionFits;
    var s, p, n := SampleSymbols(t), SymbolsPos(cls, t), SymbolSize(cls);
    var b0, b1, b2 := SymbolBytes(cls, enc, Symbol(0, 0, 0, 0)), SymbolBytes(cls, enc, s[0]), SymbolBytes(cls, enc, s[1]);
    BytesSplit(file, p, b0 + b1, b2);
    BytesSplit(file, p, b0, b1);
    SymbolIsWritten(file, p + (i + 1) * n, cls, enc, s[i]);
  }

  lemma SampleIsHeld(cls: Class, enc: Encoding, machine: nat, t: Table, target: Name)
    requires Compilable(machine, t, target) && Consistent(cls, Sample(cls, machine, t), ROLES)
    ensures Holds(Compile(cls, enc, machine, t, target), cls, enc, Sample(cls, machine, t), ROLES)
  {
    hide Compile, HasBytes, HasHeader, HasSection, HasSymbol, HasString, Consistent, HeaderBytes, SectionTable, SymbolTable;
    hide Strings, SECTION_NAMES, DefinitionBytes;
    var file, e := Compile(cls, enc, machine, t, target), Sample(cls, machine, t);
    PartsOfFile(cls, enc, machine, t, target);
    HeaderIsWritten(file, cls, enc, HeaderFor(e));
    NamesInTable(file, NamesPos(cls, t));
    StringsInTable(file, StringsPos(cls, t), t);
    forall i | 0 <= i < 5
      ensures HasSection(file, e.shoff + i * e.shentsize, cls, enc, e.sections[i])
    {
      SectionsAreWritten(file, cls, enc, machine, t, target, i);
    }
    forall i | 0 <= i < 2
      ensures HasSymbol(file, SymbolPos(cls, e, ROLES, i), cls, enc, e.symbols[i])
    {
      SymbolsAreWritten(file, cls, enc, machine, t, target, i);
    }
  }

  lemma SampleDefines(cls: Class, enc: Encoding, machine: nat, t: Table, target: Name)
    requires Compilable(machine, t, target)
    ensures Defines(Compile(cls, enc, machine, t, target), enc, Sample(cls, machine, t), ROLES, t, target)
  {
    hide Compile, HasBytes, HeaderBytes, SectionTable, SymbolTable, Strings, SECTION_NAMES, DefinitionBytes, DefinitionFits;
    PartsOfFile(cls, enc, machine, t, target);
    FoundIff([t.def.objectName, DEF_NAME], t.def.objectName, 0);
  }

  /** Compiling a table for any class and byte order, and translating the object on any host, gives the table file. */
  lemma CompiledTableIsTranslated(cls: Class, enc: Encoding, machine: nat, t: Table, target: Name, opts: Settings)
    requires Compilable(machine, t, target) && Listed(opts.machines, machine)
    ensures Translate(Compile(cls, enc, machine, t, target), opts) == Ok(TableFile(opts, t.def, t.data))
  {
    hide Compile, Translate, TableFile, Consistent, Holds, Defines, Compilable, Listed;
    SampleIsConsistent(cls, machine, t, target);
    SampleIsHeld(cls, enc, machine, t, target);
    SampleDefines(cls, enc, machine, t, target);
    TranslationIsFaithful(Compile(cls, enc, machine, t, target), opts, cls, enc, Sample(cls, machine, t), ROLES, t, target);
  }
}
