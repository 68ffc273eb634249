/**
 The translation of `elf2cfetbl.c` preserves meaning: a file that holds an ELF object with a table, in either class and either
 byte order and with its parts wherever they lie, always becomes the same table file.
 */
module ElfMeaning {
  import opened Bytes
  import opened Options
  import opened ElfLayout
  import opened ElfSpec
  import opened ElfTheory

  /** An ELF object as far as the tool is concerned; the symbols are those after the first entry of the symbol table. */
  datatype Elf = Elf(etype: nat, machine: nat, shoff: nat, shentsize: nat, shstrndx: nat,
                     sections: seq<Section>, sectionNames: seq<Option<Name>>,
                     symbols: seq<Symbol>, symbolNames: seq<Name>)

  /** Which of its parts are what: the string table, the symbol table, the definition and the object it names. */
  datatype Roles = Roles(strings: nat, symtab: nat, def: nat, subject: nat)

  /** What the table is: the contents of its definition, and its bytes. */
  datatype Table = Table(def: Definition, data: seq<byte>)

  // ---------------------------------------------------------------------------------------------------------------
  // What it means that a file holds an object
  // ---------------------------------------------------------------------------------------------------------------

  predicate HasBytes(file: seq<byte>, pos: int, b: seq<byte>) {
    0 <= pos && pos + |b| <= |file| && file[pos..pos + |b|] == b
  }

  /** The field of a structure at pos has this value. */
  predicate HasField(file: seq<byte>, pos: int, enc: Encoding, f: Field, v: nat) {
    v < Pow256(f.size) && HasBytes(file, pos + f.offset, Stored(enc, v, f.size))
  }

  /** A string with its terminator, short enough for the tool's buffers. */
  predicate HasString(file: seq<byte>, pos: int, s: Name) {
    |s| < BUFFER_SIZE && 0 !in s && HasBytes(file, pos, s + [0])
  }

  function IdentBytes(cls: Class, enc: Encoding): seq<byte> {
    [0x7f, 69, 76, 70, if cls.Elf32? then 1 else 2, if enc.Lsb? then 1 else 2, 1]
  }

  predicate HasHeader(file: seq<byte>, cls: Class, enc: Encoding, h: Header) {
    && HeaderSize(cls) <= |file| && HasBytes(file, 0, IdentBytes(cls, enc))
    && HasField(file, 0, enc, H_TYPE, h.etype) && HasField(file, 0, enc, H_MACHINE, h.machine)
    && HasField(file, 0, enc, H_VERSION, h.version) && HasField(file, 0, enc, HShoff(cls), h.shoff)
    && HasField(file, 0, enc, HShentsize(cls), h.shentsize) && HasField(file, 0, enc, HShnum(cls), h.shnum)
    && HasField(file, 0, enc, HShstrndx(cls), h.shstrndx)
  }

  predicate HasSection(file: seq<byte>, pos: int, cls: Class, enc: Encoding, s: Section) {
    && 0 <= pos && pos + SectionSize(cls) <= |file|
    && HasField(file, pos, enc, S_NAME, s.name) && HasField(file, pos, enc, S_TYPE, s.stype)
    && HasField(file, pos, enc, SOffset(cls), s.offset) && HasField(file, pos, enc, SSize(cls), s.size)
    && HasField(file, pos, enc, SEntsize(cls), s.entsize)
  }

  predicate HasSymbol(file: seq<byte>, pos: int, cls: Class, enc: Encoding, s: Symbol) {
    && 0 <= pos && pos + SymbolSize(cls) <= |file|
    && HasField(file, pos, enc, Y_NAME, s.name) && HasField(file, pos, enc, YValue(cls), s.value)
    && HasField(file, pos, enc, YSize(cls), s.size) && HasField(file, pos, enc, YShndx(cls), s.shndx)
  }

  function DefinitionBytes(enc: Encoding, d: Definition, target: Name): seq<byte> {
    Padded(d.objectName, 64) + Padded(d.tableName, 40) + Padded(d.description, 32) + Padded(target, 20)
    + Stored(enc, d.objectSize, 4)
  }

  predicate DefinitionFits(d: Definition, target: Name) {
    && |d.objectName| <= 63 && |d.tableName| <= 39 && |d.description| <= 31 && |target| <= 19 && d.objectSize < LIMIT32
    && 0 !in d.objectName && 0 !in d.tableName && 0 !in d.description
  }

  function HeaderFor(e: Elf): Header {
    Header(e.etype, e.machine, 1, e.shoff, e.shentsize, |e.sections|, e.shstrndx)
  }

  function SourceFor(cls: Class, enc: Encoding, e: Elf): Source {
    Source(cls, enc, HeaderFor(e))
  }

  /** The parts of the object fit together, for the class. */
  ghost predicate Consistent(cls: Class, e: Elf, r: Roles) {
    && e.etype <= 4 && |e.sections| == |e.sectionNames| && |e.symbols| == |e.symbolNames| >= 1
    && e.shoff < LIMIT64 / 2 && |e.sections| * e.shentsize < LIMIT31
    && e.shstrndx < |e.sections| && 0 < e.sections[e.shstrndx].offset < LIMIT64 / 2
    && (forall i :: 0 <= i < |e.sections| ==> (e.sections[i].name == 0 <==> e.sectionNames[i].None?))
    && StringsElsewhere(e.sections, e.sectionNames)
    && (LastStrtab(e.sections, e.sectionNames, |e.sections|, r.strings)
        || FirstOther(e.shstrndx, e.sections, e.sectionNames, |e.sections|, r.strings))
    && LastSymtab(e.sections, e.sectionNames, |e.sections|, r.symtab)
    && SymtabFits(cls, e.sections[r.symtab], |e.symbols|)
    && (forall i :: 0 <= i < |e.symbols| ==> e.sections[r.strings].offset + e.symbols[i].name < LIMIT31)
    && LastDef(e.symbolNames, |e.symbolNames|, Some(r.def))
  }

  predicate SymtabFits(cls: Class, s: Section, count: nat) {
    s.entsize == SymbolSize(cls) && s.size == (count + 1) * SymbolSize(cls) && s.offset + s.size < LIMIT31
  }

  function SymbolPos(cls: Class, e: Elf, r: Roles, i: nat): int
    requires r.symtab < |e.sections|
  {
    e.sections[r.symtab].offset + (i + 1) * SymbolSize(cls)
  }

  /** The file holds the object. */
  ghost predicate Holds(file: seq<byte>, cls: Class, enc: Encoding, e: Elf, r: Roles)
    requires Consistent(cls, e, r)
  {
    && HasHeader(file, cls, enc, HeaderFor(e))
    && (forall i :: 0 <= i < |e.sections| ==> HasSection(file, e.shoff + i * e.shentsize, cls, enc, e.sections[i]))
    && (forall i :: 0 <= i < |e.sections| && e.sectionNames[i].Some? ==>
          HasString(file, e.sections[e.shstrndx].offset + e.sections[i].name, e.sectionNames[i].value))
    && (forall i :: 0 <= i < |e.symbols| ==> HasSymbol(file, SymbolPos(cls, e, r, i), cls, enc, e.symbols[i]))
    && (forall i :: 0 <= i < |e.symbols| ==>
          HasString(file, e.sections[r.strings].offset + e.symbols[i].name, e.symbolNames[i]))
  }

  /** The object defines this table: its definition lies where the symbol of the definition says, and its bytes where the
      symbol of the object says, or nowhere if they are all zero and the section is .bss. */
  ghost predicate Defines(file: seq<byte>, enc: Encoding, e: Elf, r: Roles, t: Table, target: Name) {
    && |e.sections| == |e.sectionNames| && |e.symbols| == |e.symbolNames|
    && r.def < |e.symbols| && r.subject < |e.symbols| && |t.data| < LIMIT31 && DefinitionFits(t.def, target)
    && (var d := e.symbols[r.def];
        && (d.size == DEF_SIZE || d.size == 0) && d.shndx < |e.sections|
        && e.sections[d.shndx].offset + d.value < LIMIT32
        && HasBytes(file, e.sections[d.shndx].offset + d.value, DefinitionBytes(enc, t.def, target)))
    && FindObject(e.symbolNames, t.def.objectName, 0) == Some(r.subject)
    && (var o := e.symbols[r.subject];
        && o.shndx < |e.sections| && e.sectionNames[o.shndx].Some?
        && if e.sectionNames[o.shndx].value == BSS_NAME then
             o.size == |t.data| && forall i :: 0 <= i < |t.data| ==> t.data[i] == 0
           else
             && Reconciled(o.size, t.def.objectSize) == |t.data|
             && e.sections[o.shndx].offset + o.value < LIMIT32
             && HasBytes(file, e.sections[o.shndx].offset + o.value, t.data))
  }

  // ---------------------------------------------------------------------------------------------------------------
  // Reading what is there
  // ---------------------------------------------------------------------------------------------------------------

  lemma FieldIsRead(file: seq<byte>, pos: nat, n: nat, enc: Encoding, f: Field, v: nat)
    requires pos + n <= |file| && Inside(f, n) && HasField(file, pos, enc, f, v)
    ensures Get(enc, file[pos..pos + n], f) == v
  {
    hide Value, Stored, Pow256;
    assert At(file[pos..pos + n], f) == file[pos + f.offset..pos + f.offset + f.size];
    ValueOfStored(enc, v, f.size);
  }

  lemma HeaderIsRead(file: seq<byte>, cls: Class, enc: Encoding, h: Header)
    requires HasHeader(file, cls, enc, h)
    ensures HeaderOf(enc, cls, file[0..HeaderSize(cls)]) == h
  {
    hide HasField, Get;
    var n := HeaderSize(cls);
    FieldIsRead(file, 0, n, enc, H_TYPE, h.etype);
    FieldIsRead(file, 0, n, enc, H_MACHINE, h.machine);
    FieldIsRead(file, 0, n, enc, H_VERSION, h.version);
    FieldIsRead(file, 0, n, enc, HShoff(cls), h.shoff);
    FieldIsRead(file, 0, n, enc, HShentsize(cls), h.shentsize);
    FieldIsRead(file, 0, n, enc, HShnum(cls), h.shnum);
    FieldIsRead(file, 0, n, enc, HShstrndx(cls), h.shstrndx);
  }

  lemma SectionIsRead(file: seq<byte>, pos: nat, cls: Class, enc: Encoding, s: Section)
    requires HasSection(file, pos, cls, enc, s)
    ensures SectionOf(enc, cls, file[pos..pos + SectionSize(cls)]) == s
  {
    hide HasField, Get;
    var n := SectionSize(cls);
    FieldIsRead(file, pos, n, enc, S_NAME, s.name);
    FieldIsRead(file, pos, n, enc, S_TYPE, s.stype);
    FieldIsRead(file, pos, n, enc, SOffset(cls), s.offset);
    FieldIsRead(file, pos, n, enc, SSize(cls), s.size);
    FieldIsRead(file, pos, n, enc, SEntsize(cls), s.entsize);
  }

  lemma SymbolIsRead(file: seq<byte>, pos: nat, cls: Class, enc: Encoding, s: Symbol)
    requires HasSymbol(file, pos, cls, enc, s)
    ensures SymbolOf(enc, cls, file[pos..pos + SymbolSize(cls)]) == s
  {
    hide HasField, Get;
    var n := SymbolSize(cls);
    FieldIsRead(file, pos, n, enc, Y_NAME, s.name);
    FieldIsRead(file, pos, n, enc, YValue(cls), s.value);
    FieldIsRead(file, pos, n, enc, YSize(cls), s.size);
    FieldIsRead(file, pos, n, enc, YShndx(cls), s.shndx);
  }

  lemma {:induction false} StringIsRead(file: seq<byte>, pos: nat, s: Name, max: nat)
    requires |s| < max && 0 !in s && HasBytes(file, pos, s + [0])
    ensures CString(file, pos, max) == Some(s)
    decreases |s|
  {
    var b := file[pos..pos + |s| + 1];
    assert b == s + [0];
    assert file[pos] == b[0];
    if s != [] {
      assert b[0] == s[0] && s[0] in s;
      assert file[pos + 1..pos + 1 + |s[1..] + [0]|] == b[1..] == s[1..] + [0];
      StringIsRead(file, pos + 1, s[1..], max - 1);
      assert s == [s[0]] + s[1..];
    }
  }

  lemma IdentIsRead(file: seq<byte>, cls: Class, enc: Encoding)
    requires |file| >= IDENT_SIZE && HasBytes(file, 0, IdentBytes(cls, enc))
    ensures Ident(file) == Ok((cls, enc))
  {
    var b := file[0..7];
    assert forall i :: 0 <= i < 7 ==> file[i] == b[i];
  }

  lemma SourceIsRead(file: seq<byte>, cls: Class, enc: Encoding, e: Elf, r: Roles, machines: StrMap)
    requires Consistent(cls, e, r) && Holds(file, cls, enc, e, r) && Listed(machines, e.machine)
    ensures ReadHeader(file, machines) == Ok(SourceFor(cls, enc, e))
  {
    hide HasField, Ident, HeaderOf, Listed, Get, Consistent;
    ConsistentBasics(cls, e, r);
    IdentIsRead(file, cls, enc);
    HeaderIsRead(file, cls, enc, HeaderFor(e));
  }

  lemma ConsistentBasics(cls: Class, e: Elf, r: Roles)
    requires Consistent(cls, e, r)
    ensures e.etype <= 4 && r.strings < |e.sections| && r.symtab < |e.sections|
  {
  }

  lemma SectionAt(file: seq<byte>, cls: Class, enc: Encoding, e: Elf, r: Roles, i: nat)
    requires Consistent(cls, e, r) && Holds(file, cls, enc, e, r) && i < |e.sections|
    ensures ReadSection(file, SourceFor(cls, enc, e), i) == Ok(e.sections[i])
  {
    hide SectionOf, HasField, HasHeader, HasSymbol, HasString, LastStrtab, FirstOther, LastSymtab, LastDef, StringsElsewhere;
    var pos := e.shoff + i * e.shentsize;
    TimesIsMonotone(i, |e.sections|, e.shentsize);
    assert HasSection(file, pos, cls, enc, e.sections[i]);
    SectionIsRead(file, pos, cls, enc, e.sections[i]);
  }

  lemma SectionNameAt(file: seq<byte>, cls: Class, enc: Encoding, e: Elf, r: Roles, i: nat)
    requires Consistent(cls, e, r) && Holds(file, cls, enc, e, r) && i < |e.sections|
    ensures SectionName(file, Int64(e.sections[e.shstrndx].offset), e.sections[i]) == Ok(e.sectionNames[i])
  {
    hide HasHeader, HasSection, HasSymbol, HasBytes, CString, LastStrtab, FirstOther, LastSymtab, LastDef, StringsElsewhere;
    if e.sectionNames[i].Some? {
      StringIsRead(file, e.sections[e.shstrndx].offset + e.sections[i].name, e.sectionNames[i].value, BUFFER_SIZE);
    }
  }

  function ScanFor(cls: Class, e: Elf): Scan
    requires |e.sections| == |e.sectionNames|
  {
    Scan(e.sections, e.sectionNames, NotedAll(cls, e.shstrndx, e.sections, e.sectionNames, |e.sections|))
  }

  lemma SectionsAreRead(file: seq<byte>, cls: Class, enc: Encoding, e: Elf, r: Roles)
    requires Consistent(cls, e, r) && Holds(file, cls, enc, e, r)
    ensures ScanSections(file, SourceFor(cls, enc, e), Int64(e.sections[e.shstrndx].offset), 0, Scan([], [], NO_TABLES))
            == Ok(ScanFor(cls, e))
  {
    hide Holds, ReadSection, SectionName, NotedAll, LastStrtab, FirstOther, LastSymtab, LastDef, StringsElsewhere;
    var src, names := SourceFor(cls, enc, e), Int64(e.sections[e.shstrndx].offset);
    forall i | 0 <= i < |e.sections|
      ensures ReadSection(file, src, i) == Ok(e.sections[i])
      ensures SectionName(file, names, e.sections[i]) == Ok(e.sectionNames[i])
    {
      SectionAt(file, cls, enc, e, r, i);
      SectionNameAt(file, cls, enc, e, r, i);
    }
    NothingNoted(cls, e);
    ScanFinds(file, src, names, 0, Scan([], [], NO_TABLES), ScanFor(cls, e));
  }

  lemma NothingNoted(cls: Class, e: Elf)
    requires |e.sections| == |e.sectionNames|
    ensures NotedAll(cls, e.shstrndx, e.sections, e.sectionNames, 0) == NO_TABLES
    ensures e.sections[..0] == [] && e.sectionNames[..0] == []
  {
  }

  lemma TablesAreFound(cls: Class, e: Elf, r: Roles)
    requires Consistent(cls, e, r)
    ensures var t := ScanFor(cls, e).tables;
            && t.strings == e.sections[r.strings].offset && t.strings != 0
            && t.symbols == Int32(e.sections[r.symtab].offset + SymbolSize(cls)) && t.entsize == SymbolSize(cls)
            && t.numSymbols == |e.symbols|
  {
    hide NotedAll, Chosen, LastDef;
    var n := |e.sections|;
    StringTableFound(cls, e.shstrndx, e.sections, e.sectionNames, n);
    ChosenIs(e.shstrndx, e.sections, e.sectionNames, n, NotedAll(cls, e.shstrndx, e.sections, e.sectionNames, n).strings,
             r.strings);
    SymbolTableFound(cls, e.shstrndx, e.sections, e.sectionNames, n, r.symtab);
    ProperEntries(cls, e.sections[r.symtab], |e.symbols|, 0);
    SymbolsStayInside(cls, e.sections[r.symtab], NotedAll(cls, e.shstrndx, e.sections, e.sectionNames, n), 0);
    assert IsStrings(e.sections, e.sectionNames, r.strings);
  }

  lemma SymbolAt(file: seq<byte>, cls: Class, enc: Encoding, e: Elf, r: Roles, i: nat)
    requires Consistent(cls, e, r) && Holds(file, cls, enc, e, r) && i < |e.symbols|
    ensures ReadSymbol(file, SourceFor(cls, enc, e), ScanFor(cls, e).tables, i) == Ok(e.symbols[i])
  {
    hide HasHeader, HasSection, HasString, HasField, SymbolOf, NotedAll, LastStrtab, FirstOther, LastSymtab, LastDef, ScanFor;
    hide StringsElsewhere;
    var t := ScanFor(cls, e).tables;
    TablesAreFound(cls, e, r);
    ConsistentBasics(cls, e, r);
    ProperEntries(cls, e.sections[r.symtab], |e.symbols|, i);
    SymbolsStayInside(cls, e.sections[r.symtab], t, i);
    assert HasSymbol(file, SymbolPos(cls, e, r, i), cls, enc, e.symbols[i]);
    SymbolIsRead(file, SymbolPos(cls, e, r, i), cls, enc, e.symbols[i]);
  }

  lemma NameIsRead(file: seq<byte>, t: Tables, s: Symbol, name: Name)
    requires t.strings + s.name < LIMIT31 && HasString(file, t.strings + s.name, name)
    ensures SymbolName(file, t, s) == Ok(name)
  {
    hide CString, HasBytes;
    StringIsRead(file, t.strings + s.name, name, BUFFER_SIZE);
    assert Int32(t.strings + s.name) == t.strings + s.name;
  }

  lemma SymbolNameAt(file: seq<byte>, cls: Class, enc: Encoding, e: Elf, r: Roles, i: nat)
    requires Consistent(cls, e, r) && Holds(file, cls, enc, e, r) && i < |e.symbols|
    ensures SymbolName(file, ScanFor(cls, e).tables, e.symbols[i]) == Ok(e.symbolNames[i])
  {
    hide HasHeader, HasSection, HasSymbol, HasString, HasBytes, CString, NotedAll, LastStrtab, FirstOther, LastSymtab, LastDef;
    hide StringsElsewhere, ScanFor, SymbolName, SymtabFits;
    TablesAreFound(cls, e, r);
    ConsistentBasics(cls, e, r);
    NameIsRead(file, ScanFor(cls, e).tables, e.symbols[i], e.symbolNames[i]);
  }

  function SymbolsFor(e: Elf, r: Roles): Symbols {
    Symbols(e.symbols, e.symbolNames, Some(r.def))
  }

  lemma SymbolsAreRead(file: seq<byte>, cls: Class, enc: Encoding, e: Elf, r: Roles)
    requires Consistent(cls, e, r) && Holds(file, cls, enc, e, r)
    ensures ScanSymbols(file, SourceFor(cls, enc, e), ScanFor(cls, e).tables, 0, Symbols([], [], None))
            == Ok(SymbolsFor(e, r))
  {
    hide Holds, ReadSymbol, SymbolName, ScanFor, LastStrtab, FirstOther, LastSymtab, StringsElsewhere, IsDefName;
    var src, t := SourceFor(cls, enc, e), ScanFor(cls, e).tables;
    TablesAreFound(cls, e, r);
    forall i | 0 <= i < |e.symbols|
      ensures ReadSymbol(file, src, t, i) == Ok(e.symbols[i])
      ensures SymbolName(file, t, e.symbols[i]) == Ok(e.symbolNames[i])
    {
      SymbolAt(file, cls, enc, e, r, i);
      SymbolNameAt(file, cls, enc, e, r, i);
    }
    assert e.symbols[..0] == [] && e.symbolNames[..0] == [];
    SymbolScanFinds(file, src, t, 0, Symbols([], [], None), SymbolsFor(e, r));
  }

  // ---------------------------------------------------------------------------------------------------------------
  // The definition and the data
  // ---------------------------------------------------------------------------------------------------------------

  lemma {:induction false} ToNulOfPadded(s: Name, zeros: seq<byte>)
    requires 0 !in s && forall i :: 0 <= i < |zeros| ==> zeros[i] == 0
    ensures ToNul(s + zeros) == s
    decreases |s|
  {
    if s == [] {
      assert s + zeros == zeros;
    } else {
      assert s[0] in s;
      assert (s + zeros)[1..] == s[1..] + zeros;
      ToNulOfPadded(s[1..], zeros);
    }
  }

  /** All but the last byte of a padded name. */
  lemma PaddedIsRead(s: Name, n: nat, b: seq<byte>)
    requires |s| < n && 0 !in s && b == Padded(s, n)[..n - 1]
    ensures ToNul(b) == s
  {
    var zeros := seq<byte>(n - 1 - |s|, _ => 0);
    assert b == s + zeros;
    ToNulOfPadded(s, zeros);
  }

  lemma DefinitionIsRead(enc: Encoding, d: Definition, target: Name)
    requires DefinitionFits(d, target)
    ensures |DefinitionBytes(enc, d, target)| == DEF_SIZE && DefinitionOf(enc, DefinitionBytes(enc, d, target)) == d
  {
    hide Padded, ToNul, Stored, Value;
    var image := DefinitionBytes(enc, d, target);
    var a, b, c, t, o := Padded(d.objectName, 64), Padded(d.tableName, 40), Padded(d.description, 32), Padded(target, 20),
                         Stored(enc, d.objectSize, 4);
    assert image == a + b + c + t + o;
    assert image[..63] == a[..63];
    assert image[64..103] == b[..39];
    assert image[104..135] == c[..31];
    assert image[156..160] == o;
    PaddedIsRead(d.objectName, 64, image[..63]);
    PaddedIsRead(d.tableName, 40, image[64..103]);
    PaddedIsRead(d.description, 32, image[104..135]);
    PowValues();
    ValueOfStored(enc, d.objectSize, 4);
  }

  lemma DefinitionIsFound(file: seq<byte>, cls: Class, enc: Encoding, e: Elf, r: Roles, t: Table, target: Name)
    requires Defines(file, enc, e, r, t, target)
    ensures ReadDefinition(file, SourceFor(cls, enc, e), e.sections, e.symbols[r.def]) == Ok(t.def)
  {
    hide DefinitionOf, DefinitionBytes, FindObject;
    DefinitionIsRead(enc, t.def, target);
  }

  lemma DataIsRead(file: seq<byte>, l: Located, data: seq<byte>)
    requires l.size == |data|
    requires if l.zeros then forall i :: 0 <= i < |data| ==> data[i] == 0 else HasBytes(file, l.offset, data)
    ensures ObjectData(file, l) == data
  {
    forall i | 0 <= i < |data|
      ensures DataByte(file, l, i) == data[i]
    {
      if !l.zeros {
        assert file[l.offset..l.offset + |data|][i] == file[l.offset + i];
      }
    }
  }

  /** What the definition of the table says about its object. */
  lemma SubjectIs(file: seq<byte>, enc: Encoding, e: Elf, r: Roles, t: Table, target: Name)
    requires Defines(file, enc, e, r, t, target)
    ensures |e.sections| == |e.sectionNames| && |e.symbols| == |e.symbolNames| && r.subject < |e.symbols|
    ensures FindObject(e.symbolNames, t.def.objectName, 0) == Some(r.subject)
    ensures var o := e.symbols[r.subject];
            && o.shndx < |e.sections| && e.sectionNames[o.shndx].Some?
            && if e.sectionNames[o.shndx].value == BSS_NAME then
                 o.size == |t.data| && forall i :: 0 <= i < |t.data| ==> t.data[i] == 0
               else
                 && Reconciled(o.size, t.def.objectSize) == |t.data|
                 && e.sections[o.shndx].offset + o.value < LIMIT32
                 && HasBytes(file, e.sections[o.shndx].offset + o.value, t.data)
  {
    hide FindObject, DefinitionFits, DefinitionBytes, HasBytes, Reconciled;
  }

  lemma ObjectIsFound(file: seq<byte>, cls: Class, enc: Encoding, e: Elf, r: Roles, t: Table, target: Name)
    requires Defines(file, enc, e, r, t, target)
    ensures var l := Locate(ScanFor(cls, e), SymbolsFor(e, r), t.def);
            && l.Ok? && l.value.size == |t.data| && ObjectData(file, l.value) == t.data
  {
    hide Defines, FindObject, NotedAll, HasBytes, Reconciled, ObjectData;
    SubjectIs(file, enc, e, r, t, target);
    var o := e.symbols[r.subject];
    DataIsRead(file, if e.sectionNames[o.shndx].value == BSS_NAME then Located(true, 0, |t.data|)
                     else Located(false, e.sections[o.shndx].offset + o.value, |t.data|), t.data);
  }

  /**
   Meaning is preserved: whatever the class, the byte order and the places of its parts, an object that defines a table becomes
   the file with the headers of that table, most significant byte first, followed by exactly its bytes.
   */
  lemma TranslationIsFaithful(file: seq<byte>, opts: Settings, cls: Class, enc: Encoding, e: Elf, r: Roles, t: Table,
                              target: Name)
    requires Consistent(cls, e, r) && Holds(file, cls, enc, e, r) && Defines(file, enc, e, r, t, target)
    requires Listed(opts.machines, e.machine)
    ensures Translate(file, opts) == Ok(TableFile(opts, t.def, t.data))
  {
    hide Holds, Defines, ReadHeader, ScanSections, ScanSymbols, ReadDefinition, Locate, ReadSection, ScanFor, ObjectData;
    hide TableFile, Listed, LastStrtab, FirstOther, LastSymtab, LastDef, StringsElsewhere;
    SourceIsRead(file, cls, enc, e, r, opts.machines);
    SectionAt(file, cls, enc, e, r, e.shstrndx);
    SectionsAreRead(file, cls, enc, e, r);
    TablesAreFound(cls, e, r);
    SymbolsAreRead(file, cls, enc, e, r);
    ScanForIs(cls, e);
    DefinitionIsFound(file, cls, enc, e, r, t, target);
    ObjectIsFound(file, cls, enc, e, r, t, target);
    DefinesSmall(file, enc, e, r, t, target);
  }

  lemma ScanForIs(cls: Class, e: Elf)
    requires |e.sections| == |e.sectionNames|
    ensures ScanFor(cls, e).sections == e.sections
  {
  }

  lemma DefinesSmall(file: seq<byte>, enc: Encoding, e: Elf, r: Roles, t: Table, target: Name)
    requires Defines(file, enc, e, r, t, target)
    ensures |t.data| < LIMIT31 && r.def < |e.symbols|
  {
  }

  /** Two files of different class, byte order and layout that define the same table give the same output. */
  lemma ClassAndByteOrderDoNotMatter(f1: seq<byte>, cls1: Class, enc1: Encoding, e1: Elf, r1: Roles,
                                     f2: seq<byte>, cls2: Class, enc2: Encoding, e2: Elf, r2: Roles,
                                     opts: Settings, t: Table, target: Name)
    requires Consistent(cls1, e1, r1) && Holds(f1, cls1, enc1, e1, r1) && Defines(f1, enc1, e1, r1, t, target)
    requires Consistent(cls2, e2, r2) && Holds(f2, cls2, enc2, e2, r2) && Defines(f2, enc2, e2, r2, t, target)
    requires Listed(opts.machines, e1.machine) && Listed(opts.machines, e2.machine)
    ensures Translate(f1, opts) == Translate(f2, opts)
  {
    hide Holds, Defines, Translate, Consistent, Listed, TableFile;
    TranslationIsFaithful(f1, opts, cls1, enc1, e1, r1, t, target);
    TranslationIsFaithful(f2, opts, cls2, enc2, e2, r2, t, target);
  }
}
