/**
 What the scans of `elf2cfetbl.c` find (`ElfSpec`): which string table, which symbols, which definition and which object.
 */
module ElfTheory {
  import opened Bytes
  import opened Options
  import opened ElfLayout
  import opened ElfSpec

  // ---------------------------------------------------------------------------------------------------------------
  // The section loop
  // ---------------------------------------------------------------------------------------------------------------

  /** The tables noted from the first n sections. */
  function NotedAll(cls: Class, shstrndx: nat, sections: seq<Section>, names: seq<Option<Name>>, n: nat): Tables
    requires n <= |sections| == |names|
  {
    if n == 0 then NO_TABLES
    else Noted(cls, shstrndx, n - 1, sections[n - 1], names[n - 1], NotedAll(cls, shstrndx, sections, names, n - 1))
  }

  lemma {:induction false} NotedAllPrefix(cls: Class, shstrndx: nat, sections: seq<Section>, names: seq<Option<Name>>, s: Section,
                                          name: Option<Name>, n: nat)
    requires n <= |sections| == |names|
    ensures NotedAll(cls, shstrndx, sections + [s], names + [name], n) == NotedAll(cls, shstrndx, sections, names, n)
  {
    hide Noted;
    if n > 0 {
      NotedAllPrefix(cls, shstrndx, sections, names, s, name, n - 1);
    }
  }

  /** Every section is read and named in turn. */
  ghost predicate Scanned(file: seq<byte>, src: Source, names: int, n: nat, scan: Scan) {
    && |scan.sections| == |scan.names| == n
    && (forall i :: 0 <= i < n ==> ReadSection(file, src, i) == Ok(scan.sections[i]))
    && (forall i :: 0 <= i < n ==> SectionName(file, names, scan.sections[i]) == Ok(scan.names[i]))
    && scan.tables == NotedAll(src.cls, src.header.shstrndx, scan.sections, scan.names, n)
  }

  lemma ScanOneGives(file: seq<byte>, src: Source, names: int, i: nat, scan: Scan, next: Scan)
    requires Scanned(file, src, names, i, scan) && ScanOne(file, src, names, i, scan) == Ok(next)
    ensures Scanned(file, src, names, i + 1, next)
  {
    hide ReadSection, SectionName, Noted;
    NotedAllPrefix(src.cls, src.header.shstrndx, scan.sections, scan.names, next.sections[i], next.names[i], i);
  }

  lemma {:induction false} ScanGives(file: seq<byte>, src: Source, names: int, i: nat, scan: Scan)
    requires i <= src.header.shnum && Scanned(file, src, names, i, scan)
    ensures var r := ScanSections(file, src, names, i, scan);
            r.Ok? ==> Scanned(file, src, names, src.header.shnum, r.value)
    decreases src.header.shnum - i
  {
    hide ScanOne, Scanned;
    if i < src.header.shnum && ScanOne(file, src, names, i, scan).Ok? {
      var next := ScanOne(file, src, names, i, scan).value;
      ScanOneGives(file, src, names, i, scan, next);
      ScanGives(file, src, names, i + 1, next);
    }
  }

  /** A list in which every section can be read and named is what the loop finds. */
  lemma {:induction false} ScanFinds(file: seq<byte>, src: Source, names: int, i: nat, scan: Scan, whole: Scan)
    requires i <= src.header.shnum && Scanned(file, src, names, src.header.shnum, whole)
    requires scan == Scan(whole.sections[..i], whole.names[..i],
                          NotedAll(src.cls, src.header.shstrndx, whole.sections, whole.names, i))
    ensures ScanSections(file, src, names, i, scan) == Ok(whole)
    decreases src.header.shnum - i
  {
    hide ReadSection, SectionName, Noted;
    var n := src.header.shnum;
    if i < n {
      var next := Scan(whole.sections[..i + 1], whole.names[..i + 1],
                       NotedAll(src.cls, src.header.shstrndx, whole.sections, whole.names, i + 1));
      assert ReadSection(file, src, i) == Ok(whole.sections[i]);
      assert SectionName(file, names, whole.sections[i]) == Ok(whole.names[i]);
      assert whole.sections[..i + 1] == whole.sections[..i] + [whole.sections[i]];
      assert whole.names[..i + 1] == whole.names[..i] + [whole.names[i]];
      assert ScanOne(file, src, names, i, scan) == Ok(next);
      ScanFinds(file, src, names, i + 1, next, whole);
    } else {
      assert whole.sections[..n] == whole.sections && whole.names[..n] == whole.names;
    }
  }

  // ---------------------------------------------------------------------------------------------------------------
  // The string table
  // ---------------------------------------------------------------------------------------------------------------

  /** A string table that the loop looks at: sections without a name are skipped. */
  predicate IsStrings(sections: seq<Section>, names: seq<Option<Name>>, i: nat)
    requires |sections| == |names|
  {
    i < |sections| && names[i].Some? && sections[i].stype == SHT_STRTAB
  }

  predicate IsStrtab(sections: seq<Section>, names: seq<Option<Name>>, i: nat)
    requires |sections| == |names|
  {
    IsStrings(sections, names, i) && names[i] == Some(STRTAB_NAME)
  }

  /** Section k is the last string table called .strtab among the first n sections. */
  ghost predicate LastStrtab(sections: seq<Section>, names: seq<Option<Name>>, n: nat, k: nat)
    requires |sections| == |names|
  {
    k < n && IsStrtab(sections, names, k) && forall j :: k < j < n ==> !IsStrtab(sections, names, j)
  }

  /** There is none of that name, and section k is the first string table other than the one of the section names. */
  ghost predicate FirstOther(shstrndx: nat, sections: seq<Section>, names: seq<Option<Name>>, n: nat, k: nat)
    requires |sections| == |names|
  {
    && (forall j :: 0 <= j < n ==> !IsStrtab(sections, names, j))
    && k < n && IsStrings(sections, names, k) && k != shstrndx
    && forall j :: 0 <= j < k ==> !IsStrings(sections, names, j) || j == shstrndx
  }

  ghost predicate NoStrings(shstrndx: nat, sections: seq<Section>, names: seq<Option<Name>>, n: nat)
    requires |sections| == |names|
  {
    forall j :: 0 <= j < n ==> !IsStrtab(sections, names, j) && (!IsStrings(sections, names, j) || j == shstrndx)
  }

  ghost predicate Chosen(shstrndx: nat, sections: seq<Section>, names: seq<Option<Name>>, n: nat, offset: nat)
    requires n <= |sections| == |names|
  {
    || (exists k: nat :: LastStrtab(sections, names, n, k) && offset == sections[k].offset)
    || (exists k: nat :: FirstOther(shstrndx, sections, names, n, k) && offset == sections[k].offset)
    || (NoStrings(shstrndx, sections, names, n) && offset == 0)
  }

  /** Offsets of string tables are not 0, which is where the header is. */
  ghost predicate StringsElsewhere(sections: seq<Section>, names: seq<Option<Name>>)
    requires |sections| == |names|
  {
    forall j: nat :: IsStrings(sections, names, j) ==> sections[j].offset != 0
  }

  lemma ChosenStep(cls: Class, shstrndx: nat, sections: seq<Section>, names: seq<Option<Name>>, n: nat, t: Tables)
    requires n < |sections| == |names| && StringsElsewhere(sections, names)
    requires Chosen(shstrndx, sections, names, n, t.strings)
    ensures Chosen(shstrndx, sections, names, n + 1, Noted(cls, shstrndx, n, sections[n], names[n], t).strings)
  {
    if IsStrtab(sections, names, n) {
      assert LastStrtab(sections, names, n + 1, n);
    } else if k: nat :| LastStrtab(sections, names, n, k) && t.strings == sections[k].offset {
      assert LastStrtab(sections, names, n + 1, k) && t.strings != 0;
    } else if k: nat :| FirstOther(shstrndx, sections, names, n, k) && t.strings == sections[k].offset {
      assert FirstOther(shstrndx, sections, names, n + 1, k) && t.strings != 0;
    } else if IsStrings(sections, names, n) && n != shstrndx {
      assert FirstOther(shstrndx, sections, names, n + 1, n);
    } else {
      assert NoStrings(shstrndx, sections, names, n + 1);
    }
  }

  /** The section loop ends with the last string table called .strtab if there is one, otherwise with the first other than the
      table of section names, otherwise with none. */
  lemma {:induction false} StringTableFound(cls: Class, shstrndx: nat, sections: seq<Section>, names: seq<Option<Name>>, n: nat)
    requires n <= |sections| == |names| && StringsElsewhere(sections, names)
    ensures Chosen(shstrndx, sections, names, n, NotedAll(cls, shstrndx, sections, names, n).strings)
  {
    hide Noted, Chosen, StringsElsewhere;
    if n == 0 {
      NothingChosen(shstrndx, sections, names);
    } else {
      StringTableFound(cls, shstrndx, sections, names, n - 1);
      ChosenStep(cls, shstrndx, sections, names, n - 1, NotedAll(cls, shstrndx, sections, names, n - 1));
    }
  }

  lemma NothingChosen(shstrndx: nat, sections: seq<Section>, names: seq<Option<Name>>)
    requires |sections| == |names|
    ensures Chosen(shstrndx, sections, names, 0, 0)
  {
    assert NoStrings(shstrndx, sections, names, 0);
  }

  /** The three cases exclude each other, and each determines its section. */
  lemma ChosenIs(shstrndx: nat, sections: seq<Section>, names: seq<Option<Name>>, n: nat, offset: nat, k: nat)
    requires n <= |sections| == |names| && Chosen(shstrndx, sections, names, n, offset)
    requires LastStrtab(sections, names, n, k) || FirstOther(shstrndx, sections, names, n, k)
    ensures offset == sections[k].offset
  {
    if j: nat :| LastStrtab(sections, names, n, j) && offset == sections[j].offset {
      assert LastStrtab(sections, names, n, k) ==> j == k;
    } else if j: nat :| FirstOther(shstrndx, sections, names, n, j) && offset == sections[j].offset {
      assert FirstOther(shstrndx, sections, names, n, k) ==> j == k;
    }
  }

  // ---------------------------------------------------------------------------------------------------------------
  // The symbol table
  // ---------------------------------------------------------------------------------------------------------------

  predicate IsSymtab(sections: seq<Section>, names: seq<Option<Name>>, i: nat)
    requires |sections| == |names|
  {
    i < |sections| && names[i].Some? && sections[i].stype == SHT_SYMTAB
  }

  ghost predicate LastSymtab(sections: seq<Section>, names: seq<Option<Name>>, n: nat, k: nat)
    requires |sections| == |names|
  {
    k < n && IsSymtab(sections, names, k) && forall j :: k < j < n ==> !IsSymtab(sections, names, j)
  }

  /** The section loop ends with the last symbol table, and with the number of its entries less one. */
  lemma {:induction false} SymbolTableFound(cls: Class, shstrndx: nat, sections: seq<Section>, names: seq<Option<Name>>, n: nat,
                                            k: nat)
    requires n <= |sections| == |names| && LastSymtab(sections, names, n, k)
    ensures var t := NotedAll(cls, shstrndx, sections, names, n);
            && t.symbols == Int32(sections[k].offset + SymbolSize(cls)) && t.entsize == sections[k].entsize
            && t.numSymbols == if t.entsize == 0 then 0 else sections[k].size / t.entsize - 1
    decreases n
  {
    if k < n - 1 {
      SymbolTableFound(cls, shstrndx, sections, names, n - 1, k);
      assert !IsSymtab(sections, names, n - 1);
    }
  }

  lemma TimesIsMonotone(a: nat, b: nat, c: nat)
    requires a <= b
    ensures a * c <= b * c
  {
  }

  lemma ExactDivision(count: nat, unit: nat)
    requires unit > 0
    ensures (count * unit) / unit == count
  {
    ModUnique(count * unit, unit, count, 0);
  }

  /** Where the loop reads symbol i of a table, behind the first one, which stands for no symbol. */
  function SymbolStart(cls: Class, s: Section, i: nat): nat {
    s.offset + SymbolSize(cls) + i * s.entsize
  }

  /** How many symbols the loop reads from a table. */
  function SymbolCount(s: Section): int {
    if s.entsize == 0 then 0 else s.size / s.entsize - 1
  }

  lemma LastSymbolEnds(cls: Class, s: Section, i: nat)
    requires s.entsize > 0 && i < SymbolCount(s)
    ensures SymbolStart(cls, s, i) <= SymbolStart(cls, s, s.size / s.entsize - 2)
    ensures s.entsize >= SymbolSize(cls) ==> SymbolStart(cls, s, i) + SymbolSize(cls) <= s.offset + s.size
  {
    var q := s.size / s.entsize;
    TimesIsMonotone(i, q - 2, s.entsize);
    assert q * s.entsize <= s.size;
    assert (q - 2) * s.entsize == q * s.entsize - 2 * s.entsize;
  }

  /** Exactly when all symbols that the loop reads lie inside the table: always if its entries are at least as long as a symbol,
      otherwise only if the bytes behind its last whole entry make up for it. */
  lemma SymbolsInsideIff(cls: Class, s: Section)
    requires s.entsize > 0 && SymbolCount(s) > 0
    ensures (forall i: nat :: i < SymbolCount(s) ==> SymbolStart(cls, s, i) + SymbolSize(cls) <= s.offset + s.size)
            <==> s.entsize >= SymbolSize(cls) || 2 * SymbolSize(cls) + (s.size / s.entsize - 2) * s.entsize <= s.size
  {
    var last := s.size / s.entsize - 2;
    forall i: nat | i < SymbolCount(s)
      ensures SymbolStart(cls, s, i) <= SymbolStart(cls, s, last)
      ensures s.entsize >= SymbolSize(cls) ==> SymbolStart(cls, s, i) + SymbolSize(cls) <= s.offset + s.size
    {
      LastSymbolEnds(cls, s, i);
    }
  }

  /** A table with entries of half a symbol is read beyond its end. */
  lemma ShortEntriesReadBeyond(offset: nat)
    ensures var s := Section(1, SHT_SYMTAB, offset, 24, 8);
            SymbolCount(s) == 2 && SymbolStart(Elf32, s, 1) == s.offset + s.size
  {
  }

  /** With entries at least as long as a symbol, below 2^31, the loop reads each symbol where it should: the first one is skipped,
      and nothing behind the table is read. */
  lemma SymbolsStayInside(cls: Class, s: Section, t: Tables, i: nat)
    requires SymbolSize(cls) <= s.entsize && s.offset + s.size < LIMIT31 && i < SymbolCount(s)
    requires t.symbols == Int32(s.offset + SymbolSize(cls)) && t.entsize == s.entsize
    ensures var pos := (t.symbols + i * t.entsize) % LIMIT64;
            && pos == SymbolStart(cls, s, i) && s.offset + SymbolSize(cls) <= pos
            && pos + SymbolSize(cls) <= s.offset + s.size && pos < LIMIT31
  {
    LastSymbolEnds(cls, s, i);
    var skipped := i * s.entsize;
    assert t.symbols == s.offset + SymbolSize(cls);
    assert t.symbols + i * t.entsize == s.offset + SymbolSize(cls) + skipped == SymbolStart(cls, s, i) < LIMIT31;
  }

  /** In a table of count + 1 entries of the proper size, symbol i is entry i + 1. */
  lemma ProperEntries(cls: Class, s: Section, count: nat, i: nat)
    requires s.entsize == SymbolSize(cls) && s.size == (count + 1) * SymbolSize(cls)
    ensures SymbolCount(s) == count && SymbolStart(cls, s, i) == s.offset + (i + 1) * SymbolSize(cls)
  {
    var u := SymbolSize(cls);
    ExactDivision(count + 1, u);
    assert (i + 1) * u == i * u + u;
  }

  /** What a completed section loop has found. */
  lemma SectionScanResult(file: seq<byte>, src: Source, names: int, scan: Scan)
    requires ScanSections(file, src, names, 0, Scan([], [], NO_TABLES)) == Ok(scan)
    ensures Scanned(file, src, names, src.header.shnum, scan)
    ensures StringsElsewhere(scan.sections, scan.names) ==>
              Chosen(src.header.shstrndx, scan.sections, scan.names, src.header.shnum, scan.tables.strings)
    ensures forall k: nat :: LastSymtab(scan.sections, scan.names, src.header.shnum, k) ==>
              && scan.tables.symbols == Int32(scan.sections[k].offset + SymbolSize(src.cls))
              && scan.tables.entsize == scan.sections[k].entsize
              && scan.tables.numSymbols == SymbolCount(scan.sections[k])
  {
    hide ReadSection, SectionName, Noted, Chosen, StringsElsewhere, LastSymtab;
    var n := src.header.shnum;
    ScanGives(file, src, names, 0, Scan([], [], NO_TABLES));
    if StringsElsewhere(scan.sections, scan.names) {
      StringTableFound(src.cls, src.header.shstrndx, scan.sections, scan.names, n);
    }
    forall k: nat | LastSymtab(scan.sections, scan.names, n, k)
      ensures k < |scan.sections|
      ensures var t := scan.tables;
              && t.symbols == Int32(scan.sections[k].offset + SymbolSize(src.cls)) && t.entsize == scan.sections[k].entsize
              && t.numSymbols == SymbolCount(scan.sections[k])
    {
      LastIsInside(scan.sections, scan.names, n, k);
      SymbolTableFound(src.cls, src.header.shstrndx, scan.sections, scan.names, n, k);
    }
  }

  lemma LastIsInside(sections: seq<Section>, names: seq<Option<Name>>, n: nat, k: nat)
    requires |sections| == |names| && LastSymtab(sections, names, n, k)
    ensures k < |sections|
  {
  }

  // ---------------------------------------------------------------------------------------------------------------
  // The symbol loop
  // ---------------------------------------------------------------------------------------------------------------

  /** The greatest index below n of a name that counts as the definition's. */
  ghost predicate LastDef(names: seq<Name>, n: nat, def: Option<nat>)
    requires n <= |names|
  {
    match def
    case None => forall j :: 0 <= j < n ==> !IsDefName(names[j])
    case Some(k) => k < n && IsDefName(names[k]) && forall j :: k < j < n ==> !IsDefName(names[j])
  }

  ghost predicate SymbolsScanned(file: seq<byte>, src: Source, t: Tables, n: nat, acc: Symbols) {
    && |acc.entries| == |acc.names| == n
    && (forall i :: 0 <= i < n ==> ReadSymbol(file, src, t, i) == Ok(acc.entries[i]))
    && (forall i :: 0 <= i < n ==> SymbolName(file, t, acc.entries[i]) == Ok(acc.names[i]))
    && LastDef(acc.names, n, acc.def)
  }

  lemma LastDefNext(names: seq<Name>, def: Option<nat>, name: Name)
    requires LastDef(names, |names|, def)
    ensures LastDef(names + [name], |names| + 1, if IsDefName(name) then Some(|names|) else def)
  {
    hide IsDefName;
    var all := names + [name];
    assert forall j :: 0 <= j < |names| ==> all[j] == names[j];
    if def.Some? && !IsDefName(name) {
      assert all[def.value] == names[def.value];
    }
  }

  lemma ScanSymbolGives(file: seq<byte>, src: Source, t: Tables, i: nat, acc: Symbols, next: Symbols)
    requires acc.Ok() && SymbolsScanned(file, src, t, i, acc) && ScanSymbol(file, src, t, i, acc) == Ok(next)
    ensures SymbolsScanned(file, src, t, i + 1, next)
  {
    hide ReadSymbol, SymbolName, IsDefName, LastDef;
    LastDefNext(acc.names, acc.def, next.names[i]);
  }

  /** The symbol loop reads and names every symbol, and remembers the last one that looks like the definition. */
  lemma {:induction false} SymbolScanGives(file: seq<byte>, src: Source, t: Tables, i: nat, acc: Symbols)
    requires acc.Ok() && i <= t.numSymbols && SymbolsScanned(file, src, t, i, acc)
    ensures var r := ScanSymbols(file, src, t, i, acc);
            r.Ok? ==> SymbolsScanned(file, src, t, t.numSymbols, r.value)
    decreases t.numSymbols - i
  {
    hide ScanSymbol, LastDef, ReadSymbol, SymbolName;
    if i < t.numSymbols && ScanSymbol(file, src, t, i, acc).Ok? {
      var next := ScanSymbol(file, src, t, i, acc).value;
      ScanSymbolGives(file, src, t, i, acc, next);
      SymbolScanGives(file, src, t, i + 1, next);
    }
  }

  /** What a completed symbol loop has found. */
  lemma SymbolScanResult(file: seq<byte>, src: Source, t: Tables, symbols: Symbols)
    requires 0 <= t.numSymbols && ScanSymbols(file, src, t, 0, Symbols([], [], None)) == Ok(symbols)
    ensures SymbolsScanned(file, src, t, t.numSymbols, symbols)
  {
    SymbolScanGives(file, src, t, 0, Symbols([], [], None));
  }

  lemma LastDefIsUnique(names: seq<Name>, n: nat, a: Option<nat>, b: Option<nat>)
    requires n <= |names| && LastDef(names, n, a) && LastDef(names, n, b)
    ensures a == b
  {
    hide IsDefName;
  }

  /** The part of a scan that is done after i symbols. */
  lemma {:induction false} SymbolScanFinds(file: seq<byte>, src: Source, t: Tables, i: nat, acc: Symbols, whole: Symbols)
    requires acc.Ok() && i <= t.numSymbols && SymbolsScanned(file, src, t, t.numSymbols, whole)
    requires SymbolsScanned(file, src, t, i, acc) && acc.entries == whole.entries[..i] && acc.names == whole.names[..i]
    ensures ScanSymbols(file, src, t, i, acc) == Ok(whole)
    decreases t.numSymbols - i
  {
    hide ReadSymbol, SymbolName, IsDefName, LastDef;
    var n := t.numSymbols;
    if i < n {
      assert ReadSymbol(file, src, t, i) == Ok(whole.entries[i]);
      assert SymbolName(file, t, whole.entries[i]) == Ok(whole.names[i]);
      var next := ScanSymbol(file, src, t, i, acc).value;
      ScanSymbolGives(file, src, t, i, acc, next);
      assert whole.entries[..i + 1] == whole.entries[..i] + [whole.entries[i]];
      assert whole.names[..i + 1] == whole.names[..i] + [whole.names[i]];
      SymbolScanFinds(file, src, t, i + 1, next, whole);
    } else {
      assert whole.entries[..n] == whole.entries && whole.names[..n] == whole.names;
      LastDefIsUnique(whole.names, n, acc.def, whole.def);
    }
  }

  // ---------------------------------------------------------------------------------------------------------------
  // The object
  // ---------------------------------------------------------------------------------------------------------------

  /** Any one character after the name of the object is accepted, printable or not, as well as none, and nothing else. */
  lemma ObjectNamesAre(name: Name, wanted: Name)
    ensures IsObjectName(name, wanted) <==> name == wanted || exists c: byte :: name == wanted + [c]
  {
    if IsObjectName(name, wanted) && name != wanted {
      assert name == wanted + [name[|wanted|]];
    }
  }

  /** The search ends at index k exactly if that name matches and no earlier one does. */
  lemma FoundIff(names: seq<Name>, wanted: Name, k: nat)
    ensures FindObject(names, wanted, 0) == Some(k)
            <==> k < |names| && IsObjectName(names[k], wanted) && forall j :: 0 <= j < k ==> !IsObjectName(names[j], wanted)
  {
    hide IsObjectName;
    var r := FindObject(names, wanted, 0);
  }

  function Min(a: nat, b: nat): nat {
    if a < b then a else b
  }

  /** What is emitted for an object outside .bss: the size in the definition if the symbol has none, else the smaller of the
      two; inside .bss always the size of the symbol. */
  lemma SizeEmitted(scan: Scan, symbols: Symbols, def: Definition)
    requires symbols.Ok() && Locate(scan, symbols, def).Ok?
    ensures var l, k := Locate(scan, symbols, def).value, FindObject(symbols.names, def.objectName, 0).value;
            var s := symbols.entries[k];
            && l.zeros == (scan.names[s.shndx].value == BSS_NAME)
            && (l.zeros ==> l.size == s.size)
            && (!l.zeros ==> l.size == Min(if s.size == 0 then def.objectSize else s.size, def.objectSize))
  {
    hide IsObjectName, DataOffset;
  }
}
