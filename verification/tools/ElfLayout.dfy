/**
 The layout of ELF structures (`ELF_Structures.h`; chapter 4 of the System V gABI) and the byte swapping of `elf2cfetbl.c`: on a
 host of either byte order, swapping the fields of a structure exactly when host and file differ makes the host read the
 values that the file holds.
 */
module ElfLayout {
  import opened Bytes

  datatype Class = Elf32 | Elf64

  /** A byte order: of a file, or of the host. */
  datatype Encoding = Lsb | Msb

  datatype Field = Field(offset: nat, size: nat)

  /** The integer in b, as a machine or file of this byte order has it. */
  function Value(enc: Encoding, b: seq<byte>): (v: nat)
    ensures v < Pow256(|b|)
  {
    if enc.Lsb? then LittleEndian(b) else BigEndian(b)
  }

  function Stored(enc: Encoding, v: nat, n: nat): (b: seq<byte>)
    ensures |b| == n
  {
    if enc.Lsb? then ToLittleEndian(v, n) else ToBigEndian(v, n)
  }

  lemma ValueOfStored(enc: Encoding, v: nat, n: nat)
    requires v < Pow256(n)
    ensures Value(enc, Stored(enc, v, n)) == v
  {
    BigEndianExact(v, n);
    ReversedTwice(ToBigEndian(v, n));
  }

  /** Two byte orders that differ see the same value in reversed bytes. */
  lemma ReversedValue(host: Encoding, enc: Encoding, b: seq<byte>)
    requires host != enc
    ensures Value(host, Reversed(b)) == Value(enc, b)
  {
    ReversedTwice(b);
  }

  // ---------------------------------------------------------------------------------------------------------------
  // Structures
  // ---------------------------------------------------------------------------------------------------------------

  /** The size of addresses, offsets and, except in the header, sizes. */
  function Addr(cls: Class): nat {
    if cls.Elf32? then 4 else 8
  }

  const IDENT_SIZE: nat := 16

  function HeaderSize(cls: Class): nat { 40 + 3 * Addr(cls) }

  function SectionSize(cls: Class): nat { 16 + 6 * Addr(cls) }

  function SymbolSize(cls: Class): nat { 8 + 2 * Addr(cls) }

  const H_TYPE := Field(16, 2)
  const H_MACHINE := Field(18, 2)
  const H_VERSION := Field(20, 4)
  function HEntry(cls: Class): Field { Field(24, Addr(cls)) }
  function HPhoff(cls: Class): Field { Field(24 + Addr(cls), Addr(cls)) }
  function HShoff(cls: Class): Field { Field(24 + 2 * Addr(cls), Addr(cls)) }
  function HFlags(cls: Class): Field { Field(24 + 3 * Addr(cls), 4) }
  function HEhsize(cls: Class): Field { Field(28 + 3 * Addr(cls), 2) }
  function HPhentsize(cls: Class): Field { Field(30 + 3 * Addr(cls), 2) }
  function HPhnum(cls: Class): Field { Field(32 + 3 * Addr(cls), 2) }
  function HShentsize(cls: Class): Field { Field(34 + 3 * Addr(cls), 2) }
  function HShnum(cls: Class): Field { Field(36 + 3 * Addr(cls), 2) }
  function HShstrndx(cls: Class): Field { Field(38 + 3 * Addr(cls), 2) }

  const S_NAME := Field(0, 4)
  const S_TYPE := Field(4, 4)
  function SFlags(cls: Class): Field { Field(8, Addr(cls)) }
  function SAddr(cls: Class): Field { Field(8 + Addr(cls), Addr(cls)) }
  function SOffset(cls: Class): Field { Field(8 + 2 * Addr(cls), Addr(cls)) }
  function SSize(cls: Class): Field { Field(8 + 3 * Addr(cls), Addr(cls)) }
  function SLink(cls: Class): Field { Field(8 + 4 * Addr(cls), 4) }
  function SInfo(cls: Class): Field { Field(12 + 4 * Addr(cls), 4) }
  function SAddralign(cls: Class): Field { Field(16 + 4 * Addr(cls), Addr(cls)) }
  function SEntsize(cls: Class): Field { Field(16 + 5 * Addr(cls), Addr(cls)) }

  /** The members of a symbol come in another order in the 64-bit structure. */
  const Y_NAME := Field(0, 4)
  function YValue(cls: Class): Field { if cls.Elf32? then Field(4, 4) else Field(8, 8) }
  function YSize(cls: Class): Field { if cls.Elf32? then Field(8, 4) else Field(16, 8) }
  function YShndx(cls: Class): Field { if cls.Elf32? then Field(14, 2) else Field(6, 2) }

  /** What `SwapElfHeader` swaps, in its order. */
  function HeaderFields(cls: Class): seq<Field> {
    [H_TYPE, H_MACHINE, H_VERSION, HEntry(cls), HPhoff(cls), HShoff(cls), HFlags(cls), HEhsize(cls), HPhentsize(cls),
     HPhnum(cls), HShentsize(cls), HShnum(cls), HShstrndx(cls)]
  }

  /** What `SwapSectionHeader` swaps. */
  function SectionFields(cls: Class): seq<Field> {
    [S_NAME, S_TYPE, SFlags(cls), SAddr(cls), SOffset(cls), SSize(cls), SAddralign(cls), SEntsize(cls), SLink(cls), SInfo(cls)]
  }

  /** What `SwapSymbol` swaps. */
  function SymbolFields(cls: Class): seq<Field> {
    [Y_NAME, YValue(cls), YSize(cls), YShndx(cls)]
  }

  /** The size of the table object in the table definition. */
  const D_OBJECT_SIZE := Field(156, 4)
  const DEF_SIZE: nat := 160

  predicate Inside(f: Field, n: nat) {
    f.offset + f.size <= n
  }

  predicate Apart(f: Field, g: Field) {
    f.offset + f.size <= g.offset || g.offset + g.size <= f.offset
  }

  /** Fields of 2, 4 or 8 bytes within n bytes, no two of which overlap. */
  ghost predicate Layout(fields: seq<Field>, n: nat) {
    && (forall i :: 0 <= i < |fields| ==> Inside(fields[i], n) && fields[i].size in {2, 4, 8})
    && (forall i, j :: 0 <= i < j < |fields| ==> Apart(fields[i], fields[j]))
  }

  ghost predicate Ascending(fields: seq<Field>) {
    forall i :: 0 < i < |fields| ==> fields[i - 1].offset + fields[i - 1].size <= fields[i].offset
  }

  lemma {:induction false} AscendingIsApart(fields: seq<Field>, i: nat, j: nat)
    requires Ascending(fields) && i < j < |fields|
    ensures fields[i].offset + fields[i].size <= fields[j].offset
    decreases j
  {
    if i + 1 < j {
      AscendingIsApart(fields, i, j - 1);
      assert fields[j - 1].offset + fields[j - 1].size <= fields[j].offset;
    }
  }

  lemma AscendingLayout(fields: seq<Field>, n: nat)
    requires Ascending(fields) && fields != [] && Inside(fields[|fields| - 1], n)
    requires forall i :: 0 <= i < |fields| ==> fields[i].size in {2, 4, 8}
    ensures Layout(fields, n)
  {
    forall i, j | 0 <= i < j < |fields|
      ensures Apart(fields[i], fields[j])
    {
      AscendingIsApart(fields, i, j);
    }
    forall i | 0 <= i < |fields|
      ensures Inside(fields[i], n)
    {
      if i < |fields| - 1 {
        AscendingIsApart(fields, i, |fields| - 1);
      }
    }
  }

  lemma HeaderLayout(cls: Class)
    ensures Layout(HeaderFields(cls), HeaderSize(cls))
  {
    hide Layout;
    AscendingLayout(HeaderFields(cls), HeaderSize(cls));
  }

  /** All but the last two fields ascend; those lie in the gap before the alignment. */
  lemma SectionLayout(cls: Class)
    ensures Layout(SectionFields(cls), SectionSize(cls))
  {
    var f, n := SectionFields(cls), SectionSize(cls);
    var a := f[..8];
    assert a == [S_NAME, S_TYPE, SFlags(cls), SAddr(cls), SOffset(cls), SSize(cls), SAddralign(cls), SEntsize(cls)];
    AscendingLayout(a, n);
    forall i, j | 0 <= i < j < |f|
      ensures Apart(f[i], f[j])
    {
      if j < 8 {
        assert Apart(a[i], a[j]);
      } else if i < 8 {
        BesideGap(cls, i);
      }
    }
    forall i | 0 <= i < |f|
      ensures Inside(f[i], n)
    {
      assert i < 8 ==> Inside(a[i], n);
    }
  }

  lemma BesideGap(cls: Class, i: nat)
    requires i < 8
    ensures Apart(SectionFields(cls)[i], SLink(cls)) && Apart(SectionFields(cls)[i], SInfo(cls))
  {
  }

  lemma SymbolLayout(cls: Class)
    ensures Layout(SymbolFields(cls), SymbolSize(cls))
  {
  }

  function At(image: seq<byte>, f: Field): (b: seq<byte>)
    requires Inside(f, |image|)
    ensures |b| == f.size
  {
    image[f.offset..f.offset + f.size]
  }

  /** The value of a field. */
  function Get(enc: Encoding, image: seq<byte>, f: Field): (v: nat)
    requires Inside(f, |image|)
    ensures v < Pow256(f.size)
  {
    Value(enc, At(image, f))
  }

  // ---------------------------------------------------------------------------------------------------------------
  // Swapping in place
  // ---------------------------------------------------------------------------------------------------------------

  function SwappedAt(s: seq<byte>, f: Field): seq<byte>
    requires Inside(f, |s|)
  {
    s[..f.offset] + Reversed(At(s, f)) + s[f.offset + f.size..]
  }

  lemma SwappedAtIs(s: seq<byte>, f: Field, t: seq<byte>)
    requires Inside(f, |s|) && |t| == |s|
    requires forall k :: 0 <= k < |s| && !(f.offset <= k < f.offset + f.size) ==> t[k] == s[k]
    requires forall i :: 0 <= i < f.size ==> t[f.offset + i] == Reversed(At(s, f))[i]
    ensures t == SwappedAt(s, f)
  {
    assert t[..f.offset] == s[..f.offset];
    assert t[f.offset..f.offset + f.size] == Reversed(At(s, f));
    assert t[f.offset + f.size..] == s[f.offset + f.size..];
    assert t == t[..f.offset] + t[f.offset..f.offset + f.size] + t[f.offset + f.size..];
  }

  /** The exchange of two bytes through `TempByte`. */
  method Exchange(a: array<byte>, i: nat, j: nat)
    requires i < a.Length && j < a.Length
    modifies a
    ensures a[i] == old(a[j]) && a[j] == old(a[i])
    ensures forall k :: 0 <= k < a.Length && k != i && k != j ==> a[k] == old(a[k])
  {
    var tempByte := a[j];
    a[j] := a[i];
    a[i] := tempByte;
  }

  /** `SwapUInt16`. */
  method SwapUInt16(a: array<byte>, p: nat)
    requires p + 2 <= a.Length
    modifies a
    ensures a[..] == SwappedAt(old(a[..]), Field(p, 2))
  {
    Exchange(a, p, p + 1);
    SwappedAtIs(old(a[..]), Field(p, 2), a[..]);
  }

  /** `SwapUInt32`. */
  method SwapUInt32(a: array<byte>, p: nat)
    requires p + 4 <= a.Length
    modifies a
    ensures a[..] == SwappedAt(old(a[..]), Field(p, 4))
  {
    Exchange(a, p, p + 3);
    Exchange(a, p + 1, p + 2);
    SwappedAtIs(old(a[..]), Field(p, 4), a[..]);
  }

  /** `SwapUInt64`. */
  method SwapUInt64(a: array<byte>, p: nat)
    requires p + 8 <= a.Length
    modifies a
    ensures a[..] == SwappedAt(old(a[..]), Field(p, 8))
  {
    Exchange(a, p, p + 7);
    Exchange(a, p + 1, p + 6);
    Exchange(a, p + 2, p + 5);
    Exchange(a, p + 3, p + 4);
    SwappedAtIs(old(a[..]), Field(p, 8), a[..]);
  }

  lemma SwappedFacts(s: seq<byte>, f: Field, g: Field)
    requires Inside(f, |s|) && Inside(g, |s|)
    ensures |SwappedAt(s, f)| == |s|
    ensures At(SwappedAt(s, f), f) == Reversed(At(s, f))
    ensures Apart(f, g) ==> At(SwappedAt(s, f), g) == At(s, g)
  {
    var t := SwappedAt(s, f);
    assert forall k :: 0 <= k < |s| && !(f.offset <= k < f.offset + f.size) ==> t[k] == s[k];
  }

  /** The byte at p belongs to none of the fields. */
  ghost predicate Outside(fields: seq<Field>, p: nat) {
    forall i :: 0 <= i < |fields| ==> !(fields[i].offset <= p < fields[i].offset + fields[i].size)
  }

  /** The first k fields are reversed, the others and all other bytes as they were. */
  ghost predicate SwappedUpTo(before: seq<byte>, after: seq<byte>, fields: seq<Field>, k: nat)
    requires forall i :: 0 <= i < |fields| ==> Inside(fields[i], |before|)
  {
    && |after| == |before| && k <= |fields|
    && (forall i :: 0 <= i < k ==> At(after, fields[i]) == Reversed(At(before, fields[i])))
    && (forall i :: k <= i < |fields| ==> At(after, fields[i]) == At(before, fields[i]))
    && (forall p :: 0 <= p < |before| && Outside(fields, p) ==> after[p] == before[p])
  }

  lemma SwappedOutside(s: seq<byte>, f: Field, p: nat)
    requires Inside(f, |s|) && p < |s| && !(f.offset <= p < f.offset + f.size)
    ensures p < |SwappedAt(s, f)| && SwappedAt(s, f)[p] == s[p]
  {
  }

  lemma SwapOneMore(before: seq<byte>, now: seq<byte>, fields: seq<Field>, k: nat)
    requires Layout(fields, |before|) && k < |fields| && SwappedUpTo(before, now, fields, k)
    ensures SwappedUpTo(before, SwappedAt(now, fields[k]), fields, k + 1)
  {
    hide SwappedAt, At, Reversed, Apart;
    SwappedFacts(now, fields[k], fields[k]);
    forall i | 0 <= i < |fields| && i != k
      ensures At(SwappedAt(now, fields[k]), fields[i]) == At(now, fields[i])
    {
      SwappedFacts(now, fields[k], fields[i]);
      ApartEither(fields, |before|, i, k);
    }
    forall p | 0 <= p < |before| && Outside(fields, p)
      ensures SwappedAt(now, fields[k])[p] == before[p]
    {
      SwappedOutside(now, fields[k], p);
    }
  }

  lemma ApartEither(fields: seq<Field>, n: nat, i: nat, k: nat)
    requires Layout(fields, n) && i < |fields| && k < |fields| && i != k
    ensures Apart(fields[k], fields[i])
  {
  }

  /** `SwapElfHeader`, `SwapSectionHeader` and `SwapSymbol`: one field after the other. */
  method SwapFields(a: array<byte>, fields: seq<Field>)
    requires Layout(fields, a.Length)
    modifies a
    ensures SwappedUpTo(old(a[..]), a[..], fields, |fields|)
  {
    hide SwappedAt, At;
    ghost var before := a[..];
    for k := 0 to |fields|
      invariant SwappedUpTo(before, a[..], fields, k)
    {
      SwapOneMore(before, a[..], fields, k);
      if fields[k].size == 2 {
        SwapUInt16(a, fields[k].offset);
      } else if fields[k].size == 4 {
        SwapUInt32(a, fields[k].offset);
      } else {
        SwapUInt64(a, fields[k].offset);
      }
    }
  }

  /** What the host reads in memory is what the file holds, for all the fields. */
  ghost predicate Held(host: Encoding, memory: seq<byte>, enc: Encoding, image: seq<byte>, fields: seq<Field>) {
    |memory| == |image| && forall i :: 0 <= i < |fields| && Inside(fields[i], |image|) ==>
      Get(host, memory, fields[i]) == Get(enc, image, fields[i])
  }

  /** `fread` of a structure and the swap that follows it, if host and file differ. */
  method Load(image: seq<byte>, host: Encoding, enc: Encoding, fields: seq<Field>) returns (memory: seq<byte>)
    requires Layout(fields, |image|)
    ensures Held(host, memory, enc, image, fields)
    ensures host == enc ==> memory == image
  {
    hide At, Value, Reversed;
    var a := new byte[|image|](i requires 0 <= i < |image| => image[i]);
    assert a[..] == image;
    if host != enc {
      SwapFields(a, fields);
      forall i | 0 <= i < |fields|
        ensures Get(host, a[..], fields[i]) == Get(enc, image, fields[i])
      {
        ReversedValue(host, enc, At(image, fields[i]));
      }
    }
    memory := a[..];
  }
}
