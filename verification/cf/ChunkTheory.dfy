/**
 Pieces of a file as the CF application records them (`cf_chunk.c`): the mathematical side.

 A list is well formed when its chunks are sorted, pairwise disjoint and not even touching.  Such a list of
 non-empty chunks is the only one with its coverage (`CanonicalForm`), so a statement about which bytes a list covers
 pins the list itself.
 */
module ChunkTheory {

  const UINT32_LIMIT := 0x1_0000_0000

  /** `CF_Chunk_t`: the bytes offset, offset + 1, ..., End() - 1. */
  datatype Chunk = Chunk(offset: nat, size: nat) {
    function End(): nat {
      offset + size
    }

    predicate Has(x: int) {
      offset <= x < End()
    }
  }

  ghost predicate Wf(s: seq<Chunk>) {
    && (forall i :: 0 <= i < |s| ==> s[i].End() < UINT32_LIMIT)
    && (forall i, j :: 0 <= i < j < |s| ==> s[i].End() < s[j].offset)
  }

  ghost predicate AllPositive(s: seq<Chunk>) {
    forall i :: 0 <= i < |s| ==> s[i].size > 0
  }

  ghost predicate Covers(s: seq<Chunk>, x: int) {
    exists i :: 0 <= i < |s| && s[i].Has(x)
  }

  /** Two chunks that overlap or are adjacent, so that their union is one chunk. */
  predicate Touches(a: Chunk, b: Chunk) {
    a.offset <= b.End() && b.offset <= a.End()
  }

  ghost predicate Isolated(s: seq<Chunk>, c: Chunk) {
    forall i :: 0 <= i < |s| ==> !Touches(s[i], c)
  }

  // ---------------------------------------------------------------------------------------------------------------
  // What adding a chunk means
  // ---------------------------------------------------------------------------------------------------------------

  /** How many leading chunks end strictly before x. */
  function EndingBefore(s: seq<Chunk>, x: nat): (k: nat)
    ensures k <= |s|
    ensures forall j :: 0 <= j < k ==> s[j].End() < x
    ensures k < |s| ==> x <= s[k].End()
  {
    if s == [] || x <= s[0].End() then 0 else 1 + EndingBefore(s[1..], x)
  }

  /** How many leading chunks start at x or below. */
  function StartingBy(s: seq<Chunk>, x: nat): (k: nat)
    ensures k <= |s|
    ensures forall j :: 0 <= j < k ==> s[j].offset <= x
    ensures k < |s| ==> x < s[k].offset
  {
    if s == [] || x < s[0].offset then 0 else 1 + StartingBy(s[1..], x)
  }

  /** The index of the first chunk of least size. */
  function Smallest(s: seq<Chunk>): (m: nat)
    requires s != []
    ensures m < |s|
    ensures forall j :: 0 <= j < |s| ==> s[m].size <= s[j].size
    ensures forall j :: 0 <= j < m ==> s[m].size < s[j].size
  {
    if |s| == 1 then 0 else
    var m := Smallest(s[..|s| - 1]);
    if s[|s| - 1].size < s[m].size then |s| - 1 else m
  }

  function Min(a: nat, b: nat): nat { if a < b then a else b }

  function Max(a: nat, b: nat): nat { if a > b then a else b }

  function Insert(s: seq<Chunk>, c: Chunk): seq<Chunk> {
    var k := EndingBefore(s, c.offset);
    s[..k] + [c] + s[k..]
  }

  function Without(s: seq<Chunk>, i: nat): seq<Chunk>
    requires i < |s|
  {
    s[..i] + s[i + 1..]
  }

  /** The hull of c and the chunks lo, ..., hi - 1. */
  function Hull(s: seq<Chunk>, lo: nat, hi: nat, c: Chunk): Chunk
    requires lo < hi <= |s|
  {
    var from := Min(s[lo].offset, c.offset);
    var to := Max(s[hi - 1].End(), c.End());
    Chunk(from, if from <= to then to - from else 0)
  }

  /**
   The list after adding c: the chunks that touch c are replaced by one hull; a chunk that touches nothing takes a free
   slot, or evicts the first smallest chunk if it is larger than that one, or is dropped.
   */
  function Added(s: seq<Chunk>, max: nat, c: Chunk): seq<Chunk>
  {
    var lo, hi := EndingBefore(s, c.offset), StartingBy(s, c.End());
    if lo < hi then s[..lo] + [Hull(s, lo, hi, c)] + s[hi..]
    else if |s| < max then Insert(s, c)
    else if s != [] && s[Smallest(s)].size < c.size then Insert(Without(s, Smallest(s)), c)
    else s
  }

  /** The case in which adding c forgets bytes: the list is full and c touches none of its chunks. */
  ghost predicate Overflows(s: seq<Chunk>, max: nat, c: Chunk) {
    |s| >= max && Isolated(s, c)
  }

  // ---------------------------------------------------------------------------------------------------------------
  // Uniqueness
  // ---------------------------------------------------------------------------------------------------------------

  lemma EndingBeforeIs(s: seq<Chunk>, x: nat, k: nat)
    requires Wf(s) && k <= |s|
    requires k > 0 ==> s[k - 1].End() < x
    requires k < |s| ==> x <= s[k].End()
    ensures EndingBefore(s, x) == k
  {
    assert forall i :: 0 <= i < k - 1 ==> s[i].End() < s[k - 1].offset;
  }

  lemma StartingByIs(s: seq<Chunk>, x: nat, k: nat)
    requires Wf(s) && k <= |s|
    requires k > 0 ==> s[k - 1].offset <= x
    requires k < |s| ==> x < s[k].offset
    ensures StartingBy(s, x) == k
  {
    assert forall i :: 0 <= i < k - 1 ==> s[i].End() < s[k - 1].offset;
  }

  /** The first chunks of two lists with the same coverage agree. */
  lemma SameHead(s: seq<Chunk>, t: seq<Chunk>)
    requires Wf(s) && Wf(t) && AllPositive(s) && AllPositive(t)
    requires forall x :: Covers(s, x) <==> Covers(t, x)
    requires s != []
    ensures t != [] && s[0].offset == t[0].offset && s[0].End() <= t[0].End()
  {
    assert s[0].Has(s[0].offset);
    assert Covers(t, s[0].offset);
    var i :| 0 <= i < |t| && t[i].Has(s[0].offset);
    assert t[0].Has(t[0].offset);
    assert Covers(s, t[0].offset);
    var j :| 0 <= j < |s| && s[j].Has(t[0].offset);
    assert s[0].offset <= s[j].offset <= t[0].offset <= t[i].offset <= s[0].offset;
    if t[0].End() < s[0].End() {
      assert s[0].Has(t[0].End());
      assert Covers(t, t[0].End());
      var k :| 0 <= k < |t| && t[k].Has(t[0].End());
      assert false;
    }
  }

  /** Coverage determines a well-formed list of non-empty chunks. */
  lemma {:induction false} CanonicalForm(s: seq<Chunk>, t: seq<Chunk>)
    requires Wf(s) && Wf(t) && AllPositive(s) && AllPositive(t)
    requires forall x :: Covers(s, x) <==> Covers(t, x)
    ensures s == t
  {
    if s == [] {
      if t != [] {
        SameHead(t, s);
      }
    } else {
      SameHead(s, t);
      SameHead(t, s);
      assert s[0] == t[0];
      forall x
        ensures Covers(s[1..], x) <==> Covers(t[1..], x)
      {
        CoversTail(s, x);
        CoversTail(t, x);
      }
      CanonicalForm(s[1..], t[1..]);
    }
  }

  lemma CoversTail(s: seq<Chunk>, x: int)
    requires Wf(s) && s != []
    ensures Covers(s, x) <==> s[0].Has(x) || Covers(s[1..], x)
    ensures Covers(s[1..], x) ==> s[0].End() < x
  {
    if Covers(s[1..], x) {
      var i :| 0 <= i < |s[1..]| && s[1..][i].Has(x);
      assert s[i + 1].Has(x);
    }
    if Covers(s, x) && !s[0].Has(x) {
      var i :| 0 <= i < |s| && s[i].Has(x);
      assert s[1..][i - 1].Has(x);
    }
  }

  // ---------------------------------------------------------------------------------------------------------------
  // One addition
  // ---------------------------------------------------------------------------------------------------------------

  /** The chunks lo, ..., hi - 1 of s are the ones that c touches; the others keep clear of it on either side. */
  ghost predicate TouchRange(s: seq<Chunk>, c: Chunk, lo: nat, hi: nat) {
    && lo <= hi <= |s|
    && (forall i :: 0 <= i < lo ==> s[i].End() < c.offset)
    && (forall i :: lo <= i < hi ==> Touches(s[i], c))
    && (forall i :: hi <= i < |s| ==> c.End() < s[i].offset)
  }

  lemma LoHi(s: seq<Chunk>, c: Chunk)
    requires Wf(s)
    ensures TouchRange(s, c, EndingBefore(s, c.offset), StartingBy(s, c.End()))
  {
    var lo, hi := EndingBefore(s, c.offset), StartingBy(s, c.End());
    assert forall j :: 0 <= j < lo ==> s[j].End() < c.offset;
    forall i | lo <= i < hi
      ensures Touches(s[i], c)
    {
      assert lo < i ==> s[lo].End() < s[i].offset;
    }
    forall i | hi <= i < |s|
      ensures c.End() < s[i].offset
    {
      assert hi < i ==> s[hi].End() < s[i].offset;
    }
  }

  lemma IsolatedIff(s: seq<Chunk>, c: Chunk, lo: nat, hi: nat)
    requires TouchRange(s, c, lo, hi)
    ensures Isolated(s, c) <==> lo == hi
  {
    if lo < hi {
      assert Touches(s[lo], c);
    }
  }

  /** `Added`, told by the range of touched chunks instead of by counting. */
  lemma AddedIs(s: seq<Chunk>, max: nat, c: Chunk, lo: nat, hi: nat)
    requires Wf(s) && TouchRange(s, c, lo, hi)
    ensures lo < hi ==> Added(s, max, c) == s[..lo] + [Hull(s, lo, hi, c)] + s[hi..]
    ensures lo == hi ==> Insert(s, c) == s[..lo] + [c] + s[lo..]
    ensures lo == hi && |s| < max ==> Added(s, max, c) == Insert(s, c)
    ensures lo == hi && |s| >= max && s != [] ==>
              Added(s, max, c) == if s[Smallest(s)].size < c.size then Insert(Without(s, Smallest(s)), c) else s
  {
    hide Wf, EndingBefore, StartingBy, Smallest, Hull, Without;
    EndingBeforeIs(s, c.offset, lo);
    StartingByIs(s, c.End(), hi);
  }

  lemma CoversConcat(a: seq<Chunk>, b: seq<Chunk>, x: int)
    ensures Covers(a + b, x) <==> Covers(a, x) || Covers(b, x)
  {
    if Covers(a, x) {
      var i :| 0 <= i < |a| && a[i].Has(x);
      assert (a + b)[i].Has(x);
    }
    if Covers(b, x) {
      var i :| 0 <= i < |b| && b[i].Has(x);
      assert (a + b)[|a| + i].Has(x);
    }
    if Covers(a + b, x) {
      var i :| 0 <= i < |a + b| && (a + b)[i].Has(x);
      if i < |a| {
        assert a[i].Has(x);
      } else {
        assert b[i - |a|].Has(x);
      }
    }
  }

  /** Coverage of a list with one chunk in the middle. */
  lemma CoversAround(a: seq<Chunk>, c: Chunk, b: seq<Chunk>, x: int)
    ensures Covers(a + [c] + b, x) <==> Covers(a, x) || c.Has(x) || Covers(b, x)
  {
    CoversConcat(a + [c], b, x);
    CoversConcat(a, [c], x);
    if c.Has(x) {
      assert [c][0].Has(x);
    }
  }

  lemma WfConcat(a: seq<Chunk>, b: seq<Chunk>)
    requires Wf(a) && Wf(b)
    requires a != [] && b != [] ==> a[|a| - 1].End() < b[0].offset
    ensures Wf(a + b)
    ensures AllPositive(a) && AllPositive(b) ==> AllPositive(a + b)
  {
    forall i, j | 0 <= i < j < |a + b|
      ensures (a + b)[i].End() < (a + b)[j].offset
    {
      if i < |a| <= j {
        assert a[i].End() <= a[|a| - 1].End();
        assert b[0].offset <= b[j - |a|].offset;
      }
    }
  }

  /** A list stays well formed when c replaces its chunks lo, ..., hi - 1 and keeps clear of the others. */
  lemma WfAround(s: seq<Chunk>, lo: nat, hi: nat, c: Chunk)
    requires Wf(s) && lo <= hi <= |s| && c.End() < UINT32_LIMIT
    requires lo > 0 ==> s[lo - 1].End() < c.offset
    requires hi < |s| ==> c.End() < s[hi].offset
    ensures Wf(s[..lo] + [c] + s[hi..])
    ensures AllPositive(s) && c.size > 0 ==> AllPositive(s[..lo] + [c] + s[hi..])
  {
    hide Wf, AllPositive;
    WfPart(s, 0, lo);
    WfPart(s, hi, |s|);
    WfOne(c);
    assert s[0..lo] == s[..lo] && s[hi..|s|] == s[hi..];
    WfConcat(s[..lo], [c]);
    WfConcat(s[..lo] + [c], s[hi..]);
  }

  lemma WfPart(s: seq<Chunk>, lo: nat, hi: nat)
    requires Wf(s) && lo <= hi <= |s|
    ensures Wf(s[lo..hi]) && (AllPositive(s) ==> AllPositive(s[lo..hi]))
  {
  }

  lemma WfOne(c: Chunk)
    requires c.End() < UINT32_LIMIT
    ensures Wf([c]) && (c.size > 0 ==> AllPositive([c]))
  {
  }

  lemma InsertFacts(s: seq<Chunk>, c: Chunk)
    requires Wf(s) && Isolated(s, c) && c.End() < UINT32_LIMIT
    ensures Wf(Insert(s, c)) && |Insert(s, c)| == |s| + 1
    ensures forall x :: Covers(Insert(s, c), x) <==> Covers(s, x) || c.Has(x)
    ensures AllPositive(s) && c.size > 0 ==> AllPositive(Insert(s, c))
  {
    hide Wf, Covers, EndingBefore, StartingBy, Isolated;
    LoHi(s, c);
    IsolatedIff(s, c, EndingBefore(s, c.offset), StartingBy(s, c.End()));
    var k := EndingBefore(s, c.offset);
    WfAround(s, k, k, c);
    assert s == s[..k] + s[k..];
    forall x
      ensures Covers(Insert(s, c), x) <==> Covers(s, x) || c.Has(x)
    {
      CoversAround(s[..k], c, s[k..], x);
      CoversConcat(s[..k], s[k..], x);
    }
  }

  lemma WithoutCovers(s: seq<Chunk>, m: nat, x: int)
    requires Wf(s) && m < |s|
    ensures Covers(Without(s, m), x) <==> Covers(s, x) && !s[m].Has(x)
  {
    assert Covers(s[..m], x) || Covers(s[m + 1..], x) ==> !s[m].Has(x);
    hide Wf, Covers;
    assert s == s[..m] + [s[m]] + s[m + 1..];
    CoversAround(s[..m], s[m], s[m + 1..], x);
    CoversConcat(s[..m], s[m + 1..], x);
  }

  lemma WithoutFacts(s: seq<Chunk>, m: nat)
    requires Wf(s) && m < |s|
    ensures Wf(Without(s, m)) && |Without(s, m)| == |s| - 1
    ensures forall x :: Covers(Without(s, m), x) <==> Covers(s, x) && !s[m].Has(x)
    ensures AllPositive(s) ==> AllPositive(Without(s, m))
  {
    WfConcat(s[..m], s[m + 1..]);
    forall x
      ensures Covers(Without(s, m), x) <==> Covers(s, x) && !s[m].Has(x)
    {
      WithoutCovers(s, m, x);
    }
  }

  lemma WithoutIsolated(s: seq<Chunk>, m: nat, c: Chunk)
    requires m < |s| && Isolated(s, c)
    ensures Isolated(Without(s, m), c)
  {
    assert forall i :: 0 <= i < |s| - 1 ==> Without(s, m)[i] == s[if i < m then i else i + 1];
  }

  lemma HullFacts(s: seq<Chunk>, lo: nat, hi: nat, c: Chunk)
    requires Wf(s) && c.End() < UINT32_LIMIT && lo < hi <= |s|
    requires TouchRange(s, c, lo, hi)
    ensures Touches(s[lo], c) && Touches(s[hi - 1], c)
    ensures Hull(s, lo, hi, c).offset == Min(s[lo].offset, c.offset)
    ensures Hull(s, lo, hi, c).End() == Max(s[hi - 1].End(), c.End())
    ensures Wf(s[..lo] + [Hull(s, lo, hi, c)] + s[hi..])
    ensures AllPositive(s) ==> AllPositive(s[..lo] + [Hull(s, lo, hi, c)] + s[hi..])
  {
    var h := Hull(s, lo, hi, c);
    assert s[lo].offset <= s[hi - 1].offset;
    WfAround(s, lo, hi, h);
  }

  lemma HullHas(s: seq<Chunk>, lo: nat, hi: nat, c: Chunk, x: int)
    requires Wf(s) && lo < hi <= |s| && c.End() < UINT32_LIMIT
    requires TouchRange(s, c, lo, hi)
    ensures Hull(s, lo, hi, c).Has(x) <==> Covers(s[lo..hi], x) || c.Has(x)
  {
    HullFacts(s, lo, hi, c);
    var mid := s[lo..hi];
    assert mid[0] == s[lo] && mid[hi - 1 - lo] == s[hi - 1];
    if Covers(mid, x) {
      var i :| 0 <= i < hi - lo && mid[i].Has(x);
      assert mid[i] == s[lo + i];
      assert s[lo].offset <= s[lo + i].offset && s[lo + i].End() <= s[hi - 1].End();
    } else if !c.Has(x) {
      assert !mid[0].Has(x) && !mid[hi - 1 - lo].Has(x);
    }
  }

  lemma HullCovers(s: seq<Chunk>, lo: nat, hi: nat, c: Chunk, x: int)
    requires Wf(s) && lo < hi <= |s| && c.End() < UINT32_LIMIT
    requires TouchRange(s, c, lo, hi)
    ensures Covers(s[..lo] + [Hull(s, lo, hi, c)] + s[hi..], x) <==> Covers(s, x) || c.Has(x)
  {
    hide Wf, Covers, TouchRange, Hull;
    HullHas(s, lo, hi, c, x);
    CoversAround(s[..lo], Hull(s, lo, hi, c), s[hi..], x);
    CoversConcat(s[lo..hi], s[hi..], x);
    assert s[lo..hi] + s[hi..] == s[lo..];
    CoversConcat(s[..lo], s[lo..], x);
    assert s[..lo] + s[lo..] == s;
  }

  /** Adding keeps the list well formed and within its capacity. */
  lemma AddedKeepsWf(s: seq<Chunk>, max: nat, c: Chunk)
    requires Wf(s) && |s| <= max && 0 < max && c.End() < UINT32_LIMIT
    ensures Wf(Added(s, max, c)) && |Added(s, max, c)| <= max
    ensures AllPositive(s) && c.size > 0 ==> AllPositive(Added(s, max, c))
  {
    var lo, hi := EndingBefore(s, c.offset), StartingBy(s, c.End());
    LoHi(s, c);
    IsolatedIff(s, c, lo, hi);
    if lo < hi {
      HullFacts(s, lo, hi, c);
    } else if |s| < max {
      InsertFacts(s, c);
    } else {
      var m := Smallest(s);
      WithoutFacts(s, m);
      WithoutIsolated(s, m, c);
      InsertFacts(Without(s, m), c);
    }
  }

  /** What one addition does to the covered bytes: the union, except in the overflow case, where the smaller of c and
      the first smallest chunk is forgotten. */
  lemma AddedCovers(s: seq<Chunk>, max: nat, c: Chunk, x: int)
    requires Wf(s) && |s| <= max && 0 < max && c.End() < UINT32_LIMIT
    ensures !Overflows(s, max, c) ==> (Covers(Added(s, max, c), x) <==> Covers(s, x) || c.Has(x))
    ensures Overflows(s, max, c) && s[Smallest(s)].size < c.size ==>
              (Covers(Added(s, max, c), x) <==> (Covers(s, x) && !s[Smallest(s)].Has(x)) || c.Has(x))
    ensures Overflows(s, max, c) && s[Smallest(s)].size >= c.size ==> Added(s, max, c) == s
  {
    var lo, hi := EndingBefore(s, c.offset), StartingBy(s, c.End());
    LoHi(s, c);
    IsolatedIff(s, c, lo, hi);
    if lo < hi {
      HullCovers(s, lo, hi, c, x);
    } else if |s| < max {
      InsertFacts(s, c);
    } else {
      var m := Smallest(s);
      WithoutFacts(s, m);
      WithoutIsolated(s, m, c);
      InsertFacts(Without(s, m), c);
    }
  }

  /** Exactly when one addition loses nothing. */
  lemma AddedIsUnionIff(s: seq<Chunk>, max: nat, c: Chunk)
    requires Wf(s) && AllPositive(s) && |s| <= max && 0 < max && c.End() < UINT32_LIMIT && c.size > 0
    ensures (forall x :: Covers(Added(s, max, c), x) <==> Covers(s, x) || c.Has(x)) <==> !Overflows(s, max, c)
  {
    if !Overflows(s, max, c) {
      forall x
        ensures Covers(Added(s, max, c), x) <==> Covers(s, x) || c.Has(x)
      {
        AddedCovers(s, max, c, x);
      }
    } else {
      var m := Smallest(s);
      assert !Touches(s[m], c);
      if s[m].size < c.size {
        AddedCovers(s, max, c, s[m].offset);
        assert s[m].Has(s[m].offset);
        assert !c.Has(s[m].offset);
      } else {
        AddedCovers(s, max, c, c.offset);
        assert c.Has(c.offset);
        assert forall i :: 0 <= i < |s| ==> s[i].Has(c.offset) ==> Touches(s[i], c);
      }
    }
  }

  /** Adding bytes that one chunk already covers changes nothing, so duplicated file data is harmless. */
  lemma AddedInside(s: seq<Chunk>, max: nat, c: Chunk, i: nat)
    requires Wf(s) && AllPositive(s) && |s| <= max && 0 < max
    requires i < |s| && s[i].offset <= c.offset && c.End() <= s[i].End() && c.size > 0
    ensures Added(s, max, c) == s
  {
    assert Touches(s[i], c);
    AddedKeepsWf(s, max, c);
    forall x
      ensures Covers(Added(s, max, c), x) <==> Covers(s, x)
    {
      AddedCovers(s, max, c, x);
      if c.Has(x) {
        assert s[i].Has(x);
      }
    }
    CanonicalForm(Added(s, max, c), s);
  }

  // ---------------------------------------------------------------------------------------------------------------
  // Whole runs
  // ---------------------------------------------------------------------------------------------------------------

  /** The list after the additions in adds, starting empty. */
  function Run(max: nat, adds: seq<Chunk>): seq<Chunk> {
    if adds == [] then [] else Added(Run(max, adds[..|adds| - 1]), max, adds[|adds| - 1])
  }

  /** Additions that do not wrap around in 32 bits, which is what the code asserts of its callers. */
  ghost predicate Addable(adds: seq<Chunk>) {
    forall i :: 0 <= i < |adds| ==> adds[i].End() < UINT32_LIMIT
  }

  ghost predicate NeverOverflows(max: nat, adds: seq<Chunk>) {
    forall k :: 0 <= k < |adds| ==> !Overflows(Run(max, adds[..k]), max, adds[k])
  }

  /** After any additions the list is well formed, within capacity and never claims a byte nobody added. */
  lemma {:induction false} RunIsSound(max: nat, adds: seq<Chunk>)
    requires 0 < max && Addable(adds)
    ensures Wf(Run(max, adds)) && |Run(max, adds)| <= max
    ensures AllPositive(adds) ==> AllPositive(Run(max, adds))
    ensures forall x :: Covers(Run(max, adds), x) ==> Covers(adds, x)
  {
    if adds != [] {
      var n := |adds| - 1;
      RunIsSound(max, adds[..n]);
      AddedKeepsWf(Run(max, adds[..n]), max, adds[n]);
      forall x | Covers(Run(max, adds), x)
        ensures Covers(adds, x)
      {
        AddedCovers(Run(max, adds[..n]), max, adds[n], x);
        CoversLast(adds, x);
      }
    }
  }

  lemma CoversLast(adds: seq<Chunk>, x: int)
    requires adds != []
    ensures Covers(adds, x) <==> Covers(adds[..|adds| - 1], x) || adds[|adds| - 1].Has(x)
  {
    var n := |adds| - 1;
    if Covers(adds, x) && !adds[n].Has(x) {
      var i :| 0 <= i < |adds| && adds[i].Has(x);
      assert adds[..n][i].Has(x);
    }
    if Covers(adds[..n], x) {
      var i :| 0 <= i < n && adds[..n][i].Has(x);
      assert adds[i].Has(x);
    }
  }

  /** If the list never overflows it covers exactly what was added. */
  lemma {:induction false} RunIsExact(max: nat, adds: seq<Chunk>)
    requires 0 < max && Addable(adds) && NeverOverflows(max, adds)
    ensures forall x :: Covers(Run(max, adds), x) <==> Covers(adds, x)
  {
    if adds != [] {
      var n := |adds| - 1;
      forall k | 0 <= k < n
        ensures !Overflows(Run(max, adds[..n][..k]), max, adds[..n][k])
      {
        assert adds[..n][..k] == adds[..k];
      }
      RunIsExact(max, adds[..n]);
      RunIsSound(max, adds[..n]);
      forall x
        ensures Covers(Run(max, adds), x) <==> Covers(adds, x)
      {
        AddedCovers(Run(max, adds[..n]), max, adds[n], x);
        CoversLast(adds, x);
      }
    }
  }

  /** Order and repetition of additions do not matter as long as nothing overflows: the lists end up equal. */
  lemma RunIsOrderIndependent(max: nat, adds: seq<Chunk>, adds': seq<Chunk>)
    requires 0 < max && Addable(adds) && AllPositive(adds) && NeverOverflows(max, adds)
    requires Addable(adds') && AllPositive(adds') && NeverOverflows(max, adds')
    requires forall x :: Covers(adds, x) <==> Covers(adds', x)
    ensures Run(max, adds) == Run(max, adds')
  {
    RunIsExact(max, adds);
    RunIsExact(max, adds');
    RunIsSound(max, adds);
    RunIsSound(max, adds');
    CanonicalForm(Run(max, adds), Run(max, adds'));
  }
}
