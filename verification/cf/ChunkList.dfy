/**
 The bounded chunk array of the CF application (`cf_chunk.c`), which records the received pieces of a file on the
 receiving side and the requested pieces on the sending side.  Each method is proved against `ChunkTheory`.
 */
module ChunkList {
  import opened ChunkTheory
  import opened GapTheory
  import opened Options

  // ---------------------------------------------------------------------------------------------------------------
  // The intermediate states of an insertion
  // ---------------------------------------------------------------------------------------------------------------

  ghost predicate IsLowerBound(s: seq<Chunk>, offset: nat, i: nat) {
    && i <= |s|
    && (forall j :: 0 <= j < i ==> s[j].offset < offset)
    && (forall j :: i <= j < |s| ==> offset <= s[j].offset)
  }

  /** The first index from i on whose chunk starts beyond end. */
  ghost function NextStop(s: seq<Chunk>, i: nat, end: nat): nat
    requires i <= |s|
  {
    i + StartingBy(s[i..], end)
  }

  /** The previous chunk p, extended to the end of c if c reaches further. */
  ghost function JoinPrevious(p: Chunk, c: Chunk): Chunk {
    if p.End() < c.End() then Chunk(p.offset, c.End() - p.offset) else p
  }

  /** c takes the place of the chunks from i on that it reaches. */
  ghost function JoinNext(s: seq<Chunk>, i: nat, c: Chunk): seq<Chunk>
    requires i < |s| && i < NextStop(s, i, c.End())
  {
    var k := NextStop(s, i, c.End());
    s[..i] + [Chunk(c.offset, Max(s[k - 1].End(), c.End()) - c.offset)] + s[k..]
  }

  lemma NextStopFacts(s: seq<Chunk>, i: nat, end: nat)
    requires i <= |s|
    ensures i <= NextStop(s, i, end) <= |s|
    ensures forall j :: i <= j < NextStop(s, i, end) ==> s[j].offset <= end
    ensures NextStop(s, i, end) < |s| ==> end < s[NextStop(s, i, end)].offset
  {
    var k := NextStop(s, i, end);
    assert forall j :: i <= j < k ==> s[j] == s[i..][j - i];
    assert k < |s| ==> s[k] == s[i..][k - i];
  }

  lemma NextStopIs(s: seq<Chunk>, i: nat, end: nat, k: nat)
    requires i <= k <= |s|
    requires forall j :: i <= j < k ==> s[j].offset <= end
    requires k < |s| ==> end < s[k].offset
    ensures NextStop(s, i, end) == k
  {
    NextStopFacts(s, i, end);
  }

  /** The index of the first chunk c touches, seen from the lower bound. */
  ghost function FirstTouched(s: seq<Chunk>, c: Chunk, i: nat): nat
    requires i <= |s|
  {
    if i > 0 && c.offset <= s[i - 1].End() then i - 1 else i
  }

  lemma ClearBelow(s: seq<Chunk>, c: Chunk, i: nat)
    requires Wf(s) && IsLowerBound(s, c.offset, i)
    ensures forall j :: 0 <= j < FirstTouched(s, c, i) ==> s[j].End() < c.offset
  {
    assert forall j :: 0 <= j < i - 1 ==> s[j].End() < s[i - 1].offset;
  }

  lemma TouchedBetween(s: seq<Chunk>, c: Chunk, i: nat, k: nat)
    requires IsLowerBound(s, c.offset, i) && i <= k <= |s|
    requires forall j :: i <= j < k ==> s[j].offset <= c.End()
    ensures forall j :: FirstTouched(s, c, i) <= j < k ==> Touches(s[j], c)
  {
  }

  lemma ClearAbove(s: seq<Chunk>, end: nat, k: nat)
    requires Wf(s) && k <= |s| && (k < |s| ==> end < s[k].offset)
    ensures forall j :: k <= j < |s| ==> end < s[j].offset
  {
    assert k < |s| ==> forall j :: k < j < |s| ==> s[k].End() < s[j].offset;
  }

  /** Where the chunks that touch c lie, seen from the lower bound. */
  lemma LowerBoundSplits(s: seq<Chunk>, c: Chunk, i: nat)
    requires Wf(s) && IsLowerBound(s, c.offset, i)
    ensures TouchRange(s, c, FirstTouched(s, c, i), NextStop(s, i, c.End()))
  {
    NextStopFacts(s, i, c.End());
    ClearBelow(s, c, i);
    TouchedBetween(s, c, i, NextStop(s, i, c.End()));
    ClearAbove(s, c.End(), NextStop(s, i, c.End()));
  }

  /** Joining with the next chunks only is adding, if the previous chunk is out of reach. */
  lemma AddedByNext(s: seq<Chunk>, max: nat, c: Chunk, i: nat)
    requires Wf(s) && IsLowerBound(s, c.offset, i)
    requires NextStop(s, i, c.End()) != i && FirstTouched(s, c, i) == i
    ensures JoinNext(s, i, c) == Added(s, max, c)
  {
    hide Wf, Added, TouchRange, StartingBy;
    LowerBoundSplits(s, c, i);
    NextStopFacts(s, i, c.End());
    AddedIs(s, max, c, i, NextStop(s, i, c.End()));
    assert c.offset <= s[i].offset;
  }

  /** Joining with the previous chunk only is adding, if the next one is out of reach. */
  lemma AddedByPrevious(s: seq<Chunk>, max: nat, c: Chunk, i: nat)
    requires Wf(s) && IsLowerBound(s, c.offset, i)
    requires NextStop(s, i, c.End()) == i && FirstTouched(s, c, i) != i
    ensures s[i - 1 := JoinPrevious(s[i - 1], c)] == Added(s, max, c)
  {
    hide Wf, Added, TouchRange, StartingBy;
    LowerBoundSplits(s, c, i);
    AddedIs(s, max, c, i - 1, i);
    assert s[i - 1].offset < c.offset;
    assert Hull(s, i - 1, i, c) == JoinPrevious(s[i - 1], c);
  }

  lemma JoinNextIs(s: seq<Chunk>, i: nat, c: Chunk)
    requires i < |s| && i < NextStop(s, i, c.End()) <= |s|
    ensures var k := NextStop(s, i, c.End());
            && c.offset <= Max(s[k - 1].End(), c.End())
            && JoinNext(s, i, c) == s[..i] + [Chunk(c.offset, Max(s[k - 1].End(), c.End()) - c.offset)] + s[k..]
  {
  }

  lemma JoinedInPlace(s: seq<Chunk>, i: nat, k: nat, c: Chunk, u: seq<Chunk>)
    requires i < k <= |s| == |u|
    requires u[i] == c && forall j :: 0 <= j < |s| && j != i ==> u[j] == s[j]
    ensures s[..i] + [c] + s[k..] == if i + 1 < k then u[..i + 1] + u[k..] else u
  {
  }

  lemma JoinNextAt(s: seq<Chunk>, i: nat, c: Chunk)
    requires i < |s| && i < NextStop(s, i, c.End())
    ensures var t := JoinNext(s, i, c);
            && i < |t| && t[i].offset == c.offset
            && FirstTouched(t, t[i], i) == FirstTouched(s, c, i)
            && (i > 0 ==> t[i - 1] == s[i - 1])
  {
    NextStopFacts(s, i, c.End());
  }

  lemma SpliceBoth(s: seq<Chunk>, i: nat, k: nat, a: Chunk, b: Chunk)
    requires 0 < i < k <= |s|
    ensures Without((s[..i] + [a] + s[k..])[i - 1 := b], i) == s[..i - 1] + [b] + s[k..]
  {
  }

  lemma JoinIsHull(s: seq<Chunk>, i: nat, k: nat, c: Chunk)
    requires 0 < i < k <= |s|
    requires s[i - 1].offset < c.offset <= s[i - 1].End() <= s[k - 1].End()
    ensures Hull(s, i - 1, k, c)
            == JoinPrevious(s[i - 1], Chunk(c.offset, Max(s[k - 1].End(), c.End()) - c.offset))
  {
  }

  /** What joining on both sides works on. */
  lemma BothSides(s: seq<Chunk>, c: Chunk, i: nat)
    requires Wf(s) && IsLowerBound(s, c.offset, i)
    requires NextStop(s, i, c.End()) != i && FirstTouched(s, c, i) != i
    ensures 0 < i < NextStop(s, i, c.End()) <= |s| && FirstTouched(s, c, i) == i - 1
    ensures var k := NextStop(s, i, c.End());
            && s[i - 1].offset < c.offset <= s[i - 1].End() <= s[k - 1].End()
            && c.offset <= s[k - 1].offset && c.offset <= Max(s[k - 1].End(), c.End())
            && JoinNext(s, i, c) == s[..i] + [Chunk(c.offset, Max(s[k - 1].End(), c.End()) - c.offset)] + s[k..]
  {
    NextStopFacts(s, i, c.End());
    var k := NextStop(s, i, c.End());
    assert s[i - 1].End() < s[k - 1].offset && s[i - 1].offset < c.offset;
  }

  /** Joining with the next chunks, then with the previous one, is adding. */
  lemma AddedByBoth(s: seq<Chunk>, max: nat, c: Chunk, i: nat)
    requires Wf(s) && IsLowerBound(s, c.offset, i)
    requires NextStop(s, i, c.End()) != i && FirstTouched(s, c, i) != i
    ensures var t := JoinNext(s, i, c);
            Without(t[i - 1 := JoinPrevious(s[i - 1], t[i])], i) == Added(s, max, c)
  {
    hide *;
    BothSides(s, c, i);
    var k := NextStop(s, i, c.End());
    var a := Chunk(c.offset, Max(s[k - 1].End(), c.End()) - c.offset);
    LowerBoundSplits(s, c, i);
    AddedIs(s, max, c, i - 1, k);
    JoinIsHull(s, i, k, c);
    SpliceBoth(s, i, k, a, JoinPrevious(s[i - 1], a));
  }

  /** The slot found by the lower bound is the one an isolated chunk belongs to. */
  lemma InsertedAt(s: seq<Chunk>, c: Chunk, i: nat)
    requires Wf(s) && Isolated(s, c) && IsLowerBound(s, c.offset, i)
    ensures Insert(s, c) == s[..i] + [c] + s[i..]
  {
    LowerBoundSplits(s, c, i);
    IsolatedIff(s, c, FirstTouched(s, c, i), NextStop(s, i, c.End()));
    AddedIs(s, 0, c, FirstTouched(s, c, i), NextStop(s, i, c.End()));
  }

  /** A chunk out of reach of its neighbours: it is inserted, or replaces the smallest, or is dropped. */
  lemma AddedAlone(s: seq<Chunk>, max: nat, c: Chunk, i: nat)
    requires Wf(s) && IsLowerBound(s, c.offset, i)
    requires NextStop(s, i, c.End()) == i && FirstTouched(s, c, i) == i
    ensures |s| < max ==> Added(s, max, c) == s[..i] + [c] + s[i..]
    ensures |s| >= max && s != [] ==> Wf(Without(s, Smallest(s))) && Isolated(Without(s, Smallest(s)), c)
    ensures |s| >= max && s != [] ==>
              Added(s, max, c) == if s[Smallest(s)].size < c.size then Insert(Without(s, Smallest(s)), c) else s
  {
    hide Wf, Added, TouchRange, StartingBy, Without, Insert;
    LowerBoundSplits(s, c, i);
    AddedIs(s, max, c, i, i);
    IsolatedIff(s, c, i, i);
    if s != [] {
      WithoutFacts(s, Smallest(s));
      WithoutIsolated(s, Smallest(s), c);
    }
  }

  /** The gaps reported so far, and those still to be reported. */
  ghost function WithLater(before: seq<Chunk>, s: seq<Chunk>, i: nat, n: nat, total: nat, start: nat): seq<Chunk>
    requires Wf(s) && i <= |s|
  {
    before + GapsAfter(s, i, n, total, start)
  }

  /** One round of the loop in `CF_ChunkList_ComputeGaps`. */
  lemma LaterUnfolds(before: seq<Chunk>, s: seq<Chunk>, i: nat, n: nat, total: nat, start: nat)
    requires Wf(s) && i < |s| && n > 0 && start <= total
    ensures i + 1 < |s| ==> s[i].End() < s[i + 1].offset
    ensures var next := if i == |s| - 1 then total else s[i + 1].offset;
            var from := Max(s[i].End(), start);
            WithLater(before, s, i, n, total, start) ==
            if s[i].End() >= total then before
            else if start < next && from <= next then
              WithLater(before + [Chunk(from, next - from)], s, i + 1, n - 1, total, start)
            else WithLater(before, s, i + 1, n, total, start)
  {
    assert i + 1 < |s| ==> s[i].End() < s[i + 1].offset;
  }

  /** What the part before the loop reports, and what is left to report then. */
  lemma LaterStarts(s: seq<Chunk>, maxGaps: nat, total: nat, start: nat)
    requires Wf(s) && start <= total
    ensures var first := if s != [] && start < s[0].offset then [Chunk(start, s[0].offset - start)] else [];
            ReportedGaps(s, maxGaps, total, start)
            == if s == [] then [Chunk(0, total)]
               else WithLater(first, s, 0, if |first| <= maxGaps then maxGaps - |first| else 0, total, start)
  {
  }

  lemma LaterEnds(before: seq<Chunk>, s: seq<Chunk>, i: nat, n: nat, total: nat, start: nat)
    requires Wf(s) && i <= |s| && (n == 0 || i == |s|)
    ensures WithLater(before, s, i, n, total, start) == before
  {
  }

  /** s after up to size bytes are taken off the front of its first chunk. */
  function FrontRemoved(s: seq<Chunk>, size: nat): seq<Chunk>
    requires s != []
  {
    if size < s[0].size then [Chunk(s[0].offset + size, s[0].size - size)] + s[1..] else s[1..]
  }

  lemma FrontRemovedKeepsWf(s: seq<Chunk>, size: nat)
    requires Wf(s) && s != []
    ensures Wf(FrontRemoved(s, size))
    ensures AllPositive(s) ==> AllPositive(FrontRemoved(s, size))
  {
    if size < s[0].size {
      WfConcat([Chunk(s[0].offset + size, s[0].size - size)], s[1..]);
    }
  }

  /** Taking bytes off the front uncovers exactly those of the first chunk. */
  lemma FrontRemovedFacts(s: seq<Chunk>, size: nat)
    requires Wf(s) && s != []
    ensures Wf(FrontRemoved(s, size))
    ensures AllPositive(s) ==> AllPositive(FrontRemoved(s, size))
    ensures forall x :: Covers(FrontRemoved(s, size), x) <==>
              Covers(s, x) && !Chunk(s[0].offset, Min(size, s[0].size)).Has(x)
  {
    hide Wf, AllPositive, Covers;
    FrontRemovedKeepsWf(s, size);
    forall x
      ensures Covers(FrontRemoved(s, size), x) <==>
                Covers(s, x) && !Chunk(s[0].offset, Min(size, s[0].size)).Has(x)
    {
      CoversTail(s, x);
      if size < s[0].size {
        CoversTail(FrontRemoved(s, size), x);
      }
    }
  }

  /** `CF_ChunkList_t`: the first count slots of the array are in use. */
  class ChunkList {
    var count: nat
    const maxChunks: nat
    const chunks: array<Chunk>

    ghost predicate Sized()
      reads this
    {
      0 < maxChunks == chunks.Length && count <= maxChunks
    }

    ghost function Contents(): seq<Chunk>
      reads this, chunks
      requires Sized()
    {
      chunks[..count]
    }

    ghost predicate Valid()
      reads this, chunks
    {
      Sized() && Wf(Contents())
    }

    /** `CF_ChunkListInit`, on freshly allocated chunk memory. */
    constructor (maxChunks: nat)
      requires 0 < maxChunks
      ensures Valid() && fresh(chunks) && this.maxChunks == maxChunks
      ensures Contents() == []
      ensures forall k :: 0 <= k < maxChunks ==> chunks[k] == Chunk(0, 0)
    {
      this.maxChunks := maxChunks;
      chunks := new Chunk[maxChunks](_ => Chunk(0, 0));
      count := 0;
    }

    method Reset()
      requires Sized()
      modifies this`count, chunks
      ensures Valid() && Contents() == []
      ensures forall k :: 0 <= k < maxChunks ==> chunks[k] == Chunk(0, 0)
    {
      count := 0;
      forall k | 0 <= k < maxChunks {
        chunks[k] := Chunk(0, 0);
      }
    }

    method EraseRange(start: nat, end: nat)
      requires Sized() && end <= count
      modifies this`count, chunks
      ensures Sized()
      ensures Contents() == if start < end then old(Contents())[..start] + old(Contents())[end..] else old(Contents())
    {
      if start < end {
        forall k | start <= k < start + (count - end) {
          chunks[k] := chunks[k + (end - start)];
        }
        count := count - (end - start);
      }
    }

    method EraseChunk(eraseIndex: nat)
      requires Sized() && eraseIndex < count
      modifies this`count, chunks
      ensures Sized()
      ensures Contents() == Without(old(Contents()), eraseIndex)
    {
      forall k | eraseIndex <= k < count - 1 {
        chunks[k] := chunks[k + 1];
      }
      count := count - 1;
    }

    method InsertChunk(indexBefore: nat, chunk: Chunk)
      requires Sized() && count < maxChunks && indexBefore <= count
      modifies this`count, chunks
      ensures Sized()
      ensures Contents() == old(Contents())[..indexBefore] + [chunk] + old(Contents())[indexBefore..]
    {
      if count != 0 && indexBefore != count {
        forall k | indexBefore + 1 <= k < count + 1 {
          chunks[k] := chunks[k - 1];
        }
      }
      chunks[indexBefore] := chunk;
      count := count + 1;
    }

    /** A lower bound by halving: everything before the result starts below the chunk, nothing from it on does. */
    method FindInsertPosition(chunk: Chunk) returns (first: nat)
      requires Valid()
      ensures IsLowerBound(Contents(), chunk.offset, first)
    {
      first := 0;
      var n := count;
      while n > 0
        invariant 0 <= n && first + n <= count
        invariant forall j :: 0 <= j < first ==> chunks[j].offset < chunk.offset
        invariant forall j :: first + n <= j < count ==> chunk.offset <= chunks[j].offset
      {
        var i := first;
        var step := n / 2;
        i := i + step;
        if chunks[i].offset < chunk.offset {
          assert forall j :: 0 <= j < i ==> Contents()[j].End() < Contents()[i].offset;
          first := i + 1;
          n := n - (step + 1);
        } else {
          assert forall j :: i < j < count ==> Contents()[i].End() < Contents()[j].offset;
          n := step;
        }
      }
    }

    method CombinePrevious(i: nat, chunk: Chunk) returns (combined: bool)
      requires Sized() && i <= count
      modifies chunks
      ensures Sized()
      ensures combined <==> FirstTouched(old(Contents()), chunk, i) != i
      ensures Contents() == if combined then old(Contents())[i - 1 := JoinPrevious(old(Contents())[i - 1], chunk)]
                            else old(Contents())
    {
      combined := false;
      if i > 0 {
        var chunkEnd := chunk.offset + chunk.size;
        var prev := chunks[i - 1];
        var prevEnd := prev.offset + prev.size;
        if chunk.offset <= prevEnd {
          if prevEnd < chunkEnd {
            chunks[i - 1] := prev.(size := chunkEnd - prev.offset);
          }
          combined := true;
        }
      }
    }

    /** The loop of `CF_Chunks_CombineNext`: how far a chunk with this end reaches. */
    method FindStop(i: nat, chunkEnd: nat) returns (combinedI: nat)
      requires Sized() && i <= count
      ensures i <= combinedI == NextStop(Contents(), i, chunkEnd) <= count
    {
      ghost var s := Contents();
      combinedI := i;
      while combinedI < count && chunkEnd >= chunks[combinedI].offset
        invariant i <= combinedI <= count
        invariant forall j :: i <= j < combinedI ==> s[j].offset <= chunkEnd
      {
        combinedI := combinedI + 1;
      }
      NextStopIs(s, i, chunkEnd, combinedI);
    }

    /** The end of `CF_Chunks_CombineNext`: one chunk takes the place of several. */
    method Replace(i: nat, combinedI: nat, joined: Chunk)
      requires Sized() && i < combinedI <= count
      modifies this`count, chunks
      ensures Sized()
      ensures Contents() == old(Contents())[..i] + [joined] + old(Contents())[combinedI..]
    {
      ghost var s := Contents();
      chunks[i] := joined;
      ghost var updated := Contents();
      EraseRange(i + 1, combinedI);
      JoinedInPlace(s, i, combinedI, joined, updated);
    }

    method CombineNext(i: nat, chunk: Chunk) returns (combined: bool)
      requires Sized() && i <= count
      modifies this`count, chunks
      ensures Sized()
      ensures combined <==> NextStop(old(Contents()), i, chunk.End()) != i
      ensures Contents() == if combined then JoinNext(old(Contents()), i, chunk) else old(Contents())
    {
      hide NextStop, JoinNext, Wf;
      var chunkEnd := chunk.offset + chunk.size;
      var combinedI := FindStop(i, chunkEnd);
      combined := i != combinedI;
      if combined {
        JoinNextIs(Contents(), i, chunk);
        chunkEnd := Max(chunks[combinedI - 1].offset + chunks[combinedI - 1].size, chunkEnd);
        Replace(i, combinedI, Chunk(chunk.offset, chunkEnd - chunk.offset));
      }
    }

    method FindSmallestSize() returns (smallest: nat)
      requires Sized()
      ensures smallest == if Contents() == [] then 0 else Smallest(Contents())
    {
      smallest := 0;
      var i := 1;
      while i < count
        invariant 1 <= i && (0 < count ==> i <= count && smallest == Smallest(chunks[..i]))
        invariant count == 0 ==> smallest == 0
      {
        assert chunks[..i + 1][..i] == chunks[..i];
        if chunks[i].size < chunks[smallest].size {
          smallest := i;
        }
        i := i + 1;
      }
    }

    /** The branch of `CF_Chunks_Insert` for a chunk that combines with nothing. */
    method InsertAlone(i: nat, chunk: Chunk)
      requires Valid() && IsLowerBound(Contents(), chunk.offset, i)
      requires NextStop(Contents(), i, chunk.End()) == i && FirstTouched(Contents(), chunk, i) == i
      modifies this`count, chunks
      ensures Sized()
      ensures Contents() == Added(old(Contents()), maxChunks, chunk)
    {
      AddedAlone(Contents(), maxChunks, chunk, i);
      if count < maxChunks {
        InsertChunk(i, chunk);
      } else {
        var smallestI := FindSmallestSize();
        if chunks[smallestI].size < chunk.size {
          EraseChunk(smallestI);
          var k := FindInsertPosition(chunk);
          InsertedAt(Contents(), chunk, k);
          InsertChunk(k, chunk);
        }
      }
    }

    method Insert(i: nat, chunk: Chunk)
      requires Valid() && chunk.End() < UINT32_LIMIT
      requires IsLowerBound(Contents(), chunk.offset, i)
      modifies this`count, chunks
      ensures Valid()
      ensures Contents() == Added(old(Contents()), maxChunks, chunk)
    {
      ghost var s := Contents();
      AddedKeepsWf(s, maxChunks, chunk);
      var next := CombineNext(i, chunk);
      if next {
        JoinNextAt(s, i, chunk);
        ghost var t := Contents();
        assert chunks[i] == t[i];
        var combined := CombinePrevious(i, chunks[i]);
        if combined {
          AddedByBoth(s, maxChunks, chunk, i);
          assert Contents() == t[i - 1 := JoinPrevious(s[i - 1], t[i])];
          EraseChunk(i);
        } else {
          AddedByNext(s, maxChunks, chunk, i);
        }
      } else {
        var combined := CombinePrevious(i, chunk);
        if !combined {
          InsertAlone(i, chunk);
        } else {
          AddedByPrevious(s, maxChunks, chunk, i);
        }
      }
    }

    /** `CF_ChunkListAdd`; the source asserts that offset + size does not wrap around in 32 bits. */
    method Add(offset: nat, size: nat)
      requires Valid() && offset + size < UINT32_LIMIT
      modifies this`count, chunks
      ensures Valid()
      ensures Contents() == Added(old(Contents()), maxChunks, Chunk(offset, size))
    {
      var chunk := Chunk(offset, size);
      var i := FindInsertPosition(chunk);
      Insert(i, chunk);
    }

    /** `CF_ChunkList_RemoveFromFirst`: drop up to size bytes from the front of the first chunk, never more. */
    method RemoveFromFirst(size: nat)
      requires Valid() && count > 0
      modifies this`count, chunks
      ensures Valid()
      ensures Contents() == FrontRemoved(old(Contents()), size)
    {
      ghost var s := Contents();
      FrontRemovedFacts(s, size);
      var n := if size > chunks[0].size then chunks[0].size else size;
      chunks[0] := chunks[0].(size := chunks[0].size - n);
      if chunks[0].size == 0 {
        EraseChunk(0);
      } else {
        chunks[0] := chunks[0].(offset := chunks[0].offset + n);
      }
      assert Contents() == FrontRemoved(s, size);
    }

    /** `CF_ChunkList_GetFirstChunk`; None stands for the null pointer. */
    method GetFirstChunk() returns (first: Option<Chunk>)
      requires Sized()
      ensures first == if Contents() == [] then None else Some(Contents()[0])
    {
      first := if count > 0 then Some(chunks[0]) else None;
    }

    /** `CF_ChunkList_ComputeGaps`: the gaps are what the callback receives, their number is what the function returns
        (also when there is no callback). */
    method ComputeGaps(maxGaps: nat, total: nat, start: nat) returns (ret: nat, gaps: seq<Chunk>)
      requires Valid() && start <= total
      ensures ret == |gaps|
      ensures gaps == ReportedGaps(Contents(), maxGaps, total, start)
    {
      hide Wf, ReportedGaps, WithLater;
      ghost var s := Contents();
      ghost var all := ReportedGaps(s, maxGaps, total, start);
      LaterStarts(s, maxGaps, total, start);
      ret, gaps := 0, [];
      if count == 0 {
        gaps := [Chunk(0, total)];
        ret := 1;
      } else {
        if start < chunks[0].offset {
          gaps := [Chunk(start, chunks[0].offset - start)];
          ret := 1;
        }
        var i := 0;
        ghost var left := if ret <= maxGaps then maxGaps - ret else 0;
        while ret < maxGaps && i < count
          invariant 0 <= i <= count && ret == |gaps|
          invariant if ret <= maxGaps then left == maxGaps - ret else left == 0
          invariant WithLater(gaps, s, i, left, total, start) == all
        {
          LaterUnfolds(gaps, s, i, left, total, start);
          var nextOff := if i == count - 1 then total else chunks[i + 1].offset;
          var gapStart := chunks[i].offset + chunks[i].size;
          var from := if gapStart > start then gapStart else start;
          if gapStart >= total {
            return;
          } else if start < nextOff {
            gaps := gaps + [Chunk(from, nextOff - from)];
            ret := ret + 1;
            left := left - 1;
          }
          i := i + 1;
        }
        LaterEnds(gaps, s, i, left, total, start);
      }
    }
  }
}
