/**
 How a class-2 receiver asks for missing data and what the sender makes of it: the gaps of the chunk list become the segment
 requests of a NAK (`cf_cfdp_r.c`), the NAK becomes bytes and is read back (`cf_codec.c`), and the sender records the
 requested pieces in a chunk list of its own (`cf_cfdp_s.c`).
 */
module NakRequests {
  import opened PduFormat
  import opened PduRoundTrip
  import opened ChunkTheory
  import opened GapTheory
  import opened ChunkList

  // ---------------------------------------------------------------------------------------------------------------
  // The receiver's side
  // ---------------------------------------------------------------------------------------------------------------

  /** A gap as a segment request relative to the start of the scope, in 32-bit arithmetic. */
  function SegmentFor(gap: Chunk, scopeStart: nat): Segment {
    var from := (gap.offset - scopeStart) % UINT32;
    Segment(from, (from + gap.size) % UINT32)
  }

  function SegmentsFor(gaps: seq<Chunk>, scopeStart: nat): seq<Segment> {
    seq(Min(|gaps|, MAX_SEGMENTS), i requires 0 <= i < Min(|gaps|, MAX_SEGMENTS) => SegmentFor(gaps[i], scopeStart))
  }

  /** The NAK under construction, as the gap callback sees it. */
  class NakBuffer {
    var scopeStart: nat
    var scopeEnd: nat
    var segments: seq<Segment>

    constructor ()
      ensures scopeStart == 0 && scopeEnd == 0 && segments == []
    {
      scopeStart, scopeEnd, segments := 0, 0, [];
    }

    /** `CF_CFDP_R2_GapCompute`; its assertion that the gap is not empty is compiled out of a release build, and a file of
        no bytes would violate it. */
    method GapCompute(gap: Chunk)
      modifies this`segments
      ensures segments == if |old(segments)| < MAX_SEGMENTS then old(segments) + [SegmentFor(gap, scopeStart)]
                          else old(segments)
    {
      if |segments| < MAX_SEGMENTS {
        var from := (gap.offset - scopeStart) % UINT32;
        segments := segments + [Segment(from, (from + gap.size) % UINT32)];
      }
    }

    /** The callback for one gap after the other. */
    method AddGaps(gaps: seq<Chunk>)
      requires segments == []
      modifies this`segments
      ensures segments == SegmentsFor(gaps, scopeStart)
    {
      var i := 0;
      while i < |gaps|
        invariant 0 <= i <= |gaps| && segments == SegmentsFor(gaps[..i], scopeStart)
      {
        GapCompute(gaps[i]);
        i := i + 1;
      }
      assert gaps[..i] == gaps;
    }
  }

  /** How many gaps are asked for: all there can be, unless the list is full. */
  function GapLimit(count: nat, max: nat): nat
    requires 0 < max
  {
    if count < max then max else max - 1
  }

  function NakFor(s: seq<Chunk>, max: nat, fsize: nat): Nak
    requires Wf(s) && 0 < max
  {
    Nak(0, 0, SegmentsFor(ReportedGaps(s, GapLimit(|s|, max), fsize, 0), 0))
  }

  /** The NAK part of `CF_CFDP_R_SubstateSendNak` once metadata is there; None if there is no gap, and then the transaction is
      complete. */
  method BuildNak(chunks: ChunkList, fsize: nat) returns (gapCount: nat, nak: Nak)
    requires chunks.Valid() && fsize < UINT32
    ensures gapCount == |ReportedGaps(chunks.Contents(), GapLimit(|chunks.Contents()|, chunks.maxChunks), fsize, 0)|
    ensures gapCount > 0 ==> nak == NakFor(chunks.Contents(), chunks.maxChunks, fsize)
  {
    var limit := if chunks.count < chunks.maxChunks then chunks.maxChunks else chunks.maxChunks - 1;
    var buffer := new NakBuffer();
    var gaps;
    gapCount, gaps := chunks.ComputeGaps(limit, fsize, 0);
    buffer.AddGaps(gaps);
    nak := Nak(buffer.scopeStart, buffer.scopeEnd, buffer.segments);
  }

  /** A file of no bytes with nothing recorded: the NAK is the one that asks for metadata. */
  lemma EmptyFileAsksForMetadata(max: nat)
    requires 0 < max
    ensures NakFor([], max, 0) == Nak(0, 0, [Segment(0, 0)])
  {
    assert ReportedGaps([], max, 0, 0) == [Chunk(0, 0)];
    assert SegmentFor(Chunk(0, 0), 0) == Segment(0, 0);
  }

  lemma GapsArePositive(s: seq<Chunk>, maxGaps: nat, total: nat)
    requires Wf(s) && 0 < total
    ensures AllPositive(ReportedGaps(s, maxGaps, total, 0))
  {
    if s != [] {
      GapsAfterArePositive(s, 0, if 0 < s[0].offset then if 1 < maxGaps then maxGaps - 1 else 0 else maxGaps, total);
    }
  }

  lemma {:induction false} GapsAfterArePositive(s: seq<Chunk>, i: nat, n: nat, total: nat)
    requires Wf(s) && i <= |s|
    ensures AllPositive(GapsAfter(s, i, n, total, 0))
    decreases |s| - i
  {
    if n > 0 && i < |s| && s[i].End() < total {
      var next := if i == |s| - 1 then total else s[i + 1].offset;
      GapsAfterArePositive(s, i + 1, if 0 < next then n - 1 else n, total);
    }
  }

  // ---------------------------------------------------------------------------------------------------------------
  // The sender's side
  // ---------------------------------------------------------------------------------------------------------------

  /** The sender's chunk list after the segment requests, in order; (0, 0) asks for metadata and malformed or overlong
      requests are skipped. */
  function Recorded(list: seq<Chunk>, max: nat, segments: seq<Segment>, fsize: nat): seq<Chunk> {
    if segments == [] then list
    else
      var n := |segments| - 1;
      var before := Recorded(list, max, segments[..n], fsize);
      var sr := segments[n];
      if sr == Segment(0, 0) || sr.offsetEnd < sr.offsetStart || sr.offsetEnd > fsize then before
      else Added(before, max, Chunk(sr.offsetStart, sr.offsetEnd - sr.offsetStart))
  }

  lemma RecordedNext(list: seq<Chunk>, max: nat, segments: seq<Segment>, fsize: nat, i: nat)
    requires i < |segments|
    ensures var sr, before := segments[i], Recorded(list, max, segments[..i], fsize);
            Recorded(list, max, segments[..i + 1], fsize)
            == if sr == Segment(0, 0) || sr.offsetEnd < sr.offsetStart || sr.offsetEnd > fsize then before
               else Added(before, max, Chunk(sr.offsetStart, sr.offsetEnd - sr.offsetStart))
  {
    hide Added;
    assert segments[..i + 1][..i] == segments[..i];
  }

  /** The loop over the segment requests in the sender's NAK handler. */
  method RecordRequests(nak: Nak, fsize: nat, chunks: ChunkList) returns (needMetadata: bool)
    requires chunks.Valid() && fsize < UINT32
    modifies chunks`count, chunks.chunks
    ensures chunks.Valid()
    ensures chunks.Contents() == Recorded(old(chunks.Contents()), chunks.maxChunks, nak.segments, fsize)
    ensures needMetadata <==> Segment(0, 0) in nak.segments
  {
    hide Recorded, Added;
    ghost var list := chunks.Contents();
    needMetadata := false;
    var counter := 0;
    assert nak.segments[..0] == [];
    NothingRecorded(list, chunks.maxChunks, fsize);
    while counter < |nak.segments|
      invariant 0 <= counter <= |nak.segments| && chunks.Valid()
      invariant chunks.Contents() == Recorded(list, chunks.maxChunks, nak.segments[..counter], fsize)
      invariant needMetadata <==> Segment(0, 0) in nak.segments[..counter]
    {
      var sr := nak.segments[counter];
      RecordedNext(list, chunks.maxChunks, nak.segments, fsize, counter);
      if sr.offsetStart == 0 && sr.offsetEnd == 0 {
        needMetadata := true;
      } else if sr.offsetStart <= sr.offsetEnd <= fsize {
        chunks.Add(sr.offsetStart, sr.offsetEnd - sr.offsetStart);
      }
      counter := counter + 1;
    }
    assert nak.segments[..counter] == nak.segments;
  }

  lemma NothingRecorded(list: seq<Chunk>, max: nat, fsize: nat)
    ensures Recorded(list, max, [], fsize) == list
  {
  }

  /** What one request leaves on an empty list: a request for no byte at all, other than (0, 0), is recorded too. */
  lemma OneRequest(max: nat, sr: Segment, fsize: nat)
    requires 0 < max
    ensures Recorded([], max, [sr], fsize)
            == if sr.offsetEnd < sr.offsetStart || sr.offsetEnd > fsize || sr.offsetStart + sr.offsetEnd == 0 then []
               else [Chunk(sr.offsetStart, sr.offsetEnd - sr.offsetStart)]
  {
    RecordedNext([], max, [sr], fsize, 0);
    assert [sr][..0] == [] && [sr][..1] == [sr];
  }

  // ---------------------------------------------------------------------------------------------------------------
  // Both sides together
  // ---------------------------------------------------------------------------------------------------------------

  lemma SegmentOfGap(gap: Chunk)
    requires gap.size > 0 && gap.End() < UINT32
    ensures SegmentFor(gap, 0) == Segment(gap.offset, gap.End()) && SegmentFits(SegmentFor(gap, 0))
  {
  }

  /** Adding the scope start back gives the gap. */
  lemma ScopeIsUndone(gap: Chunk, scopeStart: nat)
    requires scopeStart <= gap.offset && gap.End() < UINT32
    ensures var sr := SegmentFor(gap, scopeStart);
            gap == Chunk(scopeStart + sr.offsetStart, sr.offsetEnd - sr.offsetStart) && SegmentFits(sr)
  {
  }

  /** Everything a list contains ends below 2^32, so its gaps do. */
  lemma {:induction false} GapsAfterEndBelow(s: seq<Chunk>, i: nat, n: nat, total: nat)
    requires Wf(s) && i <= |s| && total < UINT32
    ensures forall k :: 0 <= k < |GapsAfter(s, i, n, total, 0)| ==> GapsAfter(s, i, n, total, 0)[k].End() < UINT32
    decreases |s| - i
  {
    if n > 0 && i < |s| && s[i].End() < total {
      var next := if i == |s| - 1 then total else s[i + 1].offset;
      assert next <= total || next <= s[i + 1].End();
      GapsAfterEndBelow(s, i + 1, if 0 < next then n - 1 else n, total);
    }
  }

  lemma GapsEndBelow(s: seq<Chunk>, maxGaps: nat, total: nat)
    requires Wf(s) && total < UINT32
    ensures forall k :: 0 <= k < |ReportedGaps(s, maxGaps, total, 0)| ==> ReportedGaps(s, maxGaps, total, 0)[k].End() < UINT32
  {
    if s != [] {
      assert s[0].offset <= s[0].End() < UINT32;
      GapsAfterEndBelow(s, 0, if 0 < s[0].offset then if 1 < maxGaps then maxGaps - 1 else 0 else maxGaps, total);
    }
  }

  /** The NAK for any chunk list and any file that is not empty fits its fields. */
  lemma NakForFits(s: seq<Chunk>, max: nat, fsize: nat)
    requires Wf(s) && 0 < max && 0 < fsize < UINT32
    ensures NakFits(NakFor(s, max, fsize))
  {
    var gaps := ReportedGaps(s, GapLimit(|s|, max), fsize, 0);
    GapsEndBelow(s, GapLimit(|s|, max), fsize);
    GapsArePositive(s, GapLimit(|s|, max), fsize);
    forall i | 0 <= i < |SegmentsFor(gaps, 0)|
      ensures SegmentFits(SegmentsFor(gaps, 0)[i])
    {
      SegmentOfGap(gaps[i]);
    }
  }

  /** The NAK survives the wire. */
  lemma NakIsDelivered(s: seq<Chunk>, max: nat, fsize: nat)
    requires Wf(s) && 0 < max && 0 < fsize < UINT32
    ensures ReadNak(NakBytes(NakFor(s, max, fsize)), 0)
            == Got(NakFor(s, max, fsize), |NakBytes(NakFor(s, max, fsize))|)
  {
    hide ReadNak, NakBytes, NakFits;
    NakForFits(s, max, fsize);
    NakSurvivesIff(NakFor(s, max, fsize));
  }

  /** A chunk behind all others of a list with a free slot is appended. */
  lemma AddedAppends(s: seq<Chunk>, max: nat, c: Chunk)
    requires Wf(s + [c]) && |s| < max
    ensures Added(s, max, c) == s + [c]
  {
    assert (s + [c])[|s|] == c;
    forall i | 0 <= i < |s|
      ensures s[i].End() < c.offset
    {
      assert (s + [c])[i] == s[i];
    }
    assert EndingBefore(s, c.offset) == |s|;
    assert StartingBy(s, c.End()) == |s|;
    assert s[..|s|] == s && s[|s|..] == [];
  }

  /** The sender appends the gaps that end within the file. */
  lemma {:induction false} RecordedGaps(gaps: seq<Chunk>, n: nat, max: nat, fsize: nat)
    requires Wf(gaps) && AllPositive(gaps) && n <= |gaps| && n <= MAX_SEGMENTS && n <= max
    requires forall i :: 0 <= i < n ==> gaps[i].End() <= fsize
    ensures Recorded([], max, SegmentsFor(gaps, 0)[..n], fsize) == gaps[..n]
  {
    hide Wf, AllPositive, SegmentFor, Recorded, Added;
    var srs := SegmentsFor(gaps, 0);
    if n > 0 {
      RecordedGaps(gaps, n - 1, max, fsize);
      RecordedNext([], max, srs, fsize, n - 1);
      IsPositive(gaps, n - 1);
      SegmentOfGap(gaps[n - 1]);
      PrefixIsWf(gaps, n);
      assert gaps[..n] == gaps[..n - 1] + [gaps[n - 1]];
      AddedAppends(gaps[..n - 1], max, gaps[n - 1]);
      assert srs[..n - 1 + 1] == srs[..n];
    } else {
      assert srs[..0] == [] && gaps[..0] == [];
      NothingRecorded([], max, fsize);
    }
  }

  lemma PrefixIsWf(s: seq<Chunk>, n: nat)
    requires Wf(s) && n <= |s|
    ensures Wf(s[..n])
  {
  }

  lemma {:induction false} MissingRunsAreFew(s: seq<Chunk>, from: nat, total: nat)
    ensures |MissingRuns(s, from, total)| <= |s| + 1
  {
    if s != [] {
      MissingRunsCons(s, from, total);
      MissingRunsAreFew(s[1..], Max(from, s[0].End()), total);
    }
  }

  /** The limit that takes effect: the gap before the first chunk is reported even if none is asked for. */
  function EffectiveLimit(s: seq<Chunk>, max: nat): nat
    requires 0 < max
  {
    var n := if |s| < max then max else max - 1;
    Min(if s != [] && 0 < s[0].offset then Max(n, 1) else n, 58)
  }

  /** How many missing runs the sender learns of: as many as one NAK holds, but not the last run of the file if a chunk
      beyond the end has stretched its request. */
  ghost function LearnedRuns(s: seq<Chunk>, max: nat, fsize: nat): nat
    requires 0 < max
  {
    var m, e := |MissingRuns(s, 0, fsize)|, EffectiveLimit(s, max);
    if m <= e then if Overruns(s, fsize) && m > 0 then m - 1 else m else e
  }

  /** A NAK, delivered to a sender that has nothing to resend yet, makes it resend the first missing runs: all of them but
      for two exceptions, the capacity of the NAK and a chunk beyond the end of the file. */
  lemma SenderLearnsMissing(s: seq<Chunk>, max: nat, fsize: nat, senderMax: nat)
    requires Wf(s) && AllPositive(s) && 0 < max && 0 < fsize < UINT32 && MAX_SEGMENTS <= senderMax
    ensures LearnedRuns(s, max, fsize) <= |MissingRuns(s, 0, fsize)|
    ensures Recorded([], senderMax, NakFor(s, max, fsize).segments, fsize)
            == MissingRuns(s, 0, fsize)[..LearnedRuns(s, max, fsize)]
  {
    hide Overruns, MissingRuns, ReportedGaps, Recorded, Wf, AllPositive, Within, SegmentFor;
    var m, e, overrun := MissingRuns(s, 0, fsize), EffectiveLimit(s, max), Overruns(s, fsize);
    var g := ReportedGaps(s, GapLimit(|s|, max), fsize, 0);
    ReportedAgreesWith(s, max, fsize);
    MissingRunsAreMissing(s, 0, fsize);
    var k := LearnedRuns(s, max, fsize);
    var srs := SegmentsFor(g, 0);
    assert srs[..k] == SegmentsFor(m, 0)[..k];
    LearnedEndInside(m, k, fsize);
    RecordedGaps(m, k, senderMax, fsize);
    if k < |srs| {
      assert k == |m| - 1 && overrun && |srs| == |m|;
      assert g[k].End() > fsize;
      GapsEndBelow(s, GapLimit(|s|, max), fsize);
      GapsArePositive(s, GapLimit(|s|, max), fsize);
      PositiveAt(g, k);
      SegmentOfGap(g[k]);
      RecordedNext([], senderMax, srs, fsize, k);
    }
    assert srs[..|srs|] == srs;
  }

  lemma IsPositive(g: seq<Chunk>, k: nat)
    requires Wf(g) && AllPositive(g) && k < |g|
    ensures g[k].size > 0 && g[k].End() < UINT32
  {
  }

  lemma PositiveAt(g: seq<Chunk>, k: nat)
    requires AllPositive(g) && k < |g|
    ensures g[k].size > 0
  {
  }

  lemma LearnedEndInside(m: seq<Chunk>, k: nat, fsize: nat)
    requires Within(m, 0, fsize) && k <= |m|
    ensures forall i :: 0 <= i < k ==> m[i].End() <= fsize
  {
  }

  lemma ReportedAgreesWith(s: seq<Chunk>, max: nat, fsize: nat)
    requires Wf(s) && AllPositive(s) && 0 < max && 0 < fsize < UINT32
    ensures var m, e, overrun := MissingRuns(s, 0, fsize), EffectiveLimit(s, max), Overruns(s, fsize);
            var g := ReportedGaps(s, GapLimit(|s|, max), fsize, 0);
            && Min(|g|, MAX_SEGMENTS) == Min(e, |m|)
            && (forall i :: 0 <= i < Min(e, |m|) && !(overrun && i == |m| - 1) ==> g[i] == m[i])
            && (overrun && 0 < |m| <= e ==> g[|m| - 1].End() > fsize)
  {
    var n := GapLimit(|s|, max);
    var m := MissingRuns(s, 0, fsize);
    if s == [] {
      assert m == [Chunk(0, fsize)] == ReportedGaps(s, n, fsize, 0) && !Overruns(s, fsize);
    } else {
      hide Overruns, MissingRuns, Wf, AllPositive;
      var n' := if 0 < s[0].offset then Max(n, 1) else n;
      assert ReportedGaps(s, n, fsize, 0) == ReportedGaps(s, n', fsize, 0);
      ReportedAgrees(s, n', fsize, 0);
    }
  }

  /** If the receiver's list is not full and no chunk lies beyond the end, one NAK teaches the sender exactly what is
      missing. */
  lemma SenderLearnsAll(s: seq<Chunk>, max: nat, fsize: nat, senderMax: nat)
    requires Wf(s) && AllPositive(s) && |s| < max <= MAX_SEGMENTS <= senderMax && 0 < fsize < UINT32
    requires !Overruns(s, fsize)
    ensures Recorded([], senderMax, NakFor(s, max, fsize).segments, fsize) == MissingRuns(s, 0, fsize)
  {
    hide Overruns, MissingRuns, Wf, AllPositive, Recorded, NakFor;
    SenderLearnsMissing(s, max, fsize, senderMax);
    MissingRunsAreFew(s, 0, fsize);
    var m := MissingRuns(s, 0, fsize);
    assert m[..|m|] == m;
  }

  /** If only the last run is missing, and a chunk beyond the end stretches it, the sender learns nothing: repeating the NAK
      never completes the file. */
  lemma StretchedNakIsUseless(s: seq<Chunk>, max: nat, fsize: nat, senderMax: nat)
    requires Wf(s) && AllPositive(s) && 0 < max && 0 < fsize < UINT32 && MAX_SEGMENTS <= senderMax
    requires Overruns(s, fsize) && |MissingRuns(s, 0, fsize)| == 1 <= EffectiveLimit(s, max)
    ensures Recorded([], senderMax, NakFor(s, max, fsize).segments, fsize) == []
  {
    hide Overruns, MissingRuns, Wf, AllPositive, Recorded, NakFor;
    SenderLearnsMissing(s, max, fsize, senderMax);
  }

  lemma EmptyPieceGaps(max: nat)
    requires 1 < max
    ensures Wf([Chunk(5, 0)]) && ReportedGaps([Chunk(5, 0)], max, 10, 0) == [Chunk(0, 5), Chunk(5, 5)]
    ensures MissingRuns([Chunk(5, 0)], 0, 10) == [Chunk(0, 5), Chunk(5, 5)]
  {
    var s := [Chunk(5, 0)];
    assert s[1..] == [];
    assert GapsAfter(s, 1, max - 2, 10, 0) == [];
    assert GapsAfter(s, 0, max - 1, 10, 0) == [Chunk(5, 5)] + GapsAfter(s, 1, max - 2, 10, 0);
  }

  lemma EmptyPieceAdded(max: nat)
    requires 1 < max
    ensures Added([], max, Chunk(5, 0)) == [Chunk(5, 0)]
    ensures Added([], max, Chunk(0, 5)) == [Chunk(0, 5)] && Added([Chunk(0, 5)], max, Chunk(5, 5)) == [Chunk(0, 10)]
  {
    AddedFirst(max, Chunk(5, 0));
    AddedFirst(max, Chunk(0, 5));
  }

  lemma AddedFirst(max: nat, c: Chunk)
    requires 0 < max && c.End() < UINT32
    ensures Added([], max, c) == [c]
  {
    hide Added;
    assert [] + [c] == [c];
    AddedAppends([], max, c);
  }

  /** An empty piece is recorded as well, and splits the gap it lies in: the NAK asks for two touching runs, which the sender
      joins. */
  lemma EmptyPieceSplitsGap(max: nat)
    requires 1 < max
    ensures Added([], max, Chunk(5, 0)) == [Chunk(5, 0)]
    ensures Wf([Chunk(5, 0)]) && MissingRuns([Chunk(5, 0)], 0, 10) == [Chunk(0, 5), Chunk(5, 5)]
    ensures NakFor([Chunk(5, 0)], max, 10) == Nak(0, 0, [Segment(0, 5), Segment(5, 10)])
    ensures Recorded([], max, [Segment(0, 5), Segment(5, 10)], 10) == [Chunk(0, 10)]
  {
    hide Wf, ReportedGaps, MissingRuns, Added, Recorded;
    EmptyPieceGaps(max);
    EmptyPieceAdded(max);
    assert NakFor([Chunk(5, 0)], max, 10).segments == [Segment(0, 5), Segment(5, 10)];
    var srs := [Segment(0, 5), Segment(5, 10)];
    assert srs[..0] == [] && srs[..2] == srs;
    NothingRecorded([], max, 10);
    RecordedNext([], max, srs, 10, 0);
    RecordedNext([], max, srs, 10, 1);
  }
}
