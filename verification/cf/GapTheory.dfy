/**
 The gaps between the recorded chunks of a file: what `CF_ChunkList_ComputeGaps` reports (`ReportedGaps`), what is really
 missing (`MissingRuns`), and exactly when the two agree (`ReportedIsMissingIff`).
 */
module GapTheory {
  import opened ChunkTheory

  /** The maximal runs of bytes of [from, total) that no chunk of s covers, in order. */
  function MissingRuns(s: seq<Chunk>, from: nat, total: nat): seq<Chunk> {
    if from >= total then []
    else if s == [] then [Chunk(from, total - from)]
    else (if from < s[0].offset then [Chunk(from, Min(s[0].offset, total) - from)] else [])
         + MissingRuns(s[1..], Max(from, s[0].End()), total)
  }

  /** The gaps reported from the one behind chunk i on; n is how many more are wanted. */
  function GapsAfter(s: seq<Chunk>, i: nat, n: nat, total: nat, start: nat): seq<Chunk>
    requires Wf(s) && i <= |s|
    decreases |s| - i
  {
    if n == 0 || i == |s| || s[i].End() >= total then []
    else
      var next := if i == |s| - 1 then total else s[i + 1].offset;
      var from := Max(s[i].End(), start);
      if start < next then [Chunk(from, next - from)] + GapsAfter(s, i + 1, n - 1, total, start)
      else GapsAfter(s, i + 1, n, total, start)
  }

  /** What the function reports, whatever its arguments. */
  function ReportedGaps(s: seq<Chunk>, maxGaps: nat, total: nat, start: nat): seq<Chunk>
    requires Wf(s)
  {
    if s == [] then [Chunk(0, total)]
    else if start < s[0].offset then
      [Chunk(start, s[0].offset - start)] + GapsAfter(s, 0, if 1 < maxGaps then maxGaps - 1 else 0, total, start)
    else GapsAfter(s, 0, maxGaps, total, start)
  }

  // ---------------------------------------------------------------------------------------------------------------
  // The missing runs are what is missing
  // ---------------------------------------------------------------------------------------------------------------

  /** The run before the first chunk of s, if there is one. */
  function FirstRun(s: seq<Chunk>, from: nat, total: nat): seq<Chunk>
    requires s != []
  {
    if from < s[0].offset && from < total then [Chunk(from, Min(s[0].offset, total) - from)] else []
  }

  lemma MissingRunsCons(s: seq<Chunk>, from: nat, total: nat)
    requires s != []
    ensures MissingRuns(s, from, total)
            == FirstRun(s, from, total) + MissingRuns(s[1..], Max(from, s[0].End()), total)
  {
    if from >= total {
      assert MissingRuns(s[1..], Max(from, s[0].End()), total) == [];
    }
  }

  ghost predicate Within(g: seq<Chunk>, from: nat, total: nat) {
    forall i :: 0 <= i < |g| ==> from <= g[i].offset && g[i].End() <= total
  }

  lemma {:induction false} MissingRunsAreWithin(s: seq<Chunk>, from: nat, total: nat)
    ensures Within(MissingRuns(s, from, total), from, total) && AllPositive(MissingRuns(s, from, total))
  {
    if s != [] {
      MissingRunsCons(s, from, total);
      MissingRunsAreWithin(s[1..], Max(from, s[0].End()), total);
    }
  }

  lemma {:induction false} MissingRunsAreWf(s: seq<Chunk>, from: nat, total: nat)
    requires Wf(s) && AllPositive(s) && total < UINT32_LIMIT
    ensures Wf(MissingRuns(s, from, total))
  {
    if s != [] {
      var first, rest := FirstRun(s, from, total), MissingRuns(s[1..], Max(from, s[0].End()), total);
      MissingRunsCons(s, from, total);
      MissingRunsAreWf(s[1..], Max(from, s[0].End()), total);
      MissingRunsAreWithin(s[1..], Max(from, s[0].End()), total);
      if first != [] && rest != [] {
        assert first[0].End() <= s[0].offset < s[0].End() <= rest[0].offset;
      }
      WfConcat(first, rest);
    }
  }

  lemma CoversOne(c: Chunk, x: int)
    ensures Covers([c], x) <==> c.Has(x)
  {
    assert [c][0] == c;
  }

  lemma {:induction false} MissingRunsCover(s: seq<Chunk>, from: nat, total: nat, x: int)
    requires Wf(s)
    ensures Covers(MissingRuns(s, from, total), x) <==> from <= x < total && !Covers(s, x)
  {
    if s == [] {
      CoversOne(Chunk(from, if from < total then total - from else 0), x);
    } else {
      var from' := Max(from, s[0].End());
      MissingRunsCons(s, from, total);
      MissingRunsCover(s[1..], from', total, x);
      CoversConcat(FirstRun(s, from, total), MissingRuns(s[1..], from', total), x);
      CoversTail(s, x);
      if FirstRun(s, from, total) != [] {
        CoversOne(FirstRun(s, from, total)[0], x);
      }
    }
  }

  /** The missing runs are non-empty, sorted, disjoint and maximal, and consist of the uncovered bytes.  By
      `CanonicalForm` no other list has these properties. */
  lemma MissingRunsAreMissing(s: seq<Chunk>, from: nat, total: nat)
    requires Wf(s) && AllPositive(s) && total < UINT32_LIMIT
    ensures Wf(MissingRuns(s, from, total)) && AllPositive(MissingRuns(s, from, total))
    ensures Within(MissingRuns(s, from, total), from, total)
    ensures forall x :: Covers(MissingRuns(s, from, total), x) <==> from <= x < total && !Covers(s, x)
  {
    MissingRunsAreWf(s, from, total);
    MissingRunsAreWithin(s, from, total);
    forall x
      ensures Covers(MissingRuns(s, from, total), x) <==> from <= x < total && !Covers(s, x)
    {
      MissingRunsCover(s, from, total, x);
    }
  }

  // ---------------------------------------------------------------------------------------------------------------
  // Reported against missing
  // ---------------------------------------------------------------------------------------------------------------

  /** A chunk lies beyond the end of the file, and the bytes on both sides of the end are missing: the last gap then runs
      past the end. */
  ghost predicate Overruns(s: seq<Chunk>, total: nat) {
    (exists i :: 0 <= i < |s| && s[i].offset > total) && !Covers(s, total - 1) && !Covers(s, total)
  }

  lemma OverrunsTail(s: seq<Chunk>, total: nat)
    requires Wf(s) && s != [] && total > 0
    ensures Overruns(s, total) <==>
              (s[0].offset > total || Overruns(s[1..], total)) && !s[0].Has(total - 1) && !s[0].Has(total)
  {
    CoversTail(s, total - 1);
    CoversTail(s, total);
    if exists i :: 0 <= i < |s| && s[i].offset > total {
      var i :| 0 <= i < |s| && s[i].offset > total;
      assert i > 0 ==> s[1..][i - 1].offset > total;
    }
    if exists i :: 0 <= i < |s[1..]| && s[1..][i].offset > total {
      var i :| 0 <= i < |s[1..]| && s[1..][i].offset > total;
      assert s[i + 1].offset > total;
    }
  }

  ghost predicate Agrees(g: seq<Chunk>, m: seq<Chunk>, n: nat, total: nat, overrun: bool) {
    && |g| == Min(n, |m|)
    && (forall i :: 0 <= i < |g| ==> g[i].offset == m[i].offset)
    && (forall i :: 0 <= i < |g| && !(overrun && i == |m| - 1) ==> g[i] == m[i])
    && (overrun && |g| == |m| > 0 ==> g[|m| - 1].End() > total)
  }

  lemma AgreesCons(c: Chunk, d: Chunk, g: seq<Chunk>, m: seq<Chunk>, n: nat, total: nat, overrun: bool, overrun': bool)
    requires Agrees(g, m, n, total, overrun') && c.offset == d.offset
    requires m != [] ==> c == d && overrun == overrun'
    requires m == [] ==> if overrun then c.End() > total else c == d
    ensures Agrees([c] + g, [d] + m, n + 1, total, overrun)
  {
  }

  lemma {:induction false} GapsAfterAgrees(s: seq<Chunk>, i: nat, n: nat, total: nat, start: nat)
    requires Wf(s) && AllPositive(s) && i < |s| && start < total < UINT32_LIMIT
    ensures Agrees(GapsAfter(s, i, n, total, start), MissingRuns(s[i + 1..], Max(start, s[i].End()), total), n, total,
                   Overruns(s[i + 1..], total))
    decreases |s| - i
  {
    var rest := s[i + 1..];
    if i + 1 == |s| {
      assert rest == [] && !Overruns(rest, total);
      assert n > 0 ==> GapsAfter(s, i + 1, n - 1, total, start) == [];
    } else if n > 0 && s[i].End() < total {
      assert rest[0] == s[i + 1] && rest[1..] == s[i + 1 + 1..];
      GapsAfterAgrees(s, i + 1, if start < s[i + 1].offset then n - 1 else n, total, start);
      assert s[i].End() < s[i + 1].offset;
      GapsAfterStep(s, i, n, total, start);
    }
  }

  /** A reported gap before the first chunk of s, in front of gaps g that agree with the rest. */
  lemma AgreesStep(s: seq<Chunk>, from: nat, n: nat, total: nat, g: seq<Chunk>)
    requires Wf(s) && AllPositive(s) && s != [] && from < total < UINT32_LIMIT && from < s[0].offset && n > 0
    requires Agrees(g, MissingRuns(s[1..], Max(from, s[0].End()), total), n - 1, total, Overruns(s[1..], total))
    ensures Agrees([Chunk(from, s[0].offset - from)] + g, MissingRuns(s, from, total), n, total, Overruns(s, total))
  {
    GapStep(s, from, total);
    MissingRunsCons(s, from, total);
    AgreesCons(Chunk(from, s[0].offset - from), FirstRun(s, from, total)[0],
               g, MissingRuns(s[1..], Max(from, s[0].End()), total), n - 1, total,
               Overruns(s, total), Overruns(s[1..], total));
  }

  /** No gap before the first chunk of s. */
  lemma AgreesSkip(s: seq<Chunk>, from: nat, n: nat, total: nat, g: seq<Chunk>)
    requires Wf(s) && AllPositive(s) && s != [] && from < total < UINT32_LIMIT && from >= s[0].offset
    requires Agrees(g, MissingRuns(s[1..], Max(from, s[0].End()), total), n, total, Overruns(s[1..], total))
    ensures Agrees(g, MissingRuns(s, from, total), n, total, Overruns(s, total))
  {
    GapStep(s, from, total);
    MissingRunsCons(s, from, total);
    assert [] + MissingRuns(s[1..], Max(from, s[0].End()), total) == MissingRuns(s, from, total);
  }

  lemma GapsAfterStep(s: seq<Chunk>, i: nat, n: nat, total: nat, start: nat)
    requires Wf(s) && AllPositive(s) && i + 1 < |s| && start < total < UINT32_LIMIT
    requires n > 0 && s[i].End() < total && s[i].End() < s[i + 1].offset
    requires s[i + 1..][0] == s[i + 1]
    requires var n' := if start < s[i + 1].offset then n - 1 else n;
             Agrees(GapsAfter(s, i + 1, n', total, start),
                    MissingRuns(s[i + 1..][1..], Max(start, s[i + 1].End()), total), n', total,
                    Overruns(s[i + 1..][1..], total))
    ensures Agrees(GapsAfter(s, i, n, total, start), MissingRuns(s[i + 1..], Max(start, s[i].End()), total), n, total,
                   Overruns(s[i + 1..], total))
  {
    hide Agrees, MissingRuns, Overruns;
    var rest := s[i + 1..];
    var from := Max(start, s[i].End());
    assert Max(from, rest[0].End()) == Max(start, rest[0].End());
    if start < s[i + 1].offset {
      var g := GapsAfter(s, i + 1, n - 1, total, start);
      assert GapsAfter(s, i, n, total, start) == [Chunk(from, s[i + 1].offset - from)] + g;
      AgreesStep(rest, from, n, total, g);
    } else {
      AgreesSkip(rest, from, n, total, GapsAfter(s, i + 1, n, total, start));
    }
  }

  /** What the first chunk of s contributes: a missing run before it, and whether that run is the overrunning one. */
  lemma GapStep(s: seq<Chunk>, from: nat, total: nat)
    requires Wf(s) && AllPositive(s) && s != [] && from < total < UINT32_LIMIT
    ensures var rest := MissingRuns(s[1..], Max(from, s[0].End()), total);
            && (rest != [] ==> s[0].offset < total)
            && (rest != [] ==> (Overruns(s, total) <==> Overruns(s[1..], total)))
            && (rest == [] && from < s[0].offset ==> (Overruns(s, total) <==> s[0].offset > total))
            && (from >= s[0].offset && rest == [] ==> !Overruns(s, total))
  {
    OverrunsTail(s, total);
    var from' := Max(from, s[0].End());
    if !Covers(s[1..], total - 1) && from' < total {
      LastRunReachesEnd(s[1..], from', total);
    }
  }

  /** When the reported gaps are right: there is a chunk, or reporting starts at 0; at least one gap is asked for if the
      first one is already there; and no chunk beyond the end of the file stretches the last reported gap. */
  ghost predicate GapsComeOutRight(s: seq<Chunk>, maxGaps: nat, total: nat, start: nat) {
    && (s == [] ==> start == 0)
    && (s == [] || start < s[0].offset ==> maxGaps > 0)
    && (s != [] && Overruns(s, total) ==> |MissingRuns(s, start, total)| > maxGaps)
  }

  lemma AgreesIff(g: seq<Chunk>, m: seq<Chunk>, n: nat, total: nat, overrun: bool)
    requires Agrees(g, m, n, total, overrun)
    requires overrun ==> m != [] && m[|m| - 1].End() <= total
    ensures g == m[..Min(n, |m|)] <==> !overrun || |m| > n
  {
    if overrun && |m| <= n {
      assert g[|m| - 1] != m[|m| - 1];
    }
  }

  /** Exactly when the function reports the first maxGaps missing runs of [start, total). */
  lemma ReportedIsMissingIff(s: seq<Chunk>, maxGaps: nat, total: nat, start: nat)
    requires Wf(s) && AllPositive(s) && start < total < UINT32_LIMIT
    ensures ReportedGaps(s, maxGaps, total, start)
            == MissingRuns(s, start, total)[..Min(maxGaps, |MissingRuns(s, start, total)|)]
            <==> GapsComeOutRight(s, maxGaps, total, start)
  {
    var m := MissingRuns(s, start, total);
    if s == [] {
      assert m[..1] == m == [Chunk(start, total - start)];
    } else if start < s[0].offset && maxGaps == 0 {
      assert |ReportedGaps(s, maxGaps, total, start)| == 1 && |m[..0]| == 0;
    } else {
      ReportedAgrees(s, maxGaps, total, start);
      MissingRunsAreMissing(s, start, total);
      if Overruns(s, total) {
        LastRunReachesEnd(s, start, total);
      }
      AgreesIff(ReportedGaps(s, maxGaps, total, start), m, maxGaps, total, Overruns(s, total));
    }
  }

  lemma ReportedAgrees(s: seq<Chunk>, maxGaps: nat, total: nat, start: nat)
    requires Wf(s) && AllPositive(s) && s != [] && start < total < UINT32_LIMIT
    requires start < s[0].offset ==> maxGaps > 0
    ensures Agrees(ReportedGaps(s, maxGaps, total, start), MissingRuns(s, start, total), maxGaps, total,
                   Overruns(s, total))
  {
    hide Wf, AllPositive, Agrees, MissingRuns, Overruns, GapsAfter;
    var n := if start < s[0].offset then maxGaps - 1 else maxGaps;
    GapsAfterAgrees(s, 0, n, total, start);
    if start < s[0].offset {
      AgreesStep(s, start, maxGaps, total, GapsAfter(s, 0, n, total, start));
    } else {
      AgreesSkip(s, start, maxGaps, total, GapsAfter(s, 0, n, total, start));
    }
  }

  /** If the last byte of the file is missing there is a missing run. */
  lemma LastRunReachesEnd(s: seq<Chunk>, start: nat, total: nat)
    requires Wf(s) && AllPositive(s) && start < total < UINT32_LIMIT && !Covers(s, total - 1)
    ensures MissingRuns(s, start, total) != []
  {
    MissingRunsAreMissing(s, start, total);
    assert Covers(MissingRuns(s, start, total), total - 1);
  }

  /** Asking for one gap from 0 on decides whether the file is complete, even with empty chunks in the list or chunks
      beyond the end. */
  lemma NoGapIff(s: seq<Chunk>, total: nat)
    requires Wf(s) && 0 < total
    ensures ReportedGaps(s, 1, total, 0) == [] <==> forall x :: 0 <= x < total ==> Covers(s, x)
  {
    if s == [] {
      assert !Covers(s, 0);
    } else if s[0].offset == 0 && s[0].End() >= total {
      forall x | 0 <= x < total
        ensures Covers(s, x)
      {
        assert s[0].Has(x);
      }
    } else {
      assert ReportedGaps(s, 1, total, 0) != [];
      var x := if s[0].offset == 0 then s[0].End() else 0;
      assert forall i :: 0 < i < |s| ==> s[0].End() < s[i].offset;
      assert !Covers(s, x);
    }
  }

  /** For a file of no bytes the answer is wrong unless an empty or other chunk at offset 0 is recorded: the empty list
      yields the gap of size 0 that starts at 0. */
  lemma EmptyFileGapIff(s: seq<Chunk>)
    requires Wf(s)
    ensures ReportedGaps(s, 1, 0, 0) == [] <==> s != [] && s[0].offset == 0
  {
  }
}
