/**
 NAKs in several rounds: in each one the receiver asks for what is missing, the sender resends it in pieces, and the pieces
 arrive in any order, several times or not at all.
 */
module Rounds {
  import opened ChunkTheory
  import opened GapTheory
  import opened PduFormat
  import opened NakRequests
  import opened Resending

  /** A receiver's list that can ask for everything: a free slot, and no chunk beyond the file that would stretch a request. */
  ghost predicate CanAsk(s: seq<Chunk>, max: nat, fsize: nat) {
    Wf(s) && AllPositive(s) && |s| < max && !Overruns(s, fsize)
  }

  /** What arrives in a round are pieces of what the sender records, of each piece any number of copies and in any order. */
  ghost predicate Round(s: seq<Chunk>, max: nat, fsize: nat, senderMax: nat, arrived: seq<Chunk>)
    requires Wf(s) && 0 < max
  {
    exists pieces :: Splits(pieces, Recorded([], senderMax, NakFor(s, max, fsize).segments, fsize))
                     && forall c :: c in arrived ==> c in pieces
  }

  ghost function MissingBytes(s: seq<Chunk>, fsize: nat): set<int> {
    set x: int | 0 <= x < fsize && !Covers(s, x)
  }

  // ---------------------------------------------------------------------------------------------------------------
  // One round
  // ---------------------------------------------------------------------------------------------------------------

  lemma {:induction false} PiecesArePositive(pieces: seq<Chunk>, runs: seq<Chunk>, c: Chunk)
    requires Splits(pieces, runs) && c in pieces
    ensures c.size > 0
    decreases |pieces|
  {
    if c != pieces[0] {
      PiecesArePositive(pieces[1..], Tail(runs[0], pieces[0].End()) + runs[1..], c);
    }
  }

  lemma MemberCovers(cs: seq<Chunk>, c: Chunk, x: int)
    requires c in cs && c.Has(x)
    ensures Covers(cs, x)
  {
  }

  /** Every piece is a non-empty part of what is missing. */
  lemma PieceIsMissing(s: seq<Chunk>, max: nat, fsize: nat, senderMax: nat, arrived: seq<Chunk>, c: Chunk)
    requires CanAsk(s, max, fsize) && max <= MAX_SEGMENTS <= senderMax && 0 < fsize < UINT32
    requires Round(s, max, fsize, senderMax, arrived) && c in arrived
    ensures c.size > 0 && c.End() <= fsize && forall x :: c.Has(x) ==> 0 <= x < fsize && !Covers(s, x)
  {
    hide Wf, AllPositive, Overruns, Splits, Recorded, NakFor, MissingRuns, Covers;
    SenderLearnsAll(s, max, fsize, senderMax);
    var pieces :| Splits(pieces, Recorded([], senderMax, NakFor(s, max, fsize).segments, fsize))
                  && forall c :: c in arrived ==> c in pieces;
    PiecesArePositive(pieces, MissingRuns(s, 0, fsize), c);
    MissingRunsAreMissing(s, 0, fsize);
    forall x | c.Has(x)
      ensures 0 <= x < fsize && !Covers(s, x)
    {
      MemberCovers(pieces, c, x);
      SplitCovers(pieces, MissingRuns(s, 0, fsize), x);
    }
    assert c.Has(c.End() - 1);
  }

  lemma ArrivedAreSmall(s: seq<Chunk>, max: nat, fsize: nat, senderMax: nat, arrived: seq<Chunk>)
    requires CanAsk(s, max, fsize) && max <= MAX_SEGMENTS <= senderMax && 0 < fsize < UINT32
    requires Round(s, max, fsize, senderMax, arrived)
    ensures Small(arrived)
    ensures forall x :: Covers(arrived, x) ==> 0 <= x < fsize && !Covers(s, x)
  {
    hide CanAsk, Round;
    forall i | 0 <= i < |arrived|
      ensures 0 < arrived[i].size && arrived[i].End() <= fsize
      ensures forall x :: arrived[i].Has(x) ==> 0 <= x < fsize && !Covers(s, x)
    {
      PieceIsMissing(s, max, fsize, senderMax, arrived, arrived[i]);
    }
  }

  lemma {:induction false} AddAllKeepsWf(s: seq<Chunk>, max: nat, cs: seq<Chunk>)
    requires Wf(s) && AllPositive(s) && |s| <= max && 0 < max && Small(cs)
    ensures Wf(AddAll(s, max, cs)) && AllPositive(AddAll(s, max, cs)) && |AddAll(s, max, cs)| <= max
    decreases |cs|
  {
    hide Wf, AllPositive, Added, Small;
    if cs != [] {
      SmallParts(cs);
      AddedKeepsWf(s, max, cs[0]);
      AddAllKeepsWf(Added(s, max, cs[0]), max, cs[1..]);
    }
  }

  /** Whether a chunk beyond the file stretches the last request depends on the coverage only. */
  lemma OverrunsIff(s: seq<Chunk>, fsize: nat)
    requires Wf(s) && AllPositive(s)
    ensures Overruns(s, fsize) <==> (exists y :: y > fsize && Covers(s, y)) && !Covers(s, fsize - 1) && !Covers(s, fsize)
  {
    if i :| 0 <= i < |s| && s[i].offset > fsize {
      assert s[i].Has(s[i].offset);
      assert Covers(s, s[i].offset);
    }
    if y :| y > fsize && Covers(s, y) {
      var i :| 0 <= i < |s| && s[i].Has(y);
      assert s[i].offset > fsize || s[i].Has(fsize);
    }
  }

  lemma StillNotOverrun(s: seq<Chunk>, s': seq<Chunk>, cs: seq<Chunk>, fsize: nat)
    requires Wf(s) && AllPositive(s) && Wf(s') && AllPositive(s') && !Overruns(s, fsize)
    requires forall x :: Covers(s', x) <==> Covers(s, x) || Covers(cs, x)
    requires forall x :: Covers(cs, x) ==> x < fsize
    ensures !Overruns(s', fsize)
  {
    hide Wf, AllPositive, Covers, Overruns;
    OverrunsIff(s, fsize);
    OverrunsIff(s', fsize);
  }

  /**
   One round in which the list never overflows: exactly the bytes that arrive are missing no more, so nothing is lost, and
   anything that arrives is something that was missing.
   */
  lemma RoundShrinks(s: seq<Chunk>, max: nat, fsize: nat, senderMax: nat, arrived: seq<Chunk>)
    requires CanAsk(s, max, fsize) && max <= MAX_SEGMENTS <= senderMax && 0 < fsize < UINT32
    requires Round(s, max, fsize, senderMax, arrived) && Lossless(s, max, arrived)
    ensures var s' := AddAll(s, max, arrived);
            && Wf(s') && AllPositive(s') && |s'| <= max && !Overruns(s', fsize)
            && MissingBytes(s', fsize) == (set x | x in MissingBytes(s, fsize) && !Covers(arrived, x))
            && (arrived != [] ==> MissingBytes(s', fsize) < MissingBytes(s, fsize))
  {
    hide Wf, AllPositive, Overruns, Covers, Round, AddAll, Lossless, Small;
    var s' := AddAll(s, max, arrived);
    ArrivedAreSmall(s, max, fsize, senderMax, arrived);
    AddAllKeepsWf(s, max, arrived);
    forall x
      ensures Covers(s', x) <==> Covers(s, x) || Covers(arrived, x)
    {
      AddAllCovers(s, max, arrived, x);
    }
    StillNotOverrun(s, s', arrived, fsize);
    if arrived != [] {
      PieceIsMissing(s, max, fsize, senderMax, arrived, arrived[0]);
      var x := arrived[0].offset;
      MemberCovers(arrived, arrived[0], x);
      assert x in MissingBytes(s, fsize) && x !in MissingBytes(s', fsize);
    }
  }

  /** With as many free slots as pieces that arrive, no order and no repetition makes the list overflow. */
  lemma {:induction false} RoomIsLossless(s: seq<Chunk>, max: nat, cs: seq<Chunk>)
    requires |s| + |cs| <= max
    ensures Lossless(s, max, cs)
    decreases |cs|
  {
    hide Added;
    if cs != [] {
      AddedIsLonger(s, max, cs[0]);
      RoomIsLossless(Added(s, max, cs[0]), max, cs[1..]);
    }
  }

  lemma AddedIsLonger(s: seq<Chunk>, max: nat, c: Chunk)
    requires |s| < max
    ensures |Added(s, max, c)| <= |s| + 1
  {
  }

  // ---------------------------------------------------------------------------------------------------------------
  // Many rounds
  // ---------------------------------------------------------------------------------------------------------------

  function AfterRounds(s: seq<Chunk>, max: nat, rounds: seq<seq<Chunk>>): seq<Chunk>
    decreases |rounds|
  {
    if rounds == [] then s else AfterRounds(AddAll(s, max, rounds[0]), max, rounds[1..])
  }

  /** Each round starts with a free slot and never finds the list full and out of reach. */
  ghost predicate Roomy(s: seq<Chunk>, max: nat, fsize: nat, senderMax: nat, rounds: seq<seq<Chunk>>)
    requires Wf(s) && 0 < max
    decreases |rounds|
  {
    rounds != [] ==>
      && |s| < max && Round(s, max, fsize, senderMax, rounds[0]) && Lossless(s, max, rounds[0])
      && Wf(AddAll(s, max, rounds[0])) && Roomy(AddAll(s, max, rounds[0]), max, fsize, senderMax, rounds[1..])
  }

  /** Something gets through in every round in which something is missing. */
  ghost predicate GetsThrough(s: seq<Chunk>, max: nat, fsize: nat, rounds: seq<seq<Chunk>>)
    decreases |rounds|
  {
    rounds != [] ==>
      (rounds[0] == [] ==> IsComplete(s, fsize)) && GetsThrough(AddAll(s, max, rounds[0]), max, fsize, rounds[1..])
  }

  /** Whatever is lost, doubled or reordered, a byte once there stays, over any number of rounds. */
  lemma {:induction false} RoundsNeverGrow(s: seq<Chunk>, max: nat, fsize: nat, senderMax: nat, rounds: seq<seq<Chunk>>)
    requires Wf(s) && AllPositive(s) && !Overruns(s, fsize) && 0 < max <= MAX_SEGMENTS <= senderMax && 0 < fsize < UINT32
    requires Roomy(s, max, fsize, senderMax, rounds)
    ensures MissingBytes(AfterRounds(s, max, rounds), fsize) <= MissingBytes(s, fsize)
    decreases |rounds|
  {
    hide Wf, AllPositive, Overruns, Covers, Round, AddAll, Lossless, MissingBytes;
    if rounds != [] {
      RoundShrinks(s, max, fsize, senderMax, rounds[0]);
      FewerMissing(s, AddAll(s, max, rounds[0]), fsize, rounds[0]);
      RoundsNeverGrow(AddAll(s, max, rounds[0]), max, fsize, senderMax, rounds[1..]);
    }
  }

  lemma FewerMissing(s: seq<Chunk>, s': seq<Chunk>, fsize: nat, cs: seq<Chunk>)
    requires MissingBytes(s', fsize) == (set x | x in MissingBytes(s, fsize) && !Covers(cs, x))
    ensures MissingBytes(s', fsize) <= MissingBytes(s, fsize)
  {
  }

  lemma Smaller(a: set<int>, b: set<int>)
    requires a < b
    ensures |a| < |b|
  {
    assert b == a + (b - a);
    assert b - a != {};
  }

  lemma NothingMissingIff(s: seq<Chunk>, fsize: nat)
    ensures IsComplete(s, fsize) <==> MissingBytes(s, fsize) == {}
  {
    if !IsComplete(s, fsize) {
      var x :| 0 <= x < fsize && !Covers(s, x);
      assert x in MissingBytes(s, fsize);
    }
  }

  /**
   If something gets through in every round, then after at most as many rounds as bytes are missing the file is complete,
   whatever is lost, doubled or reordered.
   */
  lemma {:induction false} RoundsComplete(s: seq<Chunk>, max: nat, fsize: nat, senderMax: nat, rounds: seq<seq<Chunk>>)
    requires Wf(s) && AllPositive(s) && !Overruns(s, fsize) && 0 < max <= MAX_SEGMENTS <= senderMax && 0 < fsize < UINT32
    requires Roomy(s, max, fsize, senderMax, rounds) && GetsThrough(s, max, fsize, rounds)
    requires |rounds| >= |MissingBytes(s, fsize)|
    ensures IsComplete(AfterRounds(s, max, rounds), fsize)
    decreases |rounds|
  {
    hide Wf, AllPositive, Overruns, Covers, Round, AddAll, Lossless, MissingBytes, IsComplete;
    NothingMissingIff(s, fsize);
    NothingMissingIff(AfterRounds(s, max, rounds), fsize);
    if MissingBytes(s, fsize) == {} {
      RoundsNeverGrow(s, max, fsize, senderMax, rounds);
    } else {
      RoundShrinks(s, max, fsize, senderMax, rounds[0]);
      Smaller(MissingBytes(AddAll(s, max, rounds[0]), fsize), MissingBytes(s, fsize));
      RoundsComplete(AddAll(s, max, rounds[0]), max, fsize, senderMax, rounds[1..]);
    }
  }
}
