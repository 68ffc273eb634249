/**
 The answer to a NAK: the sender resends what it has recorded in pieces (`cf_cfdp_s.c`), and the receiver adds the pieces to a
 chunk list of bounded size.  Which pieces that list keeps is stated exactly.
 */
module Resending {
  import opened Options
  import opened ChunkTheory
  import opened GapTheory
  import opened ChunkList
  import opened PduFormat
  import opened NakRequests

  // ---------------------------------------------------------------------------------------------------------------
  // The sender's side
  // ---------------------------------------------------------------------------------------------------------------

  /** What is left of a run once its front up to the byte at has been sent. */
  function Tail(run: Chunk, at: nat): seq<Chunk>
    requires run.offset <= at <= run.End()
  {
    if at == run.End() then [] else [Chunk(at, run.End() - at)]
  }

  /** The pieces are not empty and lie end to end in the runs, in order: a split of the runs at any places. */
  predicate Splits(pieces: seq<Chunk>, runs: seq<Chunk>)
    decreases |pieces|
  {
    if pieces == [] || runs == [] then pieces == [] && runs == []
    else
      && pieces[0].size > 0 && pieces[0].offset == runs[0].offset && pieces[0].End() <= runs[0].End()
      && Splits(pieces[1..], Tail(runs[0], pieces[0].End()) + runs[1..])
  }

  lemma {:induction false} SplitsItself(runs: seq<Chunk>)
    requires AllPositive(runs)
    ensures Splits(runs, runs)
  {
    if runs != [] {
      SplitsItself(runs[1..]);
      assert [] + runs[1..] == runs[1..];
    }
  }

  lemma SplitsHead(c: Chunk, b: seq<Chunk>, at: nat, runs: seq<Chunk>)
    requires Splits([c] + b, runs) && c.offset < at < c.End()
    ensures Splits([Chunk(c.offset, at - c.offset)] + ([Chunk(at, c.End() - at)] + b), runs)
  {
    var c1, c2 := Chunk(c.offset, at - c.offset), Chunk(at, c.End() - at);
    var rest := [Chunk(at, runs[0].End() - at)] + runs[1..];
    assert ([c] + b)[1..] == b && ([c1] + ([c2] + b))[1..] == [c2] + b && ([c2] + b)[1..] == b;
    assert rest[1..] == runs[1..];
    assert Splits([c2] + b, rest);
  }

  lemma SplitsCons(c: Chunk, a: seq<Chunk>, runs: seq<Chunk>)
    ensures Splits([c] + a, runs) <==>
              && runs != [] && c.size > 0 && c.offset == runs[0].offset && c.End() <= runs[0].End()
              && Splits(a, Tail(runs[0], c.End()) + runs[1..])
  {
    assert ([c] + a)[1..] == a;
  }

  /** Splitting one piece further. */
  lemma {:induction false} SplitsFurther(a: seq<Chunk>, c: Chunk, b: seq<Chunk>, at: nat, runs: seq<Chunk>)
    requires Splits(a + ([c] + b), runs) && c.offset < at < c.End()
    ensures Splits(a + ([Chunk(c.offset, at - c.offset)] + ([Chunk(at, c.End() - at)] + b)), runs)
    decreases |a|
  {
    hide Splits, Tail;
    var split := [Chunk(c.offset, at - c.offset)] + ([Chunk(at, c.End() - at)] + b);
    if a == [] {
      assert a + ([c] + b) == [c] + b && a + split == split;
      SplitsHead(c, b, at, runs);
    } else {
      assert a + ([c] + b) == [a[0]] + (a[1..] + ([c] + b)) && a + split == [a[0]] + (a[1..] + split);
      SplitsCons(a[0], a[1..] + ([c] + b), runs);
      SplitsCons(a[0], a[1..] + split, runs);
      SplitsFurther(a[1..], c, b, at, Tail(runs[0], a[0].End()) + runs[1..]);
    }
  }

  /** `CF_CFDP_S_CheckAndRespondNak` once metadata is not asked for: a piece of the first recorded chunk is sent, no longer than
      the PDU has room for nor than the configured size, and taken off the list.  None stands for no buffer or no chunk. */
  method ResendPiece(chunks: ChunkList, bufferAvailable: bool, room: nat, chunkSize: nat) returns (piece: Option<Chunk>)
    requires chunks.Valid()
    modifies chunks`count, chunks.chunks
    ensures chunks.Valid()
    ensures piece.Some? <==> bufferAvailable && old(chunks.Contents()) != []
    ensures piece.Some? ==> piece.value == Chunk(old(chunks.Contents())[0].offset,
                                                 Min(old(chunks.Contents())[0].size, Min(room, chunkSize)))
    ensures chunks.Contents() == if piece.Some? && piece.value.size > 0
                                 then FrontRemoved(old(chunks.Contents()), piece.value.size) else old(chunks.Contents())
  {
    hide Wf, FrontRemoved;
    piece := None;
    var first := chunks.GetFirstChunk();
    if first.Some? && bufferAvailable {
      var actualBytes := room;
      if actualBytes > first.value.size {
        actualBytes := first.value.size;
      }
      if actualBytes > chunkSize {
        actualBytes := chunkSize;
      }
      piece := Some(Chunk(first.value.offset, actualBytes));
      if actualBytes > 0 {
        chunks.RemoveFromFirst(actualBytes);
      }
    }
  }

  /** Taking a piece off the front keeps the pieces sent and what is still recorded a split of the runs. */
  lemma SplitsOn(sent: seq<Chunk>, list: seq<Chunk>, size: nat, runs: seq<Chunk>)
    requires list != [] && 0 < size <= list[0].size && Splits(sent + list, runs)
    ensures Splits(sent + [Chunk(list[0].offset, size)] + FrontRemoved(list, size), runs)
  {
    var c, p, rest := list[0], Chunk(list[0].offset, size), FrontRemoved(list, size);
    assert list == [c] + list[1..] && sent + [p] + rest == sent + ([p] + rest);
    hide Splits;
    if size < c.size {
      SplitsFurther(sent, c, list[1..], c.offset + size, runs);
    }
  }

  function TotalBytes(s: seq<Chunk>): (n: nat) {
    if s == [] then 0 else s[0].size + TotalBytes(s[1..])
  }

  /** The pieces sent and those still on the list split the runs; at most n bytes are still on it, and none if n is not
      positive. */
  ghost predicate Resent(sent: seq<Chunk>, list: seq<Chunk>, runs: seq<Chunk>, n: int) {
    Splits(sent + list, runs) && AllPositive(list) && (list == [] || TotalBytes(list) <= n)
  }

  lemma NothingSent(runs: seq<Chunk>)
    requires AllPositive(runs)
    ensures Resent([], runs, runs, TotalBytes(runs))
  {
    hide Splits;
    SplitsItself(runs);
    assert [] + runs == runs;
  }

  lemma PieceSent(sent: seq<Chunk>, list: seq<Chunk>, size: nat, runs: seq<Chunk>, n: int)
    requires Resent(sent, list, runs, n) && list != [] && 0 < size <= list[0].size
    ensures Resent(sent + [Chunk(list[0].offset, size)], FrontRemoved(list, size), runs, n - 1)
  {
    hide Splits;
    SplitsOn(sent, list, size, runs);
    if size < list[0].size {
      assert FrontRemoved(list, size)[1..] == list[1..];
    }
  }

  lemma SentIsSplit(sent: seq<Chunk>, list: seq<Chunk>, runs: seq<Chunk>, n: int)
    requires Resent(sent, list, runs, n)
    ensures Splits(sent + list, runs)
    ensures n <= 0 || list == [] ==> list == [] && Splits(sent, runs)
    ensures list != [] ==> list[0].size > 0
  {
    hide Splits;
    assert list == [] ==> sent + list == sent;
  }

  /** In how many wakeups there is room for a byte. */
  function Wakeups(rooms: seq<nat>): nat {
    if rooms == [] then 0 else Wakeups(rooms[..|rooms| - 1]) + if rooms[|rooms| - 1] > 0 then 1 else 0
  }

  lemma NoWakeups(rooms: seq<nat>)
    ensures Wakeups(rooms[..0]) == 0
  {
  }

  lemma NextWakeup(rooms: seq<nat>, i: nat)
    requires i < |rooms|
    ensures Wakeups(rooms[..i + 1]) == Wakeups(rooms[..i]) + if rooms[i] > 0 then 1 else 0
  {
    assert rooms[..i + 1][..i] == rooms[..i];
  }

  /** One wakeup after the other, with the room and the size that each allows: the pieces sent, followed by what is still
      recorded, split what was recorded at the start.  After as many wakeups with room for a byte as there were bytes, everything
      has been sent. */
  method Resend(chunks: ChunkList, rooms: seq<nat>, chunkSize: nat) returns (sent: seq<Chunk>)
    requires chunks.Valid() && AllPositive(chunks.Contents())
    modifies chunks`count, chunks.chunks
    ensures chunks.Valid() && Splits(sent + chunks.Contents(), old(chunks.Contents()))
    ensures chunkSize > 0 && Wakeups(rooms) >= TotalBytes(old(chunks.Contents())) ==>
              chunks.Contents() == [] && Splits(sent, old(chunks.Contents()))
  {
    hide Wf, Splits, FrontRemoved, TotalBytes, Resent, AllPositive, Wakeups;
    ghost var runs := chunks.Contents();
    sent := [];
    NothingSent(runs);
    ghost var n: int := TotalBytes(runs);
    NoWakeups(rooms);
    for i := 0 to |rooms|
      invariant chunks.Valid() && Resent(sent, chunks.Contents(), runs, n)
      invariant chunkSize > 0 ==> n <= TotalBytes(runs) - Wakeups(rooms[..i]) || chunks.Contents() == []
    {
      NextWakeup(rooms, i);
      ghost var list := chunks.Contents();
      SentIsSplit(sent, list, runs, n);
      var piece := ResendPiece(chunks, true, rooms[i], chunkSize);
      if piece.Some? && piece.value.size > 0 {
        PieceSent(sent, list, piece.value.size, runs, n);
        sent := sent + [piece.value];
        n := n - 1;
      }
    }
    assert rooms[..|rooms|] == rooms;
    SentIsSplit(sent, chunks.Contents(), runs, n);
  }

  // ---------------------------------------------------------------------------------------------------------------
  // The receiver's side
  // ---------------------------------------------------------------------------------------------------------------

  function AddAll(s: seq<Chunk>, max: nat, cs: seq<Chunk>): seq<Chunk>
    decreases |cs|
  {
    if cs == [] then s else AddAll(Added(s, max, cs[0]), max, cs[1..])
  }

  /** No addition finds the list full and out of its reach. */
  ghost predicate Lossless(s: seq<Chunk>, max: nat, cs: seq<Chunk>)
    decreases |cs|
  {
    cs != [] ==> !Overflows(s, max, cs[0]) && Lossless(Added(s, max, cs[0]), max, cs[1..])
  }

  ghost predicate Small(cs: seq<Chunk>) {
    forall i :: 0 <= i < |cs| ==> 0 < cs[i].size && cs[i].End() < UINT32
  }

  lemma SmallParts(cs: seq<Chunk>)
    requires Small(cs) && cs != []
    ensures 0 < cs[0].size && cs[0].End() < UINT32 && Small(cs[1..])
  {
  }

  lemma AddAllUnfolds(s: seq<Chunk>, max: nat, cs: seq<Chunk>, x: int)
    ensures cs == [] ==> AddAll(s, max, cs) == s && !Covers(cs, x)
    ensures cs != [] ==> AddAll(s, max, cs) == AddAll(Added(s, max, cs[0]), max, cs[1..])
    ensures cs != [] ==> (Covers(cs, x) <==> cs[0].Has(x) || Covers(cs[1..], x))
  {
    hide Added;
    if cs != [] {
      assert cs == [cs[0]] + cs[1..];
      CoversConcat([cs[0]], cs[1..], x);
      CoversOne(cs[0], x);
    }
  }

  /** Additions never claim what nobody added. */
  lemma {:induction false} AddAllIsSound(s: seq<Chunk>, max: nat, cs: seq<Chunk>, x: int)
    requires Wf(s) && |s| <= max && 0 < max && Small(cs) && Covers(AddAll(s, max, cs), x)
    ensures Covers(s, x) || Covers(cs, x)
    decreases |cs|
  {
    hide AddAll, Covers, Wf, Added, Small, Overflows, Chunk.Has;
    AddAllUnfolds(s, max, cs, x);
    if cs != [] {
      SmallParts(cs);
      AddedKeepsWf(s, max, cs[0]);
      AddedCovers(s, max, cs[0], x);
      AddAllIsSound(Added(s, max, cs[0]), max, cs[1..], x);
    }
  }

  /** Additions of which none overflows lose nothing. */
  lemma {:induction false} AddAllCovers(s: seq<Chunk>, max: nat, cs: seq<Chunk>, x: int)
    requires Wf(s) && |s| <= max && 0 < max && Small(cs) && Lossless(s, max, cs)
    ensures Covers(AddAll(s, max, cs), x) <==> Covers(s, x) || Covers(cs, x)
    decreases |cs|
  {
    hide AddAll, Covers, Wf, Added, Small, Overflows, Chunk.Has;
    AddAllUnfolds(s, max, cs, x);
    if cs != [] {
      SmallParts(cs);
      AddedKeepsWf(s, max, cs[0]);
      AddedCovers(s, max, cs[0], x);
      AddAllCovers(Added(s, max, cs[0]), max, cs[1..], x);
    }
  }

  // ---------------------------------------------------------------------------------------------------------------
  // Pieces in order
  // ---------------------------------------------------------------------------------------------------------------

  /** Every piece starts where the one before it ended (the first at prev), or right behind a byte of s, and ends by fsize. */
  ghost predicate Chained(s: seq<Chunk>, prev: nat, cs: seq<Chunk>, fsize: nat)
    decreases |cs|
  {
    cs != [] ==>
      && 0 < cs[0].size && cs[0].End() <= fsize
      && (cs[0].offset == prev || Covers(s, cs[0].offset - 1))
      && Chained(s, cs[0].End(), cs[1..], fsize)
  }

  /** A piece right behind a covered byte touches the list. */
  lemma BehindIsNotIsolated(s: seq<Chunk>, c: Chunk)
    requires Covers(s, c.offset - 1)
    ensures !Isolated(s, c)
  {
    var i :| 0 <= i < |s| && s[i].Has(c.offset - 1);
    assert Touches(s[i], c);
  }

  lemma {:induction false} ChainedOn(s: seq<Chunk>, s': seq<Chunk>, prev: nat, cs: seq<Chunk>, fsize: nat)
    requires Chained(s, prev, cs, fsize) && forall x :: x < fsize && Covers(s, x) ==> Covers(s', x)
    ensures Chained(s', prev, cs, fsize)
    decreases |cs|
  {
    hide Covers;
    if cs != [] {
      ChainedOn(s, s', cs[0].End(), cs[1..], fsize);
    }
  }

  lemma {:induction false} ChainedIsSmall(s: seq<Chunk>, prev: nat, cs: seq<Chunk>, fsize: nat)
    requires Chained(s, prev, cs, fsize) && fsize < UINT32
    ensures Small(cs)
    decreases |cs|
  {
    hide Covers;
    if cs != [] {
      ChainedIsSmall(s, cs[0].End(), cs[1..], fsize);
      assert forall i :: 0 < i < |cs| ==> cs[i] == cs[1..][i - 1];
    }
  }

  /** The list after a piece that did not overflow: it covers the piece, and the chain goes on. */
  lemma ChainGoesOn(s: seq<Chunk>, max: nat, prev: nat, cs: seq<Chunk>, fsize: nat)
    requires Wf(s) && |s| <= max && 0 < max && fsize < UINT32 && cs != [] && Chained(s, prev, cs, fsize)
    requires forall x :: x < fsize ==> (Covers(Added(s, max, cs[0]), x) <==> Covers(s, x) || cs[0].Has(x))
    ensures Chained(Added(s, max, cs[0]), cs[0].End(), cs[1..], fsize)
    ensures Covers(Added(s, max, cs[0]), cs[0].End() - 1)
  {
    hide Covers, Wf, Added;
    assert cs[0].Has(cs[0].End() - 1);
    ChainedOn(s, Added(s, max, cs[0]), cs[0].End(), cs[1..], fsize);
  }

  /** A chain that starts behind a covered byte loses nothing, however full the list is. */
  lemma {:induction false} ChainIsLossless(s: seq<Chunk>, max: nat, prev: nat, cs: seq<Chunk>, fsize: nat)
    requires Wf(s) && |s| <= max && 0 < max && fsize < UINT32 && Chained(s, prev, cs, fsize) && Covers(s, prev - 1)
    ensures Lossless(s, max, cs)
    decreases |cs|
  {
    hide Covers, Wf, Added, Isolated, Chunk.Has;
    if cs != [] {
      BehindIsNotIsolated(s, cs[0]);
      forall x
        ensures Covers(Added(s, max, cs[0]), x) <==> Covers(s, x) || cs[0].Has(x)
      {
        AddedCovers(s, max, cs[0], x);
      }
      AddedKeepsWf(s, max, cs[0]);
      ChainGoesOn(s, max, prev, cs, fsize);
      ChainIsLossless(Added(s, max, cs[0]), max, cs[0].End(), cs[1..], fsize);
    }
  }

  ghost predicate Behind(s: seq<Chunk>, prev: nat, runs: seq<Chunk>, fsize: nat) {
    forall i :: 0 <= i < |runs| ==>
      runs[i].size > 0 && runs[i].End() <= fsize && ((i == 0 && runs[i].offset == prev) || Covers(s, runs[i].offset - 1))
  }

  lemma BehindOn(s: seq<Chunk>, prev: nat, runs: seq<Chunk>, at: nat, fsize: nat)
    requires Behind(s, prev, runs, fsize) && runs != [] && runs[0].offset < at <= runs[0].End()
    ensures Behind(s, at, Tail(runs[0], at) + runs[1..], fsize)
  {
    hide Covers;
    var rest := Tail(runs[0], at) + runs[1..];
    var k := |Tail(runs[0], at)|;
    forall i | 0 <= i < |rest|
      ensures rest[i].size > 0 && rest[i].End() <= fsize && ((i == 0 && rest[i].offset == at) || Covers(s, rest[i].offset - 1))
    {
      if k <= i {
        assert rest[i] == runs[1 + i - k];
      }
    }
  }

  /** The pieces of runs that each start behind a covered byte are chained. */
  lemma {:induction false} SplitIsChained(s: seq<Chunk>, prev: nat, cs: seq<Chunk>, runs: seq<Chunk>, fsize: nat)
    requires Splits(cs, runs) && Behind(s, prev, runs, fsize)
    ensures Chained(s, prev, cs, fsize)
    decreases |cs|
  {
    hide Covers;
    if cs != [] {
      assert runs[0].End() <= fsize && (runs[0].offset == prev || Covers(s, runs[0].offset - 1));
      BehindOn(s, prev, runs, cs[0].End(), fsize);
      hide Behind, Tail;
      SplitIsChained(s, cs[0].End(), cs[1..], Tail(runs[0], cs[0].End()) + runs[1..], fsize);
    }
  }

  /** A split covers what the runs cover. */
  lemma {:induction false} SplitCovers(cs: seq<Chunk>, runs: seq<Chunk>, x: int)
    requires Splits(cs, runs)
    ensures Covers(cs, x) <==> Covers(runs, x)
    decreases |cs|
  {
    if cs != [] {
      var tail := Tail(runs[0], cs[0].End());
      SplitCovers(cs[1..], tail + runs[1..], x);
      assert cs == [cs[0]] + cs[1..] && runs == [runs[0]] + runs[1..];
      hide Covers, Splits;
      CoversConcat([cs[0]], cs[1..], x);
      CoversConcat([runs[0]], runs[1..], x);
      CoversConcat(tail, runs[1..], x);
      CoversOne(cs[0], x);
      CoversOne(runs[0], x);
      if tail != [] {
        CoversOne(tail[0], x);
      }
    }
  }

  /** Nothing behind the first piece lies before its end. */
  lemma LaterPieces(cs: seq<Chunk>, runs: seq<Chunk>, x: int)
    requires Splits(cs, runs) && Wf(runs) && cs != [] && Covers(cs[1..], x)
    ensures cs[0].End() <= x
  {
    var tail := Tail(runs[0], cs[0].End());
    SplitCovers(cs[1..], tail + runs[1..], x);
    CoversConcat(tail, runs[1..], x);
    CoversTail(runs, x);
  }

  /** Missing runs start at 0 or behind a covered byte. */
  lemma MissingRunsAreBehind(s: seq<Chunk>, fsize: nat)
    requires Wf(s) && AllPositive(s) && fsize < UINT32
    ensures Behind(s, 0, MissingRuns(s, 0, fsize), fsize)
  {
    var m := MissingRuns(s, 0, fsize);
    MissingRunsAreMissing(s, 0, fsize);
    forall i | 0 <= i < |m|
      ensures m[i].size > 0 && m[i].End() <= fsize && ((i == 0 && m[i].offset == 0) || Covers(s, m[i].offset - 1))
    {
      NeighbourUncovered(m, i);
      assert m[i].Has(m[i].offset) && Covers(m, m[i].offset);
      if 0 < i {
        assert m[0].End() < m[i].offset;
      }
    }
  }

  lemma NeighbourUncovered(m: seq<Chunk>, i: nat)
    requires Wf(m) && AllPositive(m) && i < |m|
    ensures !Covers(m, m[i].offset - 1)
  {
  }

  // ---------------------------------------------------------------------------------------------------------------
  // Exactly when a round of resending is enough
  // ---------------------------------------------------------------------------------------------------------------

  /** What a receiver can tell from its list and the first piece: there is a free slot, or the piece does not start the file, or
      it reaches the first chunk. */
  predicate FirstIsKept(s: seq<Chunk>, max: nat, cs: seq<Chunk>) {
    |s| < max || cs == [] || cs[0].offset > 0 || (s != [] && s[0].offset <= cs[0].End())
  }

  /** The first piece takes the place of a chunk that lies beyond the file. */
  predicate EvictsBeyond(s: seq<Chunk>, cs: seq<Chunk>, fsize: nat) {
    s != [] && cs != [] && s[Smallest(s)].size < cs[0].size && s[Smallest(s)].offset >= fsize
  }

  ghost predicate IsComplete(s: seq<Chunk>, fsize: nat) {
    forall x :: 0 <= x < fsize ==> Covers(s, x)
  }

  ghost predicate IsUnion(r: seq<Chunk>, s: seq<Chunk>, cs: seq<Chunk>) {
    forall x :: Covers(r, x) <==> Covers(s, x) || Covers(cs, x)
  }

  lemma FirstOverflowsIff(s: seq<Chunk>, max: nat, cs: seq<Chunk>, fsize: nat)
    requires Wf(s) && AllPositive(s) && |s| <= max && 0 < max && cs != [] && Chained(s, 0, cs, fsize) && !Covers(s, cs[0].offset)
    ensures FirstIsKept(s, max, cs) <==> !Overflows(s, max, cs[0])
  {
    var c := cs[0];
    if Covers(s, c.offset - 1) {
      BehindIsNotIsolated(s, c);
      assert !Covers(s, -1);
    } else if s != [] {
      assert s[0].Has(s[0].offset) && Covers(s, s[0].offset);
      if s[0].offset <= c.End() {
        assert Touches(s[0], c);
      } else {
        assert forall i :: 0 < i < |s| ==> s[0].End() < s[i].offset;
      }
    }
  }

  lemma KeptIsLossless(s: seq<Chunk>, max: nat, cs: seq<Chunk>, fsize: nat)
    requires Wf(s) && |s| <= max && 0 < max && fsize < UINT32 && Chained(s, 0, cs, fsize)
    requires cs != [] ==> !Overflows(s, max, cs[0])
    ensures Lossless(s, max, cs)
  {
    if cs != [] {
      hide Covers, Wf, Added, Isolated, Overflows, Chunk.Has;
      forall x
        ensures Covers(Added(s, max, cs[0]), x) <==> Covers(s, x) || cs[0].Has(x)
      {
        AddedCovers(s, max, cs[0], x);
      }
      AddedKeepsWf(s, max, cs[0]);
      ChainGoesOn(s, max, 0, cs, fsize);
      ChainIsLossless(Added(s, max, cs[0]), max, cs[0].End(), cs[1..], fsize);
    }
  }

  /** The byte that is lost when the first piece overflows. */
  function LostByte(s: seq<Chunk>, c: Chunk): nat
    requires s != []
  {
    if s[Smallest(s)].size < c.size then s[Smallest(s)].offset else c.offset
  }

  lemma LostAtOnce(s: seq<Chunk>, max: nat, c: Chunk)
    requires Wf(s) && AllPositive(s) && |s| <= max && 0 < max && c.size > 0 && c.End() < UINT32 && Overflows(s, max, c)
    ensures s != [] && !Covers(Added(s, max, c), LostByte(s, c))
    ensures if s[Smallest(s)].size < c.size then Covers(s, LostByte(s, c)) else c.Has(LostByte(s, c))
  {
    var m := Smallest(s);
    assert !Touches(s[m], c);
    AddedCovers(s, max, c, LostByte(s, c));
    assert s[m].Has(s[m].offset) && c.Has(c.offset);
    assert forall i :: 0 <= i < |s| && s[i].Has(c.offset) ==> Touches(s[i], c);
  }

  /** If the first piece overflows, its loss is final: no later piece brings the lost byte back. */
  lemma LostForGood(s: seq<Chunk>, max: nat, fsize: nat, cs: seq<Chunk>)
    requires Wf(s) && AllPositive(s) && |s| <= max && 0 < max && fsize < UINT32 && Splits(cs, MissingRuns(s, 0, fsize))
    requires Small(cs) && cs != [] && Overflows(s, max, cs[0])
    ensures s != [] && !Covers(AddAll(s, max, cs), LostByte(s, cs[0]))
    ensures if s[Smallest(s)].size < cs[0].size then Covers(s, LostByte(s, cs[0])) else Covers(cs, LostByte(s, cs[0]))
  {
    hide Covers, Wf, AllPositive, Added, AddAll, Overflows, MissingRuns, Smallest, Splits, Small, Chunk.Has;
    var c, m := cs[0], MissingRuns(s, 0, fsize);
    SmallParts(cs);
    LostAtOnce(s, max, c);
    var x := LostByte(s, c);
    AddAllUnfolds(s, max, cs, x);
    AddedKeepsWf(s, max, c);
    MissingRunsAreMissing(s, 0, fsize);
    if Covers(AddAll(s, max, cs), x) {
      AddAllIsSound(Added(s, max, c), max, cs[1..], x);
      SplitCovers(cs, m, x);
      LaterPieces(cs, m, x);
    }
  }

  /** Pieces of the missing runs, in order, split at any places: the list keeps all of them and all it had if and only if it
      keeps the first. */
  lemma PiecesAreKeptIff(s: seq<Chunk>, max: nat, fsize: nat, cs: seq<Chunk>)
    requires Wf(s) && AllPositive(s) && |s| <= max && 0 < max && fsize < UINT32 && Splits(cs, MissingRuns(s, 0, fsize))
    ensures IsUnion(AddAll(s, max, cs), s, cs) <==> FirstIsKept(s, max, cs)
  {
    hide Covers, Wf, AllPositive, Added, AddAll, Overflows, MissingRuns, Smallest, Splits, Small, Chained, Behind, FirstIsKept;
    PiecesAreFine(s, max, fsize, cs);
    if cs == [] || !Overflows(s, max, cs[0]) {
      KeptIsLossless(s, max, cs, fsize);
      forall x
        ensures Covers(AddAll(s, max, cs), x) <==> Covers(s, x) || Covers(cs, x)
      {
        AddAllCovers(s, max, cs, x);
      }
    } else {
      LostForGood(s, max, fsize, cs);
    }
  }

  lemma PiecesAreFine(s: seq<Chunk>, max: nat, fsize: nat, cs: seq<Chunk>)
    requires Wf(s) && AllPositive(s) && |s| <= max && 0 < max && fsize < UINT32 && Splits(cs, MissingRuns(s, 0, fsize))
    ensures Chained(s, 0, cs, fsize) && Small(cs)
    ensures FirstIsKept(s, max, cs) <==> cs == [] || !Overflows(s, max, cs[0])
    ensures forall x :: 0 <= x < fsize ==> Covers(s, x) || Covers(cs, x)
    ensures forall x :: Covers(cs, x) ==> 0 <= x < fsize && !Covers(s, x)
  {
    var m := MissingRuns(s, 0, fsize);
    MissingRunsAreBehind(s, fsize);
    SplitIsChained(s, 0, cs, m, fsize);
    ChainedIsSmall(s, 0, cs, fsize);
    MissingRunsAreMissing(s, 0, fsize);
    forall x
      ensures Covers(cs, x) <==> Covers(m, x)
    {
      SplitCovers(cs, m, x);
    }
    if cs != [] {
      assert cs[0].Has(cs[0].offset) && Covers(cs, cs[0].offset);
      FirstOverflowsIff(s, max, cs, fsize);
    }
  }

  /** If the first piece takes the place of a chunk beyond the file, no byte of the file is lost. */
  lemma EvictedBeyond(s: seq<Chunk>, max: nat, fsize: nat, cs: seq<Chunk>, x: int)
    requires Wf(s) && AllPositive(s) && |s| <= max && 0 < max && fsize < UINT32 && Chained(s, 0, cs, fsize) && Small(cs)
    requires cs != [] && Overflows(s, max, cs[0]) && EvictsBeyond(s, cs, fsize)
    ensures x < fsize && (Covers(s, x) || Covers(cs, x)) ==> Covers(AddAll(s, max, cs), x)
  {
    hide Covers, Wf, AllPositive, Added, AddAll, Overflows, Smallest, Small;
    var t := Added(s, max, cs[0]);
    SmallParts(cs);
    AddedKeepsWf(s, max, cs[0]);
    forall y
      ensures y < fsize ==> (Covers(t, y) <==> Covers(s, y) || cs[0].Has(y))
    {
      AddedCovers(s, max, cs[0], y);
    }
    ChainGoesOn(s, max, 0, cs, fsize);
    ChainIsLossless(t, max, cs[0].End(), cs[1..], fsize);
    AddAllUnfolds(s, max, cs, x);
    AddAllCovers(t, max, cs[1..], x);
  }

  /** The file is complete after these pieces if and only if the list keeps the first one, or gives up a chunk beyond the file
      for it. */
  lemma PiecesCompleteIff(s: seq<Chunk>, max: nat, fsize: nat, cs: seq<Chunk>)
    requires Wf(s) && AllPositive(s) && |s| <= max && 0 < max && fsize < UINT32 && Splits(cs, MissingRuns(s, 0, fsize))
    ensures IsComplete(AddAll(s, max, cs), fsize) <==> FirstIsKept(s, max, cs) || EvictsBeyond(s, cs, fsize)
  {
    hide Covers, Wf, AllPositive, Added, AddAll, Overflows, MissingRuns, Smallest, Splits, Small, Chained, Behind, FirstIsKept;
    PiecesAreFine(s, max, fsize, cs);
    PiecesAreKeptIff(s, max, fsize, cs);
    if !FirstIsKept(s, max, cs) {
      if EvictsBeyond(s, cs, fsize) {
        forall x | 0 <= x < fsize
          ensures Covers(AddAll(s, max, cs), x)
        {
          EvictedBeyond(s, max, fsize, cs, x);
        }
      } else {
        LostForGood(s, max, fsize, cs);
        assert 0 <= LostByte(s, cs[0]) < fsize;
      }
    }
  }

  /** A full list and a first piece that does not reach the first chunk: the beginning of the file is lost, although the pieces
      are all that is missing. */
  lemma SmallPieceIsLost()
    ensures MissingRuns([Chunk(10, 5)], 0, 15) == [Chunk(0, 10)] && Splits([Chunk(0, 2), Chunk(2, 8)], [Chunk(0, 10)])
    ensures AddAll([Chunk(10, 5)], 1, [Chunk(0, 2), Chunk(2, 8)]) == [Chunk(2, 13)]
  {
    var s, cs := [Chunk(10, 5)], [Chunk(0, 2), Chunk(2, 8)];
    assert MissingRuns(s[1..], 15, 15) == [];
    assert Tail(Chunk(0, 10), 2) + [Chunk(0, 10)][1..] == [Chunk(2, 8)] && cs[1..] == [Chunk(2, 8)];
    assert Tail(Chunk(2, 8), 10) + [Chunk(2, 8)][1..] == [] && cs[1..][1..] == [];
    assert Added(s, 1, cs[0]) == s;
    assert Added(s, 1, cs[1]) == [Chunk(2, 13)];
    assert AddAll([Chunk(2, 13)], 1, cs[1..][1..]) == [Chunk(2, 13)];
  }

  lemma NothingBelowFirst(s: seq<Chunk>, x: int)
    requires Wf(s) && s != [] && x < s[0].offset
    ensures !Covers(s, x)
  {
    forall i | 0 <= i < |s|
      ensures !s[i].Has(x)
    {
      assert s[0].offset <= s[i].offset;
    }
  }

  /** A missing run at the beginning of the file reaches up to the first chunk. */
  lemma FirstRunIsKept(s: seq<Chunk>, max: nat, fsize: nat)
    requires Wf(s) && AllPositive(s) && |s| <= max && 0 < max && fsize < UINT32 && !Overruns(s, fsize)
    ensures FirstIsKept(s, max, MissingRuns(s, 0, fsize))
  {
    hide Covers, Wf, AllPositive;
    MissingRunsAreMissing(s, 0, fsize);
    if s != [] {
      forall x | x < s[0].offset
        ensures !Covers(s, x)
      {
        NothingBelowFirst(s, x);
      }
      assert fsize > 0 ==> s[0].offset <= fsize;
    }
  }

  /** Runs that arrive whole complete the file, full list or not. */
  lemma MissingRunsComplete(s: seq<Chunk>, max: nat, fsize: nat)
    requires Wf(s) && AllPositive(s) && |s| <= max && 0 < max && fsize < UINT32 && !Overruns(s, fsize)
    ensures IsComplete(AddAll(s, max, MissingRuns(s, 0, fsize)), fsize)
  {
    hide Covers, Wf, AllPositive, Overruns, AddAll, MissingRuns, FirstIsKept;
    MissingRunsAreMissing(s, 0, fsize);
    SplitsItself(MissingRuns(s, 0, fsize));
    FirstRunIsKept(s, max, fsize);
    PiecesCompleteIff(s, max, fsize, MissingRuns(s, 0, fsize));
  }

  /** A whole round, from a list with a free slot and no chunk beyond the file: the NAK is recorded by the sender, and whatever
      pieces it resends complete the file. */
  lemma RoundCompletes(s: seq<Chunk>, max: nat, fsize: nat, senderMax: nat, cs: seq<Chunk>)
    requires Wf(s) && AllPositive(s) && |s| < max <= MAX_SEGMENTS <= senderMax && 0 < fsize < UINT32 && !Overruns(s, fsize)
    requires Splits(cs, Recorded([], senderMax, NakFor(s, max, fsize).segments, fsize))
    ensures IsComplete(AddAll(s, max, cs), fsize)
  {
    hide Wf, AllPositive, Splits, Overruns, IsComplete, AddAll, Recorded, NakFor, MissingRuns;
    SenderLearnsAll(s, max, fsize, senderMax);
    PiecesCompleteIff(s, max, fsize, cs);
  }
}
