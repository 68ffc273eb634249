/**
 What a FIN without an error means for the bytes that have really been received.  A chunk list goes back to the pool without
 being reset and is handed out again as it is, so a new transaction (`ReceiverSpec.Initial`) may start with a list that claims
 bytes of an earlier file: those, and only those, need not arrive.
 */
module RecycledChunks {
  import opened Bytes
  import opened Options
  import opened ChunkTheory
  import opened GapTheory
  import opened FileChecksum
  import opened PduFormat
  import opened ReceiverSpec
  import opened ReceiverSafety
  import opened ReceiverIntegrity
  import opened ReceiverRetries
  import opened ReceiverProgress

  function Piece(d: DataFields): Chunk {
    Chunk(d.offset, |d.data|)
  }

  /** The pieces of the file that have been received and stored. */
  ghost function Received(cfg: Config, t: Txn, events: seq<Event>): seq<Chunk>
    requires StoreOk(cfg, t.store) && forall e :: e in events ==> EventOk(e)
    decreases |events|
  {
    if events == [] then []
    else
      (if Accepts(t, events[0]) then [Piece(events[0].fd.value)] else [])
      + Received(cfg, Step(cfg, t, events[0]).txn, events[1..])
  }

  // ---------------------------------------------------------------------------------------------------------------
  // Bytes that must have arrived
  // ---------------------------------------------------------------------------------------------------------------

  lemma {:induction false} KnownIsReceived(cfg: Config, t: Txn, h: History, events: seq<Event>)
    requires StoreOk(cfg, t.store) && forall e :: e in events ==> EventOk(e)
    ensures RunHistory(cfg, t, h, events).known == h.known + Received(cfg, t, events)
    decreases |events|
  {
    hide StoreOk, EventOk, Step, Accepts;
    if events != [] {
      var e, rest := events[0], events[1..];
      assert e in events;
      KnownIsReceived(cfg, Step(cfg, t, e).txn, Record(cfg, t, e, h), rest);
    }
  }

  /**
   A FIN without an error: every byte of the file that the recycled chunk list did not claim has been received in this
   transaction.  With an empty list to begin with, all of them have.
   */
  lemma SuccessMeansReceived(cfg: Config, metadata: Option<nat>, stat: int, chunks: seq<Chunk>, created: bool, crc: CrcState,
                             events: seq<Event>, e: Event)
    requires cfg.Ok() && Wf(chunks) && |chunks| <= cfg.maxChunks
    requires EventOk(e) && forall e' :: e' in events ==> EventOk(e')
    requires var t := After(cfg, Initial(cfg, metadata, stat, chunks, created, crc), events);
             Reports(Step(cfg, t, e).sent, NO_ERROR)
    ensures var t0 := Initial(cfg, metadata, stat, chunks, created, crc);
            var t := After(cfg, t0, events);
            && (forall x :: 0 <= x < t.fsize && !Covers(chunks, x) ==> Covers(Received(cfg, t0, events), x))
            && (chunks == [] ==> forall x :: 0 <= x < t.fsize ==> Covers(Received(cfg, t0, events), x))
  {
    hide Wf, Covers, Initial, After, RunHistory, Step, Record, FinSound, EventOk, Received;
    var t0, h0 := Initial(cfg, metadata, stat, chunks, created, crc), History(chunks, []);
    InitiallyOk(cfg, metadata, stat, chunks, created, crc);
    SuccessIsSound(cfg, metadata, stat, chunks, created, crc, events, e);
    KnownIsReceived(cfg, t0, h0, events);
    var t, h := After(cfg, t0, events), RunHistory(cfg, t0, h0, events);
    ReportHasArrived(cfg, t, e, h);
    forall x
      ensures Covers(h.known, x) ==> Covers(chunks, x) || Covers(Received(cfg, t0, events), x)
      ensures chunks == [] ==> !Covers(chunks, x)
    {
      CoversConcat(chunks, Received(cfg, t0, events), x);
      NothingCovered(x);
    }
  }

  lemma InitiallyOk(cfg: Config, metadata: Option<nat>, stat: int, chunks: seq<Chunk>, created: bool, crc: CrcState)
    requires cfg.Ok() && Wf(chunks) && |chunks| <= cfg.maxChunks
    ensures StoreOk(cfg, Initial(cfg, metadata, stat, chunks, created, crc).store)
  {
    hide Wf;
  }

  lemma NothingCovered(x: int)
    ensures !Covers([], x)
  {
  }

  lemma ReportHasArrived(cfg: Config, t: Txn, e: Event, h: History)
    requires StoreOk(cfg, t.store) && EventOk(e) && Reports(Step(cfg, t, e).sent, NO_ERROR)
    requires FinSound(Step(cfg, t, e).txn, Record(cfg, t, e, h), Step(cfg, t, e).sent)
    ensures forall x :: 0 <= x < t.fsize ==> Covers(h.known, x)
  {
    hide Wf, Covers, Verified, Step;
    var p :| p in Step(cfg, t, e).sent && p.FinOut? && p.cc == ConditionCode(NO_ERROR);
    FinTicks(cfg, t, e);
    TickKeepsFacts(cfg, t, e);
  }

  // ---------------------------------------------------------------------------------------------------------------
  // Bytes that need not
  // ---------------------------------------------------------------------------------------------------------------

  function DataPdu(offset: nat, data: seq<byte>): Event {
    FileDataPdu(Some(DataFields(offset, data)), true, true)
  }

  /** The file from behind the byte at x, and the EOF. */
  function Rest(file: seq<byte>, x: nat): seq<Event>
    requires x < |file|
  {
    [DataPdu(x + 1, file[x + 1..]), EofPdu(Some(EofFields(NO_ERROR, Checksum(file), |file|)))]
  }

  /** The file but for the byte at x, and the EOF. */
  function AllBut(file: seq<byte>, x: nat): seq<Event>
    requires x < |file|
  {
    (if x == 0 then [] else [DataPdu(0, file[..x])]) + Rest(file, x)
  }

  /** A transaction with the metadata that is waiting for data. */
  function Collecting(cfg: Config, n: nat, chunks: seq<Chunk>, crc: CrcState, file: seq<byte>, pos: nat): Txn {
    Txn(false, false, false, false, FileDataState, NO_ERROR, n, cfg.ackTicks, cfg.inactivityTicks,
        RxFlags(true, false, false, false, false, false, false, false),
        R2(NO_ERROR, 0, 0, 0, Incomplete, Discarded, 0, pos), Store(chunks, crc, file, pos))
  }

  lemma DataStep(cfg: Config, n: nat, chunks: seq<Chunk>, crc: CrcState, file: seq<byte>, pos: nat, offset: nat, data: seq<byte>)
    requires cfg.Ok() && Wf(chunks) && |chunks| <= cfg.maxChunks && offset + |data| < UINT32
    ensures var chunks' := Added(chunks, cfg.maxChunks, Chunk(offset, |data|));
            && Wf(chunks') && |chunks'| <= cfg.maxChunks
            && Step(cfg, Collecting(cfg, n, chunks, crc, file, pos), DataPdu(offset, data)).txn
               == Collecting(cfg, n, chunks', crc, Written(file, offset, data), offset + |data|)
  {
    hide Wf, Added, Written;
    AddedKeepsWf(chunks, cfg.maxChunks, Chunk(offset, |data|));
  }

  /** A piece that touches a byte the list has loses nothing. */
  lemma NextToCovered(s: seq<Chunk>, max: nat, c: Chunk, x: int)
    requires Wf(s) && |s| <= max && 0 < max && c.End() < UINT32 && Covers(s, x) && c.offset <= x + 1 && x <= c.End()
    ensures Wf(Added(s, max, c)) && |Added(s, max, c)| <= max
    ensures forall y :: Covers(Added(s, max, c), y) <==> Covers(s, y) || c.Has(y)
  {
    hide Wf, Added;
    var i :| 0 <= i < |s| && s[i].Has(x);
    assert Touches(s[i], c);
    AddedKeepsWf(s, max, c);
    forall y
      ensures Covers(Added(s, max, c), y) <==> Covers(s, y) || c.Has(y)
    {
      AddedCovers(s, max, c, y);
    }
  }

  lemma WritesStart(file: seq<byte>, x: nat)
    requires 0 < x <= |file|
    ensures Written([], 0, file[..x]) == file[..x]
  {
  }

  /** The hole is read as a zero. */
  lemma WritesRest(file: seq<byte>, x: nat)
    requires x + 1 < |file|
    ensures Written(file[..x], x + 1, file[x + 1..]) == file[x := 0]
  {
    var f := Extended(file[..x], |file|);
    assert f[..x + 1] == file[x := 0][..x + 1];
    assert f[|file|..] == [];
  }

  /** A transaction that has everything as far as its chunk list tells: the acknowledgement of the EOF and the FIN are due. */
  function Ended(cfg: Config, chunks: seq<Chunk>, crc: CrcState, file: seq<byte>, eofCrc: nat): Txn {
    Txn(false, false, false, false, FileDataState, NO_ERROR, |file|, cfg.ackTicks, cfg.inactivityTicks,
        RxFlags(true, false, true, false, true, true, true, false),
        R2(NO_ERROR, eofCrc, |file|, 0, Incomplete, Discarded, 0, |file|), Store(chunks, crc, file, |file|))
  }

  /** The chunk list after all bytes but the one at x. */
  function Filled(chunks: seq<Chunk>, max: nat, n: nat, x: nat): seq<Chunk>
    requires x < n
  {
    Added(if x == 0 then chunks else Added(chunks, max, Chunk(0, x)), max, Chunk(x + 1, n - x - 1))
  }

  lemma EofStep(cfg: Config, chunks: seq<Chunk>, crc: CrcState, file: seq<byte>, eofCrc: nat)
    requires cfg.Ok() && Wf(chunks) && |chunks| <= cfg.maxChunks && 0 < |file| < UINT32 && eofCrc < UINT32
    requires forall x :: 0 <= x < |file| ==> Covers(chunks, x)
    ensures var e := EofPdu(Some(EofFields(NO_ERROR, eofCrc, |file|)));
            && EventOk(e) && StoreOk(cfg, Collecting(cfg, |file|, chunks, crc, file, |file|).store)
            && Step(cfg, Collecting(cfg, |file|, chunks, crc, file, |file|), e).txn == Ended(cfg, chunks, crc, file, eofCrc)
  {
    hide Wf, Covers, ReportedGaps;
    NoGapIff(chunks, |file|);
  }

  lemma RestLeads(cfg: Config, chunks: seq<Chunk>, crc: CrcState, file: seq<byte>, x: nat)
    requires cfg.Ok() && Wf(chunks) && |chunks| <= cfg.maxChunks && x + 1 < |file| < UINT32
    requires forall y :: 0 <= y <= x ==> Covers(chunks, y)
    ensures forall e :: e in Rest(file, x) ==> EventOk(e)
    ensures var chunks' := Added(chunks, cfg.maxChunks, Chunk(x + 1, |file| - x - 1));
            && Wf(chunks') && |chunks'| <= cfg.maxChunks && (forall y :: 0 <= y < |file| ==> Covers(chunks', y))
            && After(cfg, Collecting(cfg, |file|, chunks, crc, file[..x], x), Rest(file, x))
               == Ended(cfg, chunks', crc, file[x := 0], Checksum(file))
  {
    hide Wf, Covers, Checksum, Added, Written, Step, Ended, Chunk.Has;
    var c := Chunk(x + 1, |file| - x - 1);
    var chunks' := Added(chunks, cfg.maxChunks, c);
    var t := Collecting(cfg, |file|, chunks, crc, file[..x], x);
    DataStep(cfg, |file|, chunks, crc, file[..x], x, x + 1, file[x + 1..]);
    WritesRest(file, x);
    NextToCovered(chunks, cfg.maxChunks, c, x);
    HasWithin(c);
    var es := Rest(file, x);
    var t1 := Step(cfg, t, es[0]).txn;
    ChecksumIsSmall(file);
    EofStep(cfg, chunks', crc, file[x := 0], Checksum(file));
    var t2 := Step(cfg, t1, es[1]).txn;
    assert es[1..] == [es[1]];
    assert After(cfg, t1, [es[1]]) == After(cfg, t2, []) == t2;
  }

  lemma ChecksumIsSmall(file: seq<byte>)
    ensures Checksum(file) < UINT32
  {
  }

  lemma HasWithin(c: Chunk)
    ensures forall y :: c.Has(y) <==> c.offset <= y < c.End()
  {
  }

  lemma AllButLeads(cfg: Config, chunks: seq<Chunk>, crc: CrcState, file: seq<byte>, x: nat)
    requires cfg.Ok() && Wf(chunks) && |chunks| <= cfg.maxChunks && x + 1 < |file| < UINT32 && Covers(chunks, x)
    ensures forall e :: e in AllBut(file, x) ==> EventOk(e)
    ensures var chunks' := Filled(chunks, cfg.maxChunks, |file|, x);
            && Wf(chunks') && |chunks'| <= cfg.maxChunks && (forall y :: 0 <= y < |file| ==> Covers(chunks', y))
            && After(cfg, Initial(cfg, Some(|file|), NO_ERROR, chunks, true, crc), AllBut(file, x))
               == Ended(cfg, chunks', crc, file[x := 0], Checksum(file))
  {
    hide Wf, Covers, Checksum, Added, Written, Step, Ended, Chunk.Has, Rest;
    var t := Initial(cfg, Some(|file|), NO_ERROR, chunks, true, crc);
    assert t == Collecting(cfg, |file|, chunks, crc, [], 0);
    if x == 0 {
      assert file[..0] == [] && AllBut(file, 0) == Rest(file, 0);
      RestLeads(cfg, chunks, crc, file, 0);
    } else {
      var c, e := Chunk(0, x), DataPdu(0, file[..x]);
      DataStep(cfg, |file|, chunks, crc, [], 0, 0, file[..x]);
      WritesStart(file, x);
      NextToCovered(chunks, cfg.maxChunks, c, x);
      HasWithin(c);
      RestLeads(cfg, Added(chunks, cfg.maxChunks, c), crc, file, x);
      assert AllBut(file, x)[0] == e && AllBut(file, x)[1..] == Rest(file, x);
      assert EventOk(e);
    }
  }

  // ---------------------------------------------------------------------------------------------------------------
  // With the right checksum
  // ---------------------------------------------------------------------------------------------------------------

  lemma EndedIsWhole(cfg: Config, chunks: seq<Chunk>, crc: CrcState, file: seq<byte>)
    requires cfg.Ok() && Wf(chunks) && |chunks| <= cfg.maxChunks && 0 < |file|
    requires forall y :: 0 <= y < |file| ==> Covers(chunks, y)
    ensures var t := Ended(cfg, chunks, crc, file, Checksum(file));
            && StoreOk(cfg, t.store) && Whole(t) && WillReport(t) && t.fsize == |file|
            && FinAt(cfg, t) == 1 + Wakeups(cfg, |file|) && (CanDigest(cfg, t) <==> cfg.crcBytesPerWakeup > 0)
            && forall m :: Patient(t, m) <==> cfg.inactivityTicks >= m
  {
    hide Wf, Covers, ReportedGaps, Digested, SumOfWords, Padded, Wakeups;
    NoGapIff(chunks, |file|);
    assert file[..|file|] == file;
  }

  // ---------------------------------------------------------------------------------------------------------------
  // With the wrong one
  // ---------------------------------------------------------------------------------------------------------------

  /** The event on which a FIN is sent. */
  lemma {:induction false} SentAt(cfg: Config, t: Txn, events: seq<Event>) returns (k: nat)
    requires StoreOk(cfg, t.store) && (forall e :: e in events ==> EventOk(e)) && Reports(Sent(cfg, t, events), NO_ERROR)
    ensures k < |events| && Reports(Step(cfg, After(cfg, t, events[..k]), events[k]).sent, NO_ERROR)
    decreases |events|
  {
    hide StoreOk, EventOk, Step, Reports;
    if events == [] {
      NothingReports();
      assert false;
    } else {
      var e, rest := events[0], events[1..];
      assert e in events;
      var r := Step(cfg, t, e);
      if Reports(r.sent, NO_ERROR) {
        k := 0;
        assert events[..0] == [];
      } else {
        EitherReports(r.sent, Sent(cfg, r.txn, rest), NO_ERROR);
        var m := SentAt(cfg, r.txn, rest);
        k := m + 1;
        assert events[..k][0] == e && events[..k][1..] == rest[..m];
      }
    }
  }

  lemma {:induction false} TicksKeepFile(cfg: Config, t: Txn, ticks: seq<Event>)
    requires StoreOk(cfg, t.store) && Quiet(ticks) && forall e :: e in ticks ==> EventOk(e)
    ensures var t' := After(cfg, t, ticks); t'.store.file == t.store.file && SameEof(t, t')
    decreases |ticks|
  {
    hide Wf, EventOk, Step, Accepts;
    if ticks != [] {
      var e := ticks[0];
      assert e in ticks && e.Tick?;
      TickAltersNothing(t, e, History([], []));
      OtherFile(cfg, t, e);
      FreedTicks(cfg, t, e);
      if !t.freed {
        TickKeepsFacts(cfg, t, e);
      }
      TicksKeepFile(cfg, Step(cfg, t, e).txn, ticks[1..]);
    }
  }

  lemma FreedTicks(cfg: Config, t: Txn, e: Event)
    requires StoreOk(cfg, t.store) && EventOk(e)
    ensures t.freed ==> Step(cfg, t, e).txn == t
  {
    hide Wf, Handled, TickResult;
  }

  lemma PduDigestsNothing(cfg: Config, t: Txn, e: Event, h: History)
    requires StoreOk(cfg, t.store) && EventOk(e) && !e.Tick? && h.digested == []
    ensures Record(cfg, t, e, h).digested == [] && !Alters(t, e, h)
  {
    hide Wf, Handled;
    DigestedNothing(START, t.store.file, t.r2.rxCrcCalcBytes);
    if Accepts(t, e) {
      assert forall i :: 0 <= i < |e.fd.value.data| ==> !Differs(h.digested, e.fd.value, i);
    }
  }

  /** Before anything is digested nothing digested can be altered, and ticks alter nothing. */
  lemma {:induction false} EarlyDataAltersNothing(cfg: Config, t: Txn, h: History, pdus: seq<Event>, ticks: seq<Event>)
    requires StoreOk(cfg, t.store) && (forall e :: e in pdus ==> EventOk(e) && !e.Tick?) && (pdus != [] ==> h.digested == [])
    requires Quiet(ticks) && forall e :: e in ticks ==> EventOk(e)
    ensures NeverAlters(cfg, t, h, pdus + ticks)
    decreases |pdus| + |ticks|
  {
    hide StoreOk, EventOk, Step, Record, Alters;
    var events := pdus + ticks;
    if pdus != [] {
      var e := pdus[0];
      assert e in pdus && events[0] == e && events[1..] == pdus[1..] + ticks;
      PduDigestsNothing(cfg, t, e, h);
      EarlyDataAltersNothing(cfg, Step(cfg, t, e).txn, Record(cfg, t, e, h), pdus[1..], ticks);
    } else if ticks != [] {
      var e := ticks[0];
      assert e in ticks && events == ticks && events[1..] == [] + ticks[1..];
      TickAltersNothing(t, e, h);
      EarlyDataAltersNothing(cfg, Step(cfg, t, e).txn, Record(cfg, t, e, h), [], ticks[1..]);
    }
  }

  // ---------------------------------------------------------------------------------------------------------------
  // The whole run
  // ---------------------------------------------------------------------------------------------------------------

  lemma {:induction false} ReceivedIsSent(cfg: Config, t: Txn, events: seq<Event>, x: int)
    requires StoreOk(cfg, t.store) && (forall e :: e in events ==> EventOk(e)) && Covers(Received(cfg, t, events), x)
    ensures exists e :: e in events && e.FileDataPdu? && e.fd.Some? && Piece(e.fd.value).Has(x)
    decreases |events|
  {
    hide StoreOk, EventOk, Step, Covers, Chunk.Has;
    if events == [] {
      NothingCovered(x);
    } else {
      var e, rest := events[0], events[1..];
      assert e in events;
      var t' := Step(cfg, t, e).txn;
      CoversConcat(if Accepts(t, e) then [Piece(e.fd.value)] else [], Received(cfg, t', rest), x);
      NothingCovered(x);
      if Covers(Received(cfg, t', rest), x) {
        ReceivedIsSent(cfg, t', rest, x);
      } else {
        CoversOne(Piece(e.fd.value), x);
      }
    }
  }

  lemma AllButSparesOne(cfg: Config, file: seq<byte>, x: nat, ticks: seq<Event>)
    requires x < |file| && Eager(cfg, ticks, |file|)
    ensures !exists e :: e in AllBut(file, x) + ticks && e.FileDataPdu? && e.fd.Some? && Piece(e.fd.value).Has(x)
  {
    hide Checksum, ReadsSucceed;
  }

  lemma AllButHasNoTicks(file: seq<byte>, x: nat)
    requires x < |file|
    ensures forall e :: e in AllBut(file, x) ==> !e.Tick?
  {
    hide Checksum;
  }

  lemma PduSendsNothing(cfg: Config, t: Txn, e: Event)
    requires StoreOk(cfg, t.store) && EventOk(e) && !e.Tick?
    ensures Step(cfg, t, e).sent == []
  {
    hide Wf, Handled, Heard;
  }

  /** Only ticks send anything. */
  lemma {:induction false} PdusSendNothing(cfg: Config, t: Txn, events: seq<Event>)
    requires StoreOk(cfg, t.store) && forall e :: e in events ==> EventOk(e) && !e.Tick?
    ensures Sent(cfg, t, events) == []
    decreases |events|
  {
    hide StoreOk, EventOk, Step;
    if events != [] {
      assert events[0] in events;
      PduSendsNothing(cfg, t, events[0]);
      PdusSendNothing(cfg, Step(cfg, t, events[0]).txn, events[1..]);
    }
  }

  lemma EndedHolds(cfg: Config, chunks: seq<Chunk>, crc: CrcState, file: seq<byte>, eofCrc: nat)
    ensures var t := Ended(cfg, chunks, crc, file, eofCrc);
            t.store.chunks == chunks && t.store.file == file && t.fsize == |file| && t.r2.eofCrc == eofCrc
  {
  }

  /** Whatever ticks follow, the file has a zero at x and the checksum of the EOF is that of the whole file. */
  lemma FinalFile(cfg: Config, chunks: seq<Chunk>, crc: CrcState, file: seq<byte>, x: nat, ticks: seq<Event>)
    requires cfg.Ok() && Wf(chunks) && |chunks| <= cfg.maxChunks && x + 1 < |file| < UINT32 && Covers(chunks, x)
    requires Quiet(ticks) && forall e :: e in ticks ==> EventOk(e)
    ensures forall e :: e in AllBut(file, x) + ticks ==> EventOk(e)
    ensures StoreOk(cfg, Initial(cfg, Some(|file|), NO_ERROR, chunks, true, crc).store)
    ensures var t := After(cfg, Initial(cfg, Some(|file|), NO_ERROR, chunks, true, crc), AllBut(file, x) + ticks);
            t.store.file == file[x := 0] && t.fsize == |file| && t.r2.eofCrc == Checksum(file)
  {
    hide Wf, Covers, Checksum, AllBut, Initial, Filled, EventOk, After, Ended;
    var t0, data := Initial(cfg, Some(|file|), NO_ERROR, chunks, true, crc), AllBut(file, x);
    InitiallyOk(cfg, Some(|file|), NO_ERROR, chunks, true, crc);
    AllButLeads(cfg, chunks, crc, file, x);
    AfterInParts(cfg, t0, data, ticks);
    EndedHolds(cfg, Filled(chunks, cfg.maxChunks, |file|, x), crc, file[x := 0], Checksum(file));
    TicksKeepFile(cfg, After(cfg, t0, data), ticks);
  }

  /** A FIN without an error has found the checksum of the EOF in the file. */
  lemma HoleIsSound(cfg: Config, chunks: seq<Chunk>, crc: CrcState, file: seq<byte>, x: nat, ticks: seq<Event>, e: Event)
    requires cfg.Ok() && Wf(chunks) && |chunks| <= cfg.maxChunks && x + 1 < |file| < UINT32 && Covers(chunks, x)
    requires Quiet(ticks) && EventOk(e) && (forall e :: e in ticks ==> EventOk(e))
    requires forall e :: e in AllBut(file, x) + ticks ==> EventOk(e)
    requires StoreOk(cfg, Initial(cfg, Some(|file|), NO_ERROR, chunks, true, crc).store)
    requires var t := After(cfg, Initial(cfg, Some(|file|), NO_ERROR, chunks, true, crc), AllBut(file, x) + ticks);
             Reports(Step(cfg, t, e).sent, NO_ERROR)
    ensures file[x] == 0
  {
    hide Wf, Covers, Checksum, AllBut, Initial, EventOk, Step, After, NeverAlters;
    var t0, data := Initial(cfg, Some(|file|), NO_ERROR, chunks, true, crc), AllBut(file, x);
    forall e | e in data
      ensures EventOk(e)
    {
      assert e in data + ticks;
    }
    AllButHasNoTicks(file, x);
    EarlyDataAltersNothing(cfg, t0, History(chunks, []), data, ticks);
    var t := After(cfg, t0, data + ticks);
    FileIsSound(cfg, Some(|file|), NO_ERROR, chunks, true, crc, data + ticks, e);
    FinalFile(cfg, chunks, crc, file, x, ticks);
    assert t.store.file[..t.fsize] == file[x := 0];
    HoleIsNoticedIff(file, x);
  }

  /** If the byte is not a zero, no tick sends a FIN without an error. */
  lemma HoleIsRefused(cfg: Config, chunks: seq<Chunk>, crc: CrcState, file: seq<byte>, x: nat, ticks: seq<Event>)
    requires cfg.Ok() && Wf(chunks) && |chunks| <= cfg.maxChunks && x + 1 < |file| < UINT32 && Covers(chunks, x)
    requires Quiet(ticks) && forall e :: e in AllBut(file, x) + ticks ==> EventOk(e)
    requires StoreOk(cfg, Initial(cfg, Some(|file|), NO_ERROR, chunks, true, crc).store)
    ensures Reports(Sent(cfg, Initial(cfg, Some(|file|), NO_ERROR, chunks, true, crc), AllBut(file, x) + ticks), NO_ERROR)
            ==> file[x] == 0
  {
    hide Wf, Covers, Checksum, AllBut, Initial, EventOk, Step, After, Sent, Reports;
    var t0, data := Initial(cfg, Some(|file|), NO_ERROR, chunks, true, crc), AllBut(file, x);
    if Reports(Sent(cfg, t0, data + ticks), NO_ERROR) {
      var k := SentAt(cfg, t0, data + ticks);
      ReportTicks(cfg, After(cfg, t0, (data + ticks)[..k]), (data + ticks)[k]);
      AllButHasNoTicks(file, x);
      assert k >= |data|;
      assert (data + ticks)[..k] == data + ticks[..k - |data|];
      HoleIsSound(cfg, chunks, crc, file, x, ticks[..k - |data|], (data + ticks)[k]);
    }
  }

  lemma ReportTicks(cfg: Config, t: Txn, e: Event)
    requires StoreOk(cfg, t.store) && EventOk(e) && Reports(Step(cfg, t, e).sent, NO_ERROR)
    ensures e.Tick?
  {
    hide Wf, Step;
    FinTicks(cfg, t, e);
  }

  /**
   Whether a byte that a recycled chunk list claims may be missing unnoticed, if all others arrive (the last of the file among
   them): the receiver sends a FIN without an error exactly if the byte is a zero, and the checksum can be finished in the ticks
   there are and before the inactivity timer runs out.
   */
  lemma ClaimedNeedNotArrive(cfg: Config, chunks: seq<Chunk>, crc: CrcState, file: seq<byte>, x: nat, ticks: seq<Event>)
    requires cfg.Ok() && Wf(chunks) && |chunks| <= cfg.maxChunks && x + 1 < |file| < UINT32
    requires Covers(chunks, x) && Eager(cfg, ticks, |file|)
    ensures forall e :: e in AllBut(file, x) + ticks ==> EventOk(e)
    ensures var t0 := Initial(cfg, Some(|file|), NO_ERROR, chunks, true, crc);
            var events, n := AllBut(file, x) + ticks, 1 + Wakeups(cfg, |file|);
            && !Covers(Received(cfg, t0, events), x)
            && (Reports(Sent(cfg, t0, events), NO_ERROR)
                <==> file[x] == 0 && 0 < cfg.crcBytesPerWakeup && |ticks| >= n && cfg.inactivityTicks >= n)
  {
    hide Wf, Covers, Checksum, AllBut, Initial, Whole, WillReport, Received, Reports, Sent, After, Chunk.Has;
    hide FinAt, CanDigest, Wakeups, Ended, Patient, Filled;
    var t0, events := Initial(cfg, Some(|file|), NO_ERROR, chunks, true, crc), AllBut(file, x) + ticks;
    var chunks' := Filled(chunks, cfg.maxChunks, |file|, x);
    InitiallyOk(cfg, Some(|file|), NO_ERROR, chunks, true, crc);
    TicksAreOk(cfg, ticks, |file|);
    AllButLeads(cfg, chunks, crc, file, x);
    if file[x] == 0 {
      assert file[x := 0] == file;
      var t := After(cfg, t0, AllBut(file, x));
      EndedIsWhole(cfg, chunks', crc, file);
      WholeIsReportedIff(cfg, t, ticks);
      SentInParts(cfg, t0, AllBut(file, x), ticks);
      AllButHasNoTicks(file, x);
      PdusSendNothing(cfg, t0, AllBut(file, x));
      assert [] + Sent(cfg, t, ticks) == Sent(cfg, t, ticks);
    } else {
      HoleIsRefused(cfg, chunks, crc, file, x, ticks);
    }
    AllButSparesOne(cfg, file, x, ticks);
    if Covers(Received(cfg, t0, events), x) {
      ReceivedIsSent(cfg, t0, events, x);
    }
  }

  lemma TicksAreOk(cfg: Config, ticks: seq<Event>, n: nat)
    requires Eager(cfg, ticks, n)
    ensures forall e :: e in ticks ==> EventOk(e)
  {
  }
}
