/**
 The streaming file checksum of the CF application (`cf_crc.c`): the modular checksum of section 4.2 of CCSDS
 727.0-B-5, the sum modulo 2^32 of the big-endian 32-bit words of the data, padded with zeros.
 */
module FileChecksum {
  import opened Bytes

  const WORD: nat := 0x1_0000_0000

  /** `CF_Crc_t`. */
  datatype CrcState = CrcState(working: nat, result: nat, index: nat) {
    ghost predicate Ok() {
      working < WORD && result < WORD && index < 4
    }
  }

  const START := CrcState(0, 0, 0)

  /** Addition and shifting on `uint32` wrap around. */
  function Wrap(x: nat): (r: nat)
    ensures r < WORD
  {
    x % WORD
  }

  /** One byte enters: it is shifted into the working word, which is added once it is complete. */
  function DigestByte(st: CrcState, b: byte): CrcState {
    var working := Wrap(st.working * 0x100) + b;
    if st.index + 1 == 4 then CrcState(working, Wrap(st.result + working), 0)
    else CrcState(working, st.result, st.index + 1)
  }

  function Digested(st: CrcState, data: seq<byte>): CrcState {
    if data == [] then st else DigestByte(Digested(st, data[..|data| - 1]), data[|data| - 1])
  }

  /** The pending bytes are moved to the top of a word and added. */
  function Finalized(st: CrcState): CrcState {
    if st.index == 0 then st
    else CrcState(0, Wrap(st.result + Wrap(st.working * ShiftBy(st.index))), 0)
  }

  /** 1 << (8 * (4 - index)). */
  function ShiftBy(index: nat): nat {
    if index == 1 then 0x100_0000 else if index == 2 then 0x1_0000 else 0x100
  }

  // ---------------------------------------------------------------------------------------------------------------
  // The definition
  // ---------------------------------------------------------------------------------------------------------------

  function Zeros(n: nat): (s: seq<byte>)
    ensures |s| == n
  {
    seq(n, _ => 0)
  }

  predicate Aligned(s: seq<byte>) {
    |s| % 4 == 0
  }

  function Padded(data: seq<byte>): (s: seq<byte>)
    ensures Aligned(s) && data <= s
  {
    data + Zeros((4 - |data| % 4) % 4)
  }

  function SumOfWords(s: seq<byte>): nat
    requires Aligned(s)
  {
    if s == [] then 0 else SumOfWords(s[..|s| - 4]) + BigEndian(s[|s| - 4..])
  }

  function Checksum(data: seq<byte>): nat {
    Wrap(SumOfWords(Padded(data)))
  }

  // ---------------------------------------------------------------------------------------------------------------
  // Theory
  // ---------------------------------------------------------------------------------------------------------------

  lemma {:induction false} DigestedConcat(st: CrcState, a: seq<byte>, b: seq<byte>)
    ensures Digested(st, a + b) == Digested(Digested(st, a), b)
  {
    if b == [] {
      assert a + b == a;
    } else {
      assert (a + b)[..|a + b| - 1] == a + b[..|b| - 1];
      DigestedConcat(st, a, b[..|b| - 1]);
    }
  }

  lemma {:induction false} DigestedOk(st: CrcState, data: seq<byte>)
    requires st.Ok()
    ensures Digested(st, data).Ok() && Digested(st, data).index == (st.index + |data|) % 4
  {
    hide Wrap;
    if data != [] {
      DigestedOk(st, data[..|data| - 1]);
      PendingStep1(Digested(st, data[..|data| - 1]).working, data[|data| - 1]);
    }
  }

  /** A byte enters below the pending ones, which are the working word modulo p. */
  lemma PendingStep1(w: nat, b: byte)
    ensures (Wrap(w * 0x100) + b) % 0x100 == b
    ensures Wrap(w * 0x100) + b < WORD
  {
  }

  lemma PendingStep2(w: nat, b: byte)
    ensures (Wrap(w * 0x100) + b) % 0x1_0000 == 0x100 * (w % 0x100) + b
  {
    PendingStep4(w, b);
    ByteBelow(w % 0x100_0000, b, 0x100);
    ModUnique(w % 0x100_0000, 0x100, w / 0x100 - 0x1_0000 * (w / 0x100_0000), w % 0x100);
  }

  lemma PendingStep3(w: nat, b: byte)
    ensures (Wrap(w * 0x100) + b) % 0x100_0000 == 0x100 * (w % 0x1_0000) + b
  {
    PendingStep4(w, b);
    ByteBelow(w % 0x100_0000, b, 0x1_0000);
    ModUnique(w % 0x100_0000, 0x1_0000, w / 0x1_0000 - 0x100 * (w / 0x100_0000), w % 0x1_0000);
  }

  lemma PendingStep4(w: nat, b: byte)
    ensures Wrap(w * 0x100) + b == 0x100 * (w % 0x100_0000) + b
  {
    ByteBelow(w, 0, 0x100_0000);
  }

  lemma ByteBelow(q: nat, b: byte, p: nat)
    requires p > 0
    ensures (0x100 * q + b) % (0x100 * p) == 0x100 * (q % p) + b
  {
    ModSplit(0x100 * q + b, p);
    ModUnique(0x100 * q + b, 0x100, q, b);
  }

  /** Up to three bytes from a word boundary on are pending: whatever was in the working word before, its low end holds
      them. */
  lemma {:induction false} Pending(st: CrcState, s: seq<byte>)
    requires st.Ok() && st.index == 0 && |s| <= 3
    ensures Digested(st, s).Ok() && Digested(st, s).index == |s| && Digested(st, s).result == st.result
    ensures Digested(st, s).working % Pow256(|s|) == BigEndian(s)
  {
    Powers();
    if s != [] {
      hide Wrap;
      var t := s[..|s| - 1];
      Pending(st, t);
      var w := Digested(st, t).working;
      var b := s[|s| - 1];
      PendingStep1(w, b);
      PendingStep2(w, b);
      PendingStep3(w, b);
    }
  }

  lemma Powers()
    ensures Pow256(0) == 1 && Pow256(1) == 0x100 && Pow256(2) == 0x1_0000 && Pow256(3) == 0x100_0000
    ensures Pow256(4) == WORD
  {
    PowValues();
  }

  /** Four bytes from a word boundary on are added as one word. */
  lemma WholeWord(st: CrcState, s: seq<byte>)
    requires st.Ok() && st.index == 0 && |s| == 4
    ensures Digested(st, s) == CrcState(BigEndian(s), Wrap(st.result + BigEndian(s)), 0)
  {
    hide Wrap;
    var t := s[..3];
    Pending(st, t);
    Powers();
    PendingStep4(Digested(st, t).working, s[3]);
  }

  lemma WrapAdd(x: nat, y: nat)
    ensures Wrap(Wrap(x) + y) == Wrap(x + y) && Wrap(x + Wrap(y)) == Wrap(x + y)
    ensures x < WORD ==> Wrap(x) == x
  {
    WrapDrops(x / WORD, x % WORD + y);
    WrapDrops(y / WORD, x + y % WORD);
  }

  /** Whole words are lost. */
  lemma {:induction false} WrapDrops(q: nat, z: nat)
    ensures Wrap(WORD * q + z) == Wrap(z)
  {
    if q > 0 {
      WrapDrops(q - 1, z);
      WrapOnce(WORD * (q - 1) + z);
    }
  }

  lemma WrapOnce(z: nat)
    ensures Wrap(WORD + z) == Wrap(z)
  {
  }

  /** Whole words add up; what was in the working word before no longer matters. */
  lemma {:induction false} DigestedWords(st: CrcState, s: seq<byte>)
    requires st.Ok() && st.index == 0 && Aligned(s)
    ensures Digested(st, s).Ok() && Digested(st, s).index == 0
    ensures Digested(st, s).result == Wrap(st.result + SumOfWords(s))
    ensures s != [] ==> Digested(st, s).working == BigEndian(s[|s| - 4..])
  {
    hide Wrap, DigestByte;
    if s == [] {
      WrapAdd(st.result, 0);
    } else {
      hide Digested, BigEndian;
      var a, b := s[..|s| - 4], s[|s| - 4..];
      assert s == a + b;
      DigestedOk(st, s);
      DigestedWords(st, a);
      DigestedConcat(st, a, b);
      WholeWord(Digested(st, a), b);
      WrapAdd(st.result + SumOfWords(a), BigEndian(b));
    }
  }

  lemma TimesPow(x: nat, n: nat)
    requires n > 0
    ensures 256 * (x * Pow256(n - 1)) == x * Pow256(n)
  {
  }

  lemma {:induction false} BigEndianZeros(s: seq<byte>, n: nat)
    ensures BigEndian(s + Zeros(n)) == BigEndian(s) * Pow256(n)
  {
    var t := s + Zeros(n);
    if n == 0 {
      assert t == s;
    } else {
      assert t[..|t| - 1] == s + Zeros(n - 1);
      assert BigEndian(t) == 256 * BigEndian(s + Zeros(n - 1));
      hide BigEndian, Pow256;
      BigEndianZeros(s, n - 1);
      TimesPow(BigEndian(s), n);
    }
  }

  /** Shifting the pending bytes to the top of the word shifts everything else out. */
  lemma ShiftedOut(w: nat, index: nat)
    requires index in {1, 2, 3}
    ensures Wrap(w * ShiftBy(index)) == (w % Pow256(index)) * Pow256(4 - index)
  {
    Powers();
  }

  lemma FinalizedShort(st: CrcState, s: seq<byte>)
    requires st.Ok() && st.index == 0 && |s| < 4
    ensures Finalized(Digested(st, s)).result
            == Wrap(st.result + LastWord(s))
  {
    hide Wrap, ShiftBy, Digested, BigEndian, Pow256;
    Pending(st, s);
    if s == [] {
      WrapAdd(st.result, 0);
    } else {
      ShiftedOut(Digested(st, s).working, |s|);
      BigEndianZeros(s, 4 - |s|);
    }
  }

  /** How many bytes of data are in whole words. */
  function WholeWords(data: seq<byte>): (k: nat)
    ensures k <= |data| < k + 4 && Aligned(data[..k])
  {
    |data| - |data| % 4
  }

  /** The word the last bytes of the data are in after padding, if there are any. */
  function LastWord(s: seq<byte>): nat
    requires |s| < 4
  {
    if s == [] then 0 else BigEndian(s + Zeros(4 - |s|))
  }

  lemma PaddedSum(data: seq<byte>)
    ensures SumOfWords(Padded(data)) == SumOfWords(data[..WholeWords(data)]) + LastWord(data[WholeWords(data)..])
  {
    var k := WholeWords(data);
    PaddedIs(data);
    hide BigEndian, Padded, WholeWords, Zeros;
    var p := Padded(data);
    if k == |data| {
      assert data[..k] == data;
    } else {
      assert p[..k] == data[..k] && p[k..] == data[k..] + Zeros(4 - |data[k..]|);
    }
  }

  lemma PaddedIs(data: seq<byte>)
    ensures var k := WholeWords(data);
            Padded(data) == if k == |data| then data else data + Zeros(4 - |data[k..]|)
    ensures WholeWords(data) < |data| ==> |Padded(data)| == WholeWords(data) + 4
  {
  }

  /** Whatever calls the data arrived in, the finished result is the checksum of all of it, added to what the result was
      at the word boundary where it started. */
  lemma FinalizedIsChecksum(st: CrcState, data: seq<byte>)
    requires st.Ok() && st.index == 0
    ensures Finalized(Digested(st, data)).result == Wrap(st.result + Checksum(data))
  {
    hide *;
    var k := WholeWords(data);
    var a, b := data[..k], data[k..];
    assert data == a + b;
    DigestedConcat(st, a, b);
    DigestedWords(st, a);
    FinalizedShort(Digested(st, a), b);
    PaddedSum(data);
    var last := LastWord(b);
    WrapAdd(st.result + SumOfWords(a), last);
    WrapAdd(st.result, SumOfWords(Padded(data)));
    ChecksumIs(data);
  }

  lemma ChecksumIs(data: seq<byte>)
    ensures Checksum(data) == Wrap(SumOfWords(Padded(data)))
  {
  }

  /** A result may be taken in the middle and the stream continued: the later result is that of the data with the earlier
      part padded to a word boundary. */
  lemma FinalizedMidway(st: CrcState, a: seq<byte>, b: seq<byte>)
    requires st.Ok() && st.index == 0
    ensures Finalized(Digested(Finalized(Digested(st, a)), b)).result
            == Wrap(st.result + Checksum(Padded(a) + b))
  {
    hide *;
    var mid := Finalized(Digested(st, a));
    FinalizedOk(st, a);
    FinalizedIsChecksum(st, a);
    FinalizedIsChecksum(mid, b);
    PaddedChecksum(a);
    ChecksumAdds(Padded(a), b);
    WrapAdd(st.result + Checksum(a), Checksum(b));
    WrapAdd(st.result, Checksum(a) + Checksum(b));
  }

  lemma ChecksumAdds(a: seq<byte>, b: seq<byte>)
    requires Aligned(a)
    ensures Checksum(a + b) == Wrap(Checksum(a) + Checksum(b))
  {
    hide *;
    PaddedTail(a, b);
    ChecksumIs(a + b);
    ChecksumIs(a);
    ChecksumIs(b);
    SumOfWordsConcat(a, Padded(b));
    WrapAdd(SumOfWords(a), Checksum(b));
    WrapAdd(SumOfWords(a), SumOfWords(Padded(b)));
  }

  lemma PaddedTail(a: seq<byte>, b: seq<byte>)
    requires Aligned(a)
    ensures Padded(a + b) == a + Padded(b) && Padded(a) == a
  {
    assert |a + b| % 4 == |b| % 4;
    var zeros := Zeros((4 - |b| % 4) % 4);
    assert (a + b) + zeros == a + (b + zeros);
    assert a + Zeros(0) == a;
  }

  lemma PaddedChecksum(a: seq<byte>)
    ensures Checksum(Padded(a)) == Checksum(a)
  {
    assert Padded(Padded(a)) == Padded(a);
  }

  /** What a byte at x counts in its word. */
  function Place(x: nat): nat {
    if x % 4 == 0 then 0x100_0000 else if x % 4 == 1 then 0x1_0000 else if x % 4 == 2 then 0x100 else 1
  }

  lemma WordWithByte(w: seq<byte>, k: nat, b: byte)
    requires |w| == 4 && k < 4
    ensures BigEndian(w[k := b]) == BigEndian(w) + (b - w[k]) * Place(k)
  {
    hide BigEndian;
    BigEndianOfFour(w);
    BigEndianOfFour(w[k := b]);
  }

  lemma {:induction false} SumWithByte(s: seq<byte>, x: nat, b: byte)
    requires Aligned(s) && x < |s|
    ensures SumOfWords(s[x := b]) == SumOfWords(s) + (b - s[x]) * Place(x)
  {
    hide BigEndian, SumOfWords, Place;
    AlignedFront(s);
    var n := |s| - 4;
    var front, word := s[..n], s[n..];
    assert s == front + word;
    SumOfWordsSnoc(front, word);
    if x < n {
      assert s[x := b] == front[x := b] + word;
      SumOfWordsSnoc(front[x := b], word);
      SumWithByte(front, x, b);
    } else {
      assert s[x := b] == front + word[x - n := b];
      SumOfWordsSnoc(front, word[x - n := b]);
      WordWithByte(word, x - n, b);
      SamePlace(x, n);
    }
  }

  lemma SamePlace(x: nat, n: nat)
    requires n <= x && n % 4 == 0
    ensures Place(x - n) == Place(x)
  {
    assert (x - n) % 4 == x % 4;
  }

  /** A byte read as zero is noticed by the checksum, unless it is one. */
  lemma HoleIsNoticedIff(data: seq<byte>, x: nat)
    requires x < |data|
    ensures Checksum(data[x := 0]) != Checksum(data) <==> data[x] != 0
  {
    hide SumOfWords, Wrap, Place;
    var s := Padded(data);
    assert Padded(data[x := 0]) == s[x := 0];
    SumWithByte(s, x, 0);
    PlaceFits(data[x], x);
    WrapsApart(SumOfWords(s[x := 0]), data[x] * Place(x));
  }

  lemma PlaceFits(b: byte, x: nat)
    ensures 0 <= b * Place(x) < WORD && (b * Place(x) == 0 <==> b == 0)
  {
  }

  lemma WrapsApart(x: nat, d: nat)
    requires d < WORD
    ensures Wrap(x + d) == Wrap(x) <==> d == 0
  {
  }

  lemma FinalizedOk(st: CrcState, s: seq<byte>)
    requires st.Ok() && st.index == 0
    ensures Finalized(Digested(st, s)).Ok() && Finalized(Digested(st, s)).index == 0
  {
    hide Digested;
    DigestedOk(st, s);
  }

  lemma SumOfWordsSnoc(s: seq<byte>, w: seq<byte>)
    requires Aligned(s) && |w| == 4
    ensures Aligned(s + w) && SumOfWords(s + w) == SumOfWords(s) + BigEndian(w)
  {
    hide BigEndian;
    assert (s + w)[..|s + w| - 4] == s && (s + w)[|s + w| - 4..] == w;
  }

  lemma AlignedFront(s: seq<byte>)
    requires Aligned(s)
    ensures s != [] ==> |s| >= 4 && Aligned(s[..|s| - 4])
    ensures s == [] ==> SumOfWords(s) == 0
  {
  }

  lemma {:induction false} SumOfWordsConcat(a: seq<byte>, b: seq<byte>)
    requires Aligned(a) && Aligned(b)
    ensures Aligned(a + b) && SumOfWords(a + b) == SumOfWords(a) + SumOfWords(b)
  {
    hide BigEndian, Aligned, SumOfWords;
    AlignedFront(b);
    if b == [] {
      assert a + b == a;
    } else {
      var n := |b| - 4;
      SumOfWordsConcat(a, b[..n]);
      SumOfWordsSnoc(a + b[..n], b[n..]);
      SumOfWordsSnoc(b[..n], b[n..]);
      assert a + b == a + b[..n] + b[n..] && b == b[..n] + b[n..];
    }
  }

  /** Finishing always leaves no pending bytes, but the working word is cleared only if there were some: after a whole
      number of words it still holds the last one. */
  lemma FinalizedClearsIff(data: seq<byte>)
    ensures Finalized(Digested(START, data)).index == 0
    ensures Finalized(Digested(START, data)).working == 0 <==>
              !Aligned(data) || data == [] || BigEndian(data[|data| - 4..]) == 0
  {
    DigestedOk(START, data);
    if Aligned(data) {
      DigestedWords(START, data);
    }
  }

  // ---------------------------------------------------------------------------------------------------------------
  // The code
  // ---------------------------------------------------------------------------------------------------------------

  class Crc {
    var working: nat
    var result: nat
    var index: nat

    ghost function State(): CrcState
      reads this
    {
      CrcState(working, result, index)
    }

    ghost predicate Valid()
      reads this
    {
      State().Ok()
    }

    /** `CF_CRC_Start`. */
    method Start()
      modifies this
      ensures State() == START
    {
      working, result, index := 0, 0, 0;
    }

    /** `CF_CRC_Digest`. */
    method Digest(data: seq<byte>)
      requires Valid()
      modifies this
      ensures Valid() && State() == Digested(old(State()), data)
    {
      hide Wrap;
      assert data[..0] == [];
      for i := 0 to |data|
        invariant Valid() && State() == Digested(old(State()), data[..i])
      {
        assert data[..i + 1][..i] == data[..i];
        PendingStep1(working, data[i]);
        working := Wrap(working * 0x100);
        working := working + data[i];
        index := index + 1;
        if index == 4 {
          result := Wrap(result + working);
          index := 0;
        }
      }
      assert data[..|data|] == data;
    }

    /** `CF_CRC_Finalize`. */
    method Finalize()
      requires Valid()
      modifies this
      ensures Valid() && State() == Finalized(old(State()))
    {
      if index != 0 {
        result := Wrap(result + Wrap(working * ShiftBy(index)));
        index := 0;
        working := 0;
      }
    }
  }

  lemma OneWord(w: seq<byte>)
    requires |w| == 4
    ensures Checksum(w) == 0x100_0000 * w[0] as int + 0x1_0000 * w[1] as int + 0x100 * w[2] as int + w[3]
  {
    hide BigEndian;
    BigEndianOfFour(w);
    assert Padded(w) == w;
    assert w[..0] == [] && w[0..] == w;
    assert SumOfWords([]) == 0;
    assert SumOfWords(w) == BigEndian(w);
    WrapAdd(BigEndian(w), 0);
  }

  function ByteOr0(s: seq<byte>, i: nat): byte {
    if i < |s| then s[i] else 0
  }

  /** The checksum in numbers: a word by the weights of its bytes, of which missing ones count as zeros. */
  lemma ChecksumInNumbers(s: seq<byte>)
    requires 0 < |s| <= 4
    ensures Checksum(s) == 0x100_0000 * s[0] as int + 0x1_0000 * ByteOr0(s, 1) as int
                           + 0x100 * ByteOr0(s, 2) as int + ByteOr0(s, 3)
  {
    hide SumOfWords;
    var w := Padded(s);
    assert Padded(w) == w && Checksum(s) == Checksum(w);
    OneWord(w);
  }
}
