/**
 CRC-16/ARC, bit by bit: polynomial 0x8005, initial value and final XOR 0, input and output reflected
 (`cfe_ts_crc.c`, lines 22-27).  `Arc` follows that definition; `Feed` is the usual form with the register kept
 reflected, and the two are proved equal.  On top of it: linearity, splitting, and which errors the CRC detects.

 Many proofs hide the bit operations (`hide`): what remains is equational, and the solver need not look at single bits.
 */
module CrcArc {

  // ---------------------------------------------------------------------------------------------------------------
  // Bits and bytes
  // ---------------------------------------------------------------------------------------------------------------

  /** The bits of a byte in the order in which they enter a reflected CRC: least significant first. */
  function ByteBits(b: bv8): (bits: seq<bool>)
    ensures |bits| == 8
  {
    [b & 0x01 != 0, b & 0x02 != 0, b & 0x04 != 0, b & 0x08 != 0,
     b & 0x10 != 0, b & 0x20 != 0, b & 0x40 != 0, b & 0x80 != 0]
  }

  function Bits(data: seq<bv8>): (bits: seq<bool>)
    ensures |bits| == 8 * |data|
  {
    if data == [] then [] else Bits(data[..|data| - 1]) + ByteBits(data[|data| - 1])
  }

  lemma {:induction false} BitsConcat(a: seq<bv8>, b: seq<bv8>)
    ensures Bits(a + b) == Bits(a) + Bits(b)
  {
    if b == [] {
      assert a + b == a;
    } else {
      assert (a + b)[..|a + b| - 1] == a + b[..|b| - 1];
      BitsConcat(a, b[..|b| - 1]);
    }
  }

  lemma ByteBitsInjective(a: bv8, b: bv8)
    requires ByteBits(a) == ByteBits(b)
    ensures a == b
  {
    assert forall i :: 0 <= i < 8 ==> ByteBits(a)[i] == ByteBits(b)[i];
    assert ByteBits(a)[0] == ByteBits(b)[0] && ByteBits(a)[1] == ByteBits(b)[1];
    assert ByteBits(a)[2] == ByteBits(b)[2] && ByteBits(a)[3] == ByteBits(b)[3];
    assert ByteBits(a)[4] == ByteBits(b)[4] && ByteBits(a)[5] == ByteBits(b)[5];
    assert ByteBits(a)[6] == ByteBits(b)[6] && ByteBits(a)[7] == ByteBits(b)[7];
  }

  lemma {:induction false} BitsInjective(a: seq<bv8>, b: seq<bv8>)
    requires |a| == |b| && Bits(a) == Bits(b)
    ensures a == b
  {
    if a != [] {
      var n := |a| - 1;
      assert Bits(a)[..8 * n] == Bits(a[..n]) && Bits(b)[..8 * n] == Bits(b[..n]);
      assert Bits(a)[8 * n..] == ByteBits(a[n]) && Bits(b)[8 * n..] == ByteBits(b[n]);
      BitsInjective(a[..n], b[..n]);
      ByteBitsInjective(a[n], b[n]);
      assert a == a[..n] + [a[n]];
    }
  }

  // ---------------------------------------------------------------------------------------------------------------
  // The definition: most significant bit first, polynomial 0x8005, reflected at both ends
  // ---------------------------------------------------------------------------------------------------------------

  function Reflect(r: bv16): bv16 {
    var a := ((r & 0x5555) << 1) | ((r >> 1) & 0x5555);
    var b := ((a & 0x3333) << 2) | ((a >> 2) & 0x3333);
    var c := ((b & 0x0F0F) << 4) | ((b >> 4) & 0x0F0F);
    (c << 8) | (c >> 8)
  }

  function MsbFeed(r: bv16, bit: bool): bv16 {
    if (r & 0x8000 != 0) != bit then (r << 1) ^ 0x8005 else r << 1
  }

  function MsbFeedAll(r: bv16, bits: seq<bool>): bv16 {
    if bits == [] then r else MsbFeed(MsbFeedAll(r, bits[..|bits| - 1]), bits[|bits| - 1])
  }

  /** CRC-16/ARC of data, continuing from a previous value init. */
  function Arc(init: bv16, data: seq<bv8>): bv16 {
    Reflect(MsbFeedAll(Reflect(init), Bits(data)))
  }

  // ---------------------------------------------------------------------------------------------------------------
  // The reflected register
  // ---------------------------------------------------------------------------------------------------------------

  const POLY: bv16 := 0xA001

  function Xor(r: bv16, s: bv16): bv16 { r ^ s }

  function Half(r: bv16): bv16 { r >> 1 }

  predicate Odd(r: bv16) { r & 1 == 1 }

  /** One bit enters the register, which moves one place to the right. */
  function Feed(r: bv16, bit: bool): bv16 {
    if Odd(r) != bit then Xor(Half(r), POLY) else Half(r)
  }

  function FeedAll(r: bv16, bits: seq<bool>): bv16 {
    if bits == [] then r else Feed(FeedAll(r, bits[..|bits| - 1]), bits[|bits| - 1])
  }

  lemma ReflectFacts(m: bv16)
    ensures Reflect(Reflect(m)) == m
    ensures Reflect(m << 1) == Half(Reflect(m))
    ensures Reflect((m << 1) ^ 0x8005) == Xor(Half(Reflect(m)), POLY)
    ensures (m & 0x8000 != 0) <==> Odd(Reflect(m))
  {
  }

  /** Feeding the unreflected register is feeding the reflected one. */
  lemma FeedReflects(m: bv16, bit: bool)
    ensures Reflect(MsbFeed(m, bit)) == Feed(Reflect(m), bit)
  {
    hide Reflect, Half, Xor, Odd;
    ReflectFacts(m);
  }

  lemma {:induction false} FeedAllReflects(r: bv16, bits: seq<bool>)
    ensures Reflect(MsbFeedAll(Reflect(r), bits)) == FeedAll(r, bits)
  {
    hide Reflect, Feed, MsbFeed;
    if bits == [] {
      ReflectFacts(r);
    } else {
      var n := |bits| - 1;
      FeedAllReflects(r, bits[..n]);
      FeedReflects(MsbFeedAll(Reflect(r), bits[..n]), bits[n]);
    }
  }

  /** The reflected form computes the definition. */
  lemma ArcIsFeedAll(init: bv16, data: seq<bv8>)
    ensures Arc(init, data) == FeedAll(init, Bits(data))
  {
    hide Reflect;
    FeedAllReflects(init, Bits(data));
  }

  lemma {:induction false} FeedAllConcat(r: bv16, a: seq<bool>, b: seq<bool>)
    ensures FeedAll(r, a + b) == FeedAll(FeedAll(r, a), b)
  {
    hide Feed;
    if b == [] {
      assert a + b == a;
    } else {
      assert (a + b)[..|a + b| - 1] == a + b[..|b| - 1];
      FeedAllConcat(r, a, b[..|b| - 1]);
    }
  }

  /** Data may be processed in pieces. */
  lemma ArcConcat(init: bv16, a: seq<bv8>, b: seq<bv8>)
    ensures Arc(init, a + b) == Arc(Arc(init, a), b)
  {
    hide Arc;
    ArcIsFeedAll(init, a + b);
    ArcIsFeedAll(init, a);
    ArcIsFeedAll(Arc(init, a), b);
    BitsConcat(a, b);
    FeedAllConcat(init, Bits(a), Bits(b));
  }

  // ---------------------------------------------------------------------------------------------------------------
  // A byte at a time
  // ---------------------------------------------------------------------------------------------------------------

  function Clock(r: bv16): bv16 {
    Feed(r, false)
  }

  function Clock8(r: bv16): bv16 {
    Clock(Clock(Clock(Clock(Clock(Clock(Clock(Clock(r))))))))
  }

  function Hi(r: bv16): bv16 { r >> 8 }

  function Lo(r: bv16): bv16 { r & 0x00FF }

  lemma XorHalf(r: bv16, s: bv16)
    ensures Half(Xor(r, s)) == Xor(Half(r), Half(s))
    ensures Odd(Xor(r, s)) <==> (Odd(r) != Odd(s))
  {
  }

  lemma XorPoly(r: bv16, s: bv16)
    ensures Xor(Xor(r, POLY), Xor(s, POLY)) == Xor(r, s)
  {
  }

  lemma XorPolyLeft(r: bv16, s: bv16)
    ensures Xor(Xor(r, POLY), s) == Xor(Xor(r, s), POLY)
  {
  }

  lemma XorPolyRight(r: bv16, s: bv16)
    ensures Xor(r, Xor(s, POLY)) == Xor(Xor(r, s), POLY)
  {
  }

  lemma FeedLinear(r: bv16, s: bv16, a: bool, b: bool)
    ensures Feed(Xor(r, s), a != b) == Xor(Feed(r, a), Feed(s, b))
  {
    hide Xor, Half, Odd;
    XorHalf(r, s);
    XorPoly(Half(r), Half(s));
    XorPolyLeft(Half(r), Half(s));
    XorPolyRight(Half(r), Half(s));
  }

  lemma Clock8Linear(r: bv16, s: bv16)
    ensures Clock8(Xor(r, s)) == Xor(Clock8(r), Clock8(s))
  {
    hide Feed, Xor;
    FeedLinear(r, s, false, false);
    var r1, s1 := Clock(r), Clock(s);
    FeedLinear(r1, s1, false, false);
    var r2, s2 := Clock(r1), Clock(s1);
    FeedLinear(r2, s2, false, false);
    var r3, s3 := Clock(r2), Clock(s2);
    FeedLinear(r3, s3, false, false);
    var r4, s4 := Clock(r3), Clock(s3);
    FeedLinear(r4, s4, false, false);
    var r5, s5 := Clock(r4), Clock(s4);
    FeedLinear(r5, s5, false, false);
    var r6, s6 := Clock(r5), Clock(s5);
    FeedLinear(r6, s6, false, false);
    var r7, s7 := Clock(r6), Clock(s6);
    FeedLinear(r7, s7, false, false);
  }

  lemma HighAndLow(r: bv16)
    ensures r == Xor(r & 0xFF00, Lo(r))
    ensures Clock8(r & 0xFF00) == Hi(r)
  {
  }

  lemma Clock8Splits(r: bv16)
    ensures Clock8(r) == Xor(Hi(r), Clock8(Lo(r)))
  {
    hide Clock8, Xor, Hi, Lo;
    HighAndLow(r);
    Clock8Linear(r & 0xFF00, Lo(r));
  }

  /** Feeding the lowest bit of w leaves the rest of w, shifted, still to be added. */
  lemma FeedPeels(r: bv16, w: bv16)
    ensures Xor(Feed(r, Odd(w)), Half(w)) == Clock(Xor(r, w))
  {
    hide Xor, Half, Odd;
    XorHalf(r, w);
    XorPolyLeft(Half(r), Half(w));
  }

  function Feed8(r: bv16, b0: bool, b1: bool, b2: bool, b3: bool, b4: bool, b5: bool, b6: bool, b7: bool): bv16 {
    Feed(Feed(Feed(Feed(Feed(Feed(Feed(Feed(r, b0), b1), b2), b3), b4), b5), b6), b7)
  }

  lemma FeedAllEight(r: bv16, t: seq<bool>)
    requires |t| == 8
    ensures FeedAll(r, t) == Feed8(r, t[0], t[1], t[2], t[3], t[4], t[5], t[6], t[7])
  {
    hide Feed;
    assert t[..1][..0] == [] && t[..2][..1] == t[..1] && t[..3][..2] == t[..2] && t[..4][..3] == t[..3];
    assert t[..5][..4] == t[..4] && t[..6][..5] == t[..5] && t[..7][..6] == t[..6] && t[..8] == t;
    assert FeedAll(r, t[..1]) == Feed(r, t[0]);
    assert FeedAll(r, t[..2]) == Feed(FeedAll(r, t[..1]), t[1]);
    assert FeedAll(r, t[..3]) == Feed(FeedAll(r, t[..2]), t[2]);
    assert FeedAll(r, t[..4]) == Feed(FeedAll(r, t[..3]), t[3]);
    assert FeedAll(r, t[..5]) == Feed(FeedAll(r, t[..4]), t[4]);
    assert FeedAll(r, t[..6]) == Feed(FeedAll(r, t[..5]), t[5]);
    assert FeedAll(r, t[..7]) == Feed(FeedAll(r, t[..6]), t[6]);
  }

  lemma Feed8Peels(r: bv16, w0: bv16)
    ensures var w1 := Half(w0); var w2 := Half(w1); var w3 := Half(w2); var w4 := Half(w3);
            var w5 := Half(w4); var w6 := Half(w5); var w7 := Half(w6);
            Xor(Feed8(r, Odd(w0), Odd(w1), Odd(w2), Odd(w3), Odd(w4), Odd(w5), Odd(w6), Odd(w7)), Half(w7))
            == Clock8(Xor(r, w0))
  {
    hide Feed, Clock, Xor, Half, Odd;
    FeedPeels(r, w0);
    var w1, r1 := Half(w0), Feed(r, Odd(w0));
    FeedPeels(r1, w1);
    var w2, r2 := Half(w1), Feed(r1, Odd(w1));
    FeedPeels(r2, w2);
    var w3, r3 := Half(w2), Feed(r2, Odd(w2));
    FeedPeels(r3, w3);
    var w4, r4 := Half(w3), Feed(r3, Odd(w3));
    FeedPeels(r4, w4);
    var w5, r5 := Half(w4), Feed(r4, Odd(w4));
    FeedPeels(r5, w5);
    var w6, r6 := Half(w5), Feed(r5, Odd(w5));
    FeedPeels(r6, w6);
    var w7, r7 := Half(w6), Feed(r6, Odd(w6));
    FeedPeels(r7, w7);
  }

  /** The bits of a byte, read off by repeated halving. */
  lemma HalvesOfByte(b: bv8)
    ensures var w0 := b as bv16; var w1 := Half(w0); var w2 := Half(w1); var w3 := Half(w2); var w4 := Half(w3);
            var w5 := Half(w4); var w6 := Half(w5); var w7 := Half(w6);
            ByteBits(b) == [Odd(w0), Odd(w1), Odd(w2), Odd(w3), Odd(w4), Odd(w5), Odd(w6), Odd(w7)] && Half(w7) == 0
  {
  }

  /** Feeding a whole byte adds it to the register and clocks eight times. */
  lemma FeedByte(r: bv16, b: bv8)
    ensures FeedAll(r, ByteBits(b)) == Clock8(Xor(r, b as bv16))
  {
    hide Feed8, Clock8, Xor, Half, Odd, ByteBits;
    HalvesOfByte(b);
    FeedAllEight(r, ByteBits(b));
    Feed8Peels(r, b as bv16);
    XorZero(FeedAll(r, ByteBits(b)));
  }

  lemma XorZero(r: bv16)
    ensures Xor(r, 0) == r && Xor(r, r) == 0
    ensures forall s :: Xor(r, s) == 0 ==> r == s
  {
  }

  // ---------------------------------------------------------------------------------------------------------------
  // Which errors are detected
  // ---------------------------------------------------------------------------------------------------------------

  function XorBits(a: seq<bool>, b: seq<bool>): (d: seq<bool>)
    requires |a| == |b|
    ensures |d| == |a| && forall i :: 0 <= i < |d| ==> d[i] == (a[i] != b[i])
  {
    seq(|a|, i requires 0 <= i < |a| => a[i] != b[i])
  }

  /** The register depends linearly on the bits: only the difference of two inputs matters. */
  lemma {:induction false} FeedAllLinear(r: bv16, s: bv16, a: seq<bool>, b: seq<bool>)
    requires |a| == |b|
    ensures FeedAll(Xor(r, s), XorBits(a, b)) == Xor(FeedAll(r, a), FeedAll(s, b))
  {
    hide Feed, Xor;
    if a != [] {
      var n := |a| - 1;
      assert XorBits(a, b)[..n] == XorBits(a[..n], b[..n]);
      FeedAllLinear(r, s, a[..n], b[..n]);
      FeedLinear(FeedAll(r, a[..n]), FeedAll(s, b[..n]), a[n], b[n]);
    }
  }

  ghost predicate AllZero(bits: seq<bool>) {
    forall i :: 0 <= i < |bits| ==> !bits[i]
  }

  lemma FeedZero(r: bv16)
    ensures Feed(r, false) == 0 <==> r == 0
  {
  }

  /** Zero bits neither wake an empty register nor empty a non-empty one. */
  lemma {:induction false} FeedZeros(r: bv16, bits: seq<bool>)
    requires AllZero(bits)
    ensures FeedAll(r, bits) == 0 <==> r == 0
  {
    hide Feed;
    if bits != [] {
      var n := |bits| - 1;
      FeedZeros(r, bits[..n]);
      FeedZero(FeedAll(r, bits[..n]));
    }
  }

  /** m has its lowest bits set, as many as there are in bits; 16 places are enough for 16 bits. */
  function Mask(n: nat): bv16 {
    if n == 0 then 0 else (Mask(n - 1) << 1) | 1
  }

  predicate Fits(r: bv16, m: bv16) { r & !m == 0 }

  predicate TopClear(r: bv16) { r & 0x8000 == 0 }

  lemma {:induction false} MaskTop(n: nat)
    requires n <= 15
    ensures TopClear(Mask(n))
  {
    assert Mask(3) == 0x0007;
    assert Mask(6) == 0x003F;
    assert Mask(9) == 0x01FF;
    assert Mask(12) == 0x0FFF;
    assert Mask(15) == 0x7FFF;
    assert Mask(1) == 0x0001 && Mask(2) == 0x0003 && Mask(4) == 0x000F && Mask(5) == 0x001F && Mask(7) == 0x007F;
    assert Mask(8) == 0x00FF && Mask(10) == 0x03FF && Mask(11) == 0x07FF && Mask(13) == 0x1FFF && Mask(14) == 0x3FFF;
  }

  lemma UnFeed(r: bv16, bit: bool, m: bv16)
    requires TopClear(m) && Fits(Feed(r, bit), m)
    ensures Fits(r, (m << 1) | 1)
    ensures Odd(r) == bit && Half(r) == Feed(r, bit)
  {
  }

  lemma FeedAllFirst(r: bv16, bits: seq<bool>)
    requires bits != []
    ensures FeedAll(r, bits) == FeedAll(Feed(r, bits[0]), bits[1..])
  {
    hide Feed;
    assert bits == bits[..1] + bits[1..];
    FeedAllConcat(r, bits[..1], bits[1..]);
    assert bits[..1][..0] == [];
  }

  /** If at most 16 bits empty the register, they were its lowest bits and it held nothing else. */
  lemma {:induction false} EmptiedMeansHeld(r: bv16, bits: seq<bool>)
    requires |bits| <= 16 && FeedAll(r, bits) == 0
    ensures Fits(r, Mask(|bits|))
    ensures r == 0 ==> AllZero(bits)
    decreases |bits|
  {
    ZeroFits(r);
    if bits != [] {
      hide Feed, Fits, TopClear, Odd, Half, FeedAll;
      FeedAllFirst(r, bits);
      EmptiedMeansHeld(Feed(r, bits[0]), bits[1..]);
      MaskTop(|bits| - 1);
      UnFeed(r, bits[0], Mask(|bits| - 1));
    }
  }

  lemma ZeroFits(r: bv16)
    ensures Half(0) == 0 && !Odd(0)
    ensures r == 0 ==> Fits(r, Mask(0))
  {
  }

  /** The bits a and b agree outside the 16 positions from k on. */
  ghost predicate DifferOnlyWithin(a: seq<bool>, b: seq<bool>, k: nat) {
    |a| == |b| && forall i :: 0 <= i < |a| && !(k <= i < k + 16) ==> a[i] == b[i]
  }

  /** A non-empty difference of at most 16 bits between zeros does not leave the register empty. */
  lemma WindowZero(d: seq<bool>, lo: nat, hi: nat)
    requires lo <= hi <= |d| && hi <= lo + 16
    requires AllZero(d[..lo]) && AllZero(d[hi..]) && FeedAll(0, d) == 0
    ensures AllZero(d)
  {
    hide FeedAll;
    assert d == d[..lo] + d[lo..hi] + d[hi..];
    FeedAllConcat(0, d[..lo] + d[lo..hi], d[hi..]);
    FeedAllConcat(0, d[..lo], d[lo..hi]);
    FeedZeros(0, d[..lo]);
    FeedZeros(FeedAll(0, d[lo..hi]), d[hi..]);
    EmptiedMeansHeld(0, d[lo..hi]);
    forall i | 0 <= i < |d|
      ensures !d[i]
    {
      assert if i < lo then !d[..lo][i] else if i < hi then !d[lo..hi][i - lo] else !d[hi..][i - hi];
    }
  }

  /** Every burst of up to 16 bits is detected, at whatever position and for whatever previous value. */
  lemma BurstDetected(init: bv16, a: seq<bv8>, b: seq<bv8>, k: nat)
    requires a != b && DifferOnlyWithin(Bits(a), Bits(b), k)
    ensures Arc(init, a) != Arc(init, b)
  {
    hide FeedAll, Arc, Xor, Bits;
    var x, y := Bits(a), Bits(b);
    var d := XorBits(x, y);
    ArcIsFeedAll(init, a);
    ArcIsFeedAll(init, b);
    FeedAllLinear(init, init, x, y);
    XorZero(init);
    XorZero(FeedAll(init, x));
    if FeedAll(init, x) == FeedAll(init, y) {
      var lo := if k <= |d| then k else |d|;
      var hi := if lo + 16 <= |d| then lo + 16 else |d|;
      WindowZero(d, lo, hi);
      assert x == y;
      BitsInjective(a, b);
    }
  }

  // ---------------------------------------------------------------------------------------------------------------
  // Parity
  // ---------------------------------------------------------------------------------------------------------------

  predicate OddNibble(r: bv16) {
    ((r & 1 != 0) != (r & 2 != 0)) != ((r & 4 != 0) != (r & 8 != 0))
  }

  /** The number of ones in r is odd. */
  predicate OddOnes(r: bv16) {
    (OddNibble(r) != OddNibble(r >> 4)) != (OddNibble(r >> 8) != OddNibble(r >> 12))
  }

  predicate OddBits(bits: seq<bool>) {
    if bits == [] then false else OddBits(bits[..|bits| - 1]) != bits[|bits| - 1]
  }

  lemma OddOnesPoly(r: bv16)
    ensures OddOnes(Xor(r, POLY)) != OddOnes(r)
  {
  }

  lemma OddOnesHalf(r: bv16)
    ensures OddOnes(Half(r)) == (OddOnes(r) != Odd(r))
    ensures !OddOnes(0)
  {
  }

  lemma FeedParity(r: bv16, bit: bool)
    ensures OddOnes(Feed(r, bit)) == (OddOnes(r) != bit)
  {
    hide OddOnes, Half, Odd, Xor;
    OddOnesHalf(r);
    OddOnesPoly(Half(r));
  }

  lemma {:induction false} FeedAllParity(r: bv16, bits: seq<bool>)
    ensures OddOnes(FeedAll(r, bits)) == (OddOnes(r) != OddBits(bits))
  {
    hide OddOnes, Feed;
    if bits != [] {
      FeedAllParity(r, bits[..|bits| - 1]);
      FeedParity(FeedAll(r, bits[..|bits| - 1]), bits[|bits| - 1]);
    }
  }

  /** Every error that flips an odd number of bits is detected. */
  lemma OddErrorDetected(init: bv16, a: seq<bv8>, b: seq<bv8>)
    requires |a| == |b| && OddBits(XorBits(Bits(a), Bits(b)))
    ensures Arc(init, a) != Arc(init, b)
  {
    hide OddOnes, FeedAll, Xor, Arc, Bits;
    var x, y := Bits(a), Bits(b);
    ArcIsFeedAll(init, a);
    ArcIsFeedAll(init, b);
    FeedAllLinear(init, init, x, y);
    XorZero(init);
    XorZero(FeedAll(init, x));
    OddOnesHalf(0);
    FeedAllParity(0, XorBits(x, y));
  }

  // ---------------------------------------------------------------------------------------------------------------
  // The table
  // ---------------------------------------------------------------------------------------------------------------

  function Row0(lo: bv8): bv16 {
    if lo == 0 then 0x0000 else if lo == 1 then 0xC0C1 else if lo == 2 then 0xC181 else if lo == 3 then 0x0140 else
    if lo == 4 then 0xC301 else if lo == 5 then 0x03C0 else if lo == 6 then 0x0280 else if lo == 7 then 0xC241 else
    if lo == 8 then 0xC601 else if lo == 9 then 0x06C0 else if lo == 10 then 0x0780 else if lo == 11 then 0xC741 else
    if lo == 12 then 0x0500 else if lo == 13 then 0xC5C1 else if lo == 14 then 0xC481 else 0x0440
  }

  function Row1(lo: bv8): bv16 {
    if lo == 0 then 0xCC01 else if lo == 1 then 0x0CC0 else if lo == 2 then 0x0D80 else if lo == 3 then 0xCD41 else
    if lo == 4 then 0x0F00 else if lo == 5 then 0xCFC1 else if lo == 6 then 0xCE81 else if lo == 7 then 0x0E40 else
    if lo == 8 then 0x0A00 else if lo == 9 then 0xCAC1 else if lo == 10 then 0xCB81 else if lo == 11 then 0x0B40 else
    if lo == 12 then 0xC901 else if lo == 13 then 0x09C0 else if lo == 14 then 0x0880 else 0xC841
  }

  function Row2(lo: bv8): bv16 {
    if lo == 0 then 0xD801 else if lo == 1 then 0x18C0 else if lo == 2 then 0x1980 else if lo == 3 then 0xD941 else
    if lo == 4 then 0x1B00 else if lo == 5 then 0xDBC1 else if lo == 6 then 0xDA81 else if lo == 7 then 0x1A40 else
    if lo == 8 then 0x1E00 else if lo == 9 then 0xDEC1 else if lo == 10 then 0xDF81 else if lo == 11 then 0x1F40 else
    if lo == 12 then 0xDD01 else if lo == 13 then 0x1DC0 else if lo == 14 then 0x1C80 else 0xDC41
  }

  function Row3(lo: bv8): bv16 {
    if lo == 0 then 0x1400 else if lo == 1 then 0xD4C1 else if lo == 2 then 0xD581 else if lo == 3 then 0x1540 else
    if lo == 4 then 0xD701 else if lo == 5 then 0x17C0 else if lo == 6 then 0x1680 else if lo == 7 then 0xD641 else
    if lo == 8 then 0xD201 else if lo == 9 then 0x12C0 else if lo == 10 then 0x1380 else if lo == 11 then 0xD341 else
    if lo == 12 then 0x1100 else if lo == 13 then 0xD1C1 else if lo == 14 then 0xD081 else 0x1040
  }

  function Row4(lo: bv8): bv16 {
    if lo == 0 then 0xF001 else if lo == 1 then 0x30C0 else if lo == 2 then 0x3180 else if lo == 3 then 0xF141 else
    if lo == 4 then 0x3300 else if lo == 5 then 0xF3C1 else if lo == 6 then 0xF281 else if lo == 7 then 0x3240 else
    if lo == 8 then 0x3600 else if lo == 9 then 0xF6C1 else if lo == 10 then 0xF781 else if lo == 11 then 0x3740 else
    if lo == 12 then 0xF501 else if lo == 13 then 0x35C0 else if lo == 14 then 0x3480 else 0xF441
  }

  function Row5(lo: bv8): bv16 {
    if lo == 0 then 0x3C00 else if lo == 1 then 0xFCC1 else if lo == 2 then 0xFD81 else if lo == 3 then 0x3D40 else
    if lo == 4 then 0xFF01 else if lo == 5 then 0x3FC0 else if lo == 6 then 0x3E80 else if lo == 7 then 0xFE41 else
    if lo == 8 then 0xFA01 else if lo == 9 then 0x3AC0 else if lo == 10 then 0x3B80 else if lo == 11 then 0xFB41 else
    if lo == 12 then 0x3900 else if lo == 13 then 0xF9C1 else if lo == 14 then 0xF881 else 0x3840
  }

  function Row6(lo: bv8): bv16 {
    if lo == 0 then 0x2800 else if lo == 1 then 0xE8C1 else if lo == 2 then 0xE981 else if lo == 3 then 0x2940 else
    if lo == 4 then 0xEB01 else if lo == 5 then 0x2BC0 else if lo == 6 then 0x2A80 else if lo == 7 then 0xEA41 else
    if lo == 8 then 0xEE01 else if lo == 9 then 0x2EC0 else if lo == 10 then 0x2F80 else if lo == 11 then 0xEF41 else
    if lo == 12 then 0x2D00 else if lo == 13 then 0xEDC1 else if lo == 14 then 0xEC81 else 0x2C40
  }

  function Row7(lo: bv8): bv16 {
    if lo == 0 then 0xE401 else if lo == 1 then 0x24C0 else if lo == 2 then 0x2580 else if lo == 3 then 0xE541 else
    if lo == 4 then 0x2700 else if lo == 5 then 0xE7C1 else if lo == 6 then 0xE681 else if lo == 7 then 0x2640 else
    if lo == 8 then 0x2200 else if lo == 9 then 0xE2C1 else if lo == 10 then 0xE381 else if lo == 11 then 0x2340 else
    if lo == 12 then 0xE101 else if lo == 13 then 0x21C0 else if lo == 14 then 0x2080 else 0xE041
  }

  function Row8(lo: bv8): bv16 {
    if lo == 0 then 0xA001 else if lo == 1 then 0x60C0 else if lo == 2 then 0x6180 else if lo == 3 then 0xA141 else
    if lo == 4 then 0x6300 else if lo == 5 then 0xA3C1 else if lo == 6 then 0xA281 else if lo == 7 then 0x6240 else
    if lo == 8 then 0x6600 else if lo == 9 then 0xA6C1 else if lo == 10 then 0xA781 else if lo == 11 then 0x6740 else
    if lo == 12 then 0xA501 else if lo == 13 then 0x65C0 else if lo == 14 then 0x6480 else 0xA441
  }

  function Row9(lo: bv8): bv16 {
    if lo == 0 then 0x6C00 else if lo == 1 then 0xACC1 else if lo == 2 then 0xAD81 else if lo == 3 then 0x6D40 else
    if lo == 4 then 0xAF01 else if lo == 5 then 0x6FC0 else if lo == 6 then 0x6E80 else if lo == 7 then 0xAE41 else
    if lo == 8 then 0xAA01 else if lo == 9 then 0x6AC0 else if lo == 10 then 0x6B80 else if lo == 11 then 0xAB41 else
    if lo == 12 then 0x6900 else if lo == 13 then 0xA9C1 else if lo == 14 then 0xA881 else 0x6840
  }

  function RowA(lo: bv8): bv16 {
    if lo == 0 then 0x7800 else if lo == 1 then 0xB8C1 else if lo == 2 then 0xB981 else if lo == 3 then 0x7940 else
    if lo == 4 then 0xBB01 else if lo == 5 then 0x7BC0 else if lo == 6 then 0x7A80 else if lo == 7 then 0xBA41 else
    if lo == 8 then 0xBE01 else if lo == 9 then 0x7EC0 else if lo == 10 then 0x7F80 else if lo == 11 then 0xBF41 else
    if lo == 12 then 0x7D00 else if lo == 13 then 0xBDC1 else if lo == 14 then 0xBC81 else 0x7C40
  }

  function RowB(lo: bv8): bv16 {
    if lo == 0 then 0xB401 else if lo == 1 then 0x74C0 else if lo == 2 then 0x7580 else if lo == 3 then 0xB541 else
    if lo == 4 then 0x7700 else if lo == 5 then 0xB7C1 else if lo == 6 then 0xB681 else if lo == 7 then 0x7640 else
    if lo == 8 then 0x7200 else if lo == 9 then 0xB2C1 else if lo == 10 then 0xB381 else if lo == 11 then 0x7340 else
    if lo == 12 then 0xB101 else if lo == 13 then 0x71C0 else if lo == 14 then 0x7080 else 0xB041
  }

  function RowC(lo: bv8): bv16 {
    if lo == 0 then 0x5000 else if lo == 1 then 0x90C1 else if lo == 2 then 0x9181 else if lo == 3 then 0x5140 else
    if lo == 4 then 0x9301 else if lo == 5 then 0x53C0 else if lo == 6 then 0x5280 else if lo == 7 then 0x9241 else
    if lo == 8 then 0x9601 else if lo == 9 then 0x56C0 else if lo == 10 then 0x5780 else if lo == 11 then 0x9741 else
    if lo == 12 then 0x5500 else if lo == 13 then 0x95C1 else if lo == 14 then 0x9481 else 0x5440
  }

  function RowD(lo: bv8): bv16 {
    if lo == 0 then 0x9C01 else if lo == 1 then 0x5CC0 else if lo == 2 then 0x5D80 else if lo == 3 then 0x9D41 else
    if lo == 4 then 0x5F00 else if lo == 5 then 0x9FC1 else if lo == 6 then 0x9E81 else if lo == 7 then 0x5E40 else
    if lo == 8 then 0x5A00 else if lo == 9 then 0x9AC1 else if lo == 10 then 0x9B81 else if lo == 11 then 0x5B40 else
    if lo == 12 then 0x9901 else if lo == 13 then 0x59C0 else if lo == 14 then 0x5880 else 0x9841
  }

  function RowE(lo: bv8): bv16 {
    if lo == 0 then 0x8801 else if lo == 1 then 0x48C0 else if lo == 2 then 0x4980 else if lo == 3 then 0x8941 else
    if lo == 4 then 0x4B00 else if lo == 5 then 0x8BC1 else if lo == 6 then 0x8A81 else if lo == 7 then 0x4A40 else
    if lo == 8 then 0x4E00 else if lo == 9 then 0x8EC1 else if lo == 10 then 0x8F81 else if lo == 11 then 0x4F40 else
    if lo == 12 then 0x8D01 else if lo == 13 then 0x4DC0 else if lo == 14 then 0x4C80 else 0x8C41
  }

  function RowF(lo: bv8): bv16 {
    if lo == 0 then 0x4400 else if lo == 1 then 0x84C1 else if lo == 2 then 0x8581 else if lo == 3 then 0x4540 else
    if lo == 4 then 0x8701 else if lo == 5 then 0x47C0 else if lo == 6 then 0x4680 else if lo == 7 then 0x8641 else
    if lo == 8 then 0x8201 else if lo == 9 then 0x42C0 else if lo == 10 then 0x4380 else if lo == 11 then 0x8341 else
    if lo == 12 then 0x4100 else if lo == 13 then 0x81C1 else if lo == 14 then 0x8081 else 0x4040
  }

  /** `CrcTable[i]`: the row is chosen by the high half of i, the column by the low half. */
  function CrcTable(i: bv8): bv16 {
    var lo := i & 0x0F;
    if i & 0xF0 == 0x00 then Row0(lo) else
    if i & 0xF0 == 0x10 then Row1(lo) else
    if i & 0xF0 == 0x20 then Row2(lo) else
    if i & 0xF0 == 0x30 then Row3(lo) else
    if i & 0xF0 == 0x40 then Row4(lo) else
    if i & 0xF0 == 0x50 then Row5(lo) else
    if i & 0xF0 == 0x60 then Row6(lo) else
    if i & 0xF0 == 0x70 then Row7(lo) else
    if i & 0xF0 == 0x80 then Row8(lo) else
    if i & 0xF0 == 0x90 then Row9(lo) else
    if i & 0xF0 == 0xA0 then RowA(lo) else
    if i & 0xF0 == 0xB0 then RowB(lo) else
    if i & 0xF0 == 0xC0 then RowC(lo) else
    if i & 0xF0 == 0xD0 then RowD(lo) else
    if i & 0xF0 == 0xE0 then RowE(lo) else
    RowF(lo)
  }

  lemma Row0IsClock8(lo: bv8)
    requires lo < 16
    ensures Row0(lo) == Clock8((0x00 | lo) as bv16)
  {
  }

  lemma Row1IsClock8(lo: bv8)
    requires lo < 16
    ensures Row1(lo) == Clock8((0x10 | lo) as bv16)
  {
  }

  lemma Row2IsClock8(lo: bv8)
    requires lo < 16
    ensures Row2(lo) == Clock8((0x20 | lo) as bv16)
  {
  }

  lemma Row3IsClock8(lo: bv8)
    requires lo < 16
    ensures Row3(lo) == Clock8((0x30 | lo) as bv16)
  {
  }

  lemma Row4IsClock8(lo: bv8)
    requires lo < 16
    ensures Row4(lo) == Clock8((0x40 | lo) as bv16)
  {
  }

  lemma Row5IsClock8(lo: bv8)
    requires lo < 16
    ensures Row5(lo) == Clock8((0x50 | lo) as bv16)
  {
  }

  lemma Row6IsClock8(lo: bv8)
    requires lo < 16
    ensures Row6(lo) == Clock8((0x60 | lo) as bv16)
  {
  }

  lemma Row7IsClock8(lo: bv8)
    requires lo < 16
    ensures Row7(lo) == Clock8((0x70 | lo) as bv16)
  {
  }

  lemma Row8IsClock8(lo: bv8)
    requires lo < 16
    ensures Row8(lo) == Clock8((0x80 | lo) as bv16)
  {
  }

  lemma Row9IsClock8(lo: bv8)
    requires lo < 16
    ensures Row9(lo) == Clock8((0x90 | lo) as bv16)
  {
  }

  lemma RowAIsClock8(lo: bv8)
    requires lo < 16
    ensures RowA(lo) == Clock8((0xA0 | lo) as bv16)
  {
  }

  lemma RowBIsClock8(lo: bv8)
    requires lo < 16
    ensures RowB(lo) == Clock8((0xB0 | lo) as bv16)
  {
  }

  lemma RowCIsClock8(lo: bv8)
    requires lo < 16
    ensures RowC(lo) == Clock8((0xC0 | lo) as bv16)
  {
  }

  lemma RowDIsClock8(lo: bv8)
    requires lo < 16
    ensures RowD(lo) == Clock8((0xD0 | lo) as bv16)
  {
  }

  lemma RowEIsClock8(lo: bv8)
    requires lo < 16
    ensures RowE(lo) == Clock8((0xE0 | lo) as bv16)
  {
  }

  lemma RowFIsClock8(lo: bv8)
    requires lo < 16
    ensures RowF(lo) == Clock8((0xF0 | lo) as bv16)
  {
  }

  lemma Nibbles(i: bv8)
    ensures (i & 0xF0) | (i & 0x0F) == i && i & 0x0F < 16
    ensures i & 0xF0 in {0x00, 0x10, 0x20, 0x30, 0x40, 0x50, 0x60, 0x70, 0x80, 0x90, 0xA0, 0xB0, 0xC0, 0xD0, 0xE0, 0xF0}
  {
  }

  /** Every table entry is its index clocked eight times. */
  lemma TableIsClock8(i: bv8)
    ensures CrcTable(i) == Clock8(i as bv16)
  {
    hide Clock8, Row0, Row1, Row2, Row3, Row4, Row5, Row6, Row7, Row8, Row9, RowA, RowB, RowC, RowD, RowE, RowF;
    Nibbles(i);
    var lo := i & 0x0F;
    Row0IsClock8(lo);
    Row1IsClock8(lo);
    Row2IsClock8(lo);
    Row3IsClock8(lo);
    Row4IsClock8(lo);
    Row5IsClock8(lo);
    Row6IsClock8(lo);
    Row7IsClock8(lo);
    Row8IsClock8(lo);
    Row9IsClock8(lo);
    RowAIsClock8(lo);
    RowBIsClock8(lo);
    RowCIsClock8(lo);
    RowDIsClock8(lo);
    RowEIsClock8(lo);
    RowFIsClock8(lo);
  }

  /** One round of the table loop. */
  function TableRound(crc: bv16, b: bv8): bv16 {
    Xor((crc >> 8) & 0x00FF, CrcTable(((crc ^ (b as bv16)) & 0x00FF) as bv8))
  }

  /** One round of the table loop is feeding one byte. */
  lemma TableStep(crc: bv16, b: bv8)
    ensures TableRound(crc, b) == FeedAll(crc, ByteBits(b))
  {
    hide Clock8, FeedAll, ByteBits, CrcTable, Xor, Hi, Lo;
    FeedByte(crc, b);
    Clock8Splits(Xor(crc, b as bv16));
    TableIsClock8(((crc ^ (b as bv16)) & 0x00FF) as bv8);
    IndexFacts(crc, b);
  }

  lemma IndexFacts(crc: bv16, b: bv8)
    ensures (((crc ^ (b as bv16)) & 0x00FF) as bv8) as bv16 == Lo(Xor(crc, b as bv16))
    ensures (crc >> 8) & 0x00FF == Hi(Xor(crc, b as bv16))
  {
  }
}
