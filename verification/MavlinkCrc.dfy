/** The MAVLink checksum: the byte-at-a-time form of the source against the bit-serial
    CRC-16/MCRF4XX (reflected polynomial 0x8408, initial value 0xFFFF), and what it detects. */
module MavlinkCrc {
  type byte = bv8

  function CrcAccumulate(b: byte, crc: bv16): bv16 {
    var low := ((crc & 0xFF) as bv8) ^ b;
    var tmp := low ^ (low << 4);
    (crc >> 8) ^ ((tmp as bv16) << 8) ^ ((tmp as bv16) << 3) ^ ((tmp as bv16) >> 4)
  }

  /** One shift of the register: the polynomial is fed back when the bit shifted out is set. */
  function BitStep(c: bv16): bv16 {
    if c & 1 == 1 then (c >> 1) ^ 0x8408 else c >> 1
  }

  function Xor(c: bv16, d: bv16): bv16 {
    c ^ d
  }

  function Iterate<T>(f: T -> T, c: T, n: nat): T {
    if n == 0 then c else f(Iterate(f, c, n - 1))
  }

  const BYTE_BITS: nat := 8

  /** Feeding a byte bit by bit, least significant bit first. */
  function FeedByte(b: byte, crc: bv16): bv16 {
    Iterate(BitStep, Xor(crc, b as bv16), BYTE_BITS)
  }

  /** The same shift without the branch: the outgoing bit goes to the polynomial's three places. */
  function Spread(c: bv16): bv16 {
    var b := c & 1;
    (c >> 1) ^ (b << 15) ^ (b << 10) ^ (b << 3)
  }

  function SpreadTwo(c: bv16): bv16 {
    var b := c & 3;
    (c >> 2) ^ (b << 14) ^ (b << 9) ^ (b << 2)
  }

  /** Four shifts at once. */
  function NibbleStep(c: bv16): bv16 {
    var n := c & 0xF;
    (c >> 4) ^ (n << 12) ^ (n << 7) ^ n
  }

  lemma BitStepIsSpread(c: bv16)
    ensures BitStep(c) == Spread(c)
  {
    if c & 1 == 1 {
      SpreadSet(c);
    } else {
      SpreadClear(c);
    }
  }

  lemma SpreadSet(c: bv16)
    requires c & 1 == 1
    ensures Spread(c) == (c >> 1) ^ 0x8408
  {
  }

  lemma SpreadClear(c: bv16)
    requires c & 1 != 1
    ensures Spread(c) == c >> 1
  {
    ClearBit(c);
  }

  lemma ClearBit(c: bv16)
    requires c & 1 != 1
    ensures c & 1 == 0
  {
  }

  lemma TwoSpreads(c: bv16)
    ensures SpreadTwo(c) == Spread(Spread(c))
  {
  }

  lemma FourSpreads(c: bv16)
    ensures NibbleStep(c) == SpreadTwo(SpreadTwo(c))
  {
  }

  lemma SpreadIsTwoSteps(c: bv16)
    ensures SpreadTwo(c) == BitStep(BitStep(c))
  {
    BitStepIsSpread(c);
    BitStepIsSpread(Spread(c));
    TwoSpreads(c);
  }

  lemma NibbleIsFourSteps(c: bv16)
    ensures NibbleStep(c) == BitStep(BitStep(BitStep(BitStep(c))))
  {
    SpreadIsTwoSteps(c);
    SpreadIsTwoSteps(SpreadTwo(c));
    FourSpreads(c);
  }

  /** The source's byte step over the register alone, after the byte is mixed in. */
  function ByteStep(c: bv16): bv16 {
    var tmp := (c ^ (c << 4)) & 0xFF;
    (c >> 8) ^ (tmp << 8) ^ (tmp << 3) ^ (tmp >> 4)
  }

  lemma ByteStepIsTwoNibbles(c: bv16)
    ensures ByteStep(c) == NibbleStep(NibbleStep(c))
  {
  }

  lemma MixedLowByte(b: byte, crc: bv16)
    ensures (((crc & 0xFF) as bv8) ^ b) as bv16 == (crc ^ (b as bv16)) & 0xFF
    ensures crc >> 8 == (crc ^ (b as bv16)) >> 8
  {
  }

  lemma FoldedLowByte(low: byte, c: bv16)
    requires low as bv16 == c & 0xFF
    ensures (low ^ (low << 4)) as bv16 == (c ^ (c << 4)) & 0xFF
  {
  }

  lemma AccumulateIsByteStep(b: byte, crc: bv16)
    ensures CrcAccumulate(b, crc) == ByteStep(crc ^ (b as bv16))
  {
    MixedLowByte(b, crc);
    FoldedLowByte(((crc & 0xFF) as bv8) ^ b, crc ^ (b as bv16));
  }

  lemma TwiceFour<T(!new)>(f: T -> T, four: T -> T, c: T)
    requires forall x :: four(x) == f(f(f(f(x))))
    ensures Iterate(f, c, BYTE_BITS) == four(four(c))
  {
    IterateFour(f, c, 0);
    IterateFour(f, c, 4);
  }

  lemma IterateFour<T>(f: T -> T, c: T, n: nat)
    ensures Iterate(f, c, n + 4) == f(f(f(f(Iterate(f, c, n)))))
  {
    assert Iterate(f, c, n + 2) == f(Iterate(f, c, n + 1));
    assert Iterate(f, c, n + 4) == f(Iterate(f, c, n + 3));
  }

  lemma EightSteps(c: bv16)
    ensures Iterate(BitStep, c, BYTE_BITS) == NibbleStep(NibbleStep(c))
  {
    forall x ensures NibbleStep(x) == BitStep(BitStep(BitStep(BitStep(x)))) {
      NibbleIsFourSteps(x);
    }
    TwiceFour(BitStep, NibbleStep, c);
  }

  /** The byte step of the source is eight shifts of the bit-serial register. */
  lemma AccumulateIsFeedByte(b: byte, crc: bv16)
    ensures CrcAccumulate(b, crc) == FeedByte(b, crc)
  {
    AccumulateIsByteStep(b, crc);
    ByteStepIsTwoNibbles(crc ^ (b as bv16));
    EightSteps(crc ^ (b as bv16));
  }

  /** A register fed a byte string, one byte step `f` at a time. */
  function Feed<B, T>(f: (B, T) -> T, data: seq<B>, crc: T): T {
    if data == [] then crc else f(data[|data| - 1], Feed(f, data[..|data| - 1], crc))
  }

  function Checksum(data: seq<byte>, extra: byte): bv16 {
    Feed(FeedByte, data + [extra], 0xFFFF)
  }

  method MavlinkChecksum(data: seq<byte>, extra: byte) returns (crc: bv16)
    ensures crc == Checksum(data, extra)
  {
    crc := 0xFFFF;
    for i := 0 to |data|
      invariant crc == Feed(FeedByte, data[..i], 0xFFFF)
    {
      assert data[..i + 1][..i] == data[..i];
      AccumulateIsFeedByte(data[i], crc);
      crc := CrcAccumulate(data[i], crc);
    }
    assert data[..|data|] == data == (data + [extra])[..|data|];
    AccumulateIsFeedByte(extra, crc);
    crc := CrcAccumulate(extra, crc);
  }

  // ---- Shifts are reversible and linear ----

  /** The register shifted back by one: bit 15 tells which way the shift went. */
  function UnBitStep(c: bv16): bv16 {
    if c & 0x8000 == 0x8000 then ((c ^ 0x8408) << 1) | 1 else c << 1
  }

  lemma BitStepReverses(c: bv16)
    ensures UnBitStep(BitStep(c)) == c
  {
  }

  lemma {:induction false} IterateInjective<T(!new)>(f: T -> T, back: T -> T, c: T, d: T, n: nat)
    requires forall x :: back(f(x)) == x
    requires Iterate(f, c, n) == Iterate(f, d, n)
    ensures c == d
  {
    if n > 0 {
      assert back(f(Iterate(f, c, n - 1))) == back(f(Iterate(f, d, n - 1)));
      IterateInjective(f, back, c, d, n - 1);
    }
  }

  lemma BitStepsInjective(c: bv16, d: bv16, n: nat)
    requires Iterate(BitStep, c, n) == Iterate(BitStep, d, n)
    ensures c == d
  {
    forall x ensures UnBitStep(BitStep(x)) == x {
      BitStepReverses(x);
    }
    IterateInjective(BitStep, UnBitStep, c, d, n);
  }

  lemma SpreadLinear(c: bv16, d: bv16)
    ensures Spread(Xor(c, d)) == Xor(Spread(c), Spread(d))
  {
  }

  lemma BitStepLinear(c: bv16, d: bv16)
    ensures BitStep(Xor(c, d)) == Xor(BitStep(c), BitStep(d))
  {
    BitStepIsSpread(c);
    BitStepIsSpread(d);
    BitStepIsSpread(Xor(c, d));
    SpreadLinear(c, d);
  }

  lemma BitStepsLinear()
    ensures forall c, d :: BitStep(Xor(c, d)) == Xor(BitStep(c), BitStep(d))
  {
    forall c, d ensures BitStep(Xor(c, d)) == Xor(BitStep(c), BitStep(d)) {
      BitStepLinear(c, d);
    }
  }

  lemma {:induction false} IterateLinear<T(!new)>(f: T -> T, mix: (T, T) -> T, c: T, d: T, n: nat)
    requires forall x, y :: f(mix(x, y)) == mix(f(x), f(y))
    ensures Iterate(f, mix(c, d), n) == mix(Iterate(f, c, n), Iterate(f, d, n))
  {
    if n > 0 {
      IterateLinear(f, mix, c, d, n - 1);
    }
  }

  lemma {:induction false} IterateAdds<T>(f: T -> T, c: T, m: nat, n: nat)
    ensures Iterate(f, Iterate(f, c, m), n) == Iterate(f, c, m + n)
  {
    if n > 0 {
      IterateAdds(f, c, m, n - 1);
    }
  }

  /** If `n` steps bring `high` down to `y`, mixing `y` in after them is mixing `high` in before. */
  lemma MixEarlier<T(!new)>(f: T -> T, mix: (T, T) -> T, c: T, y: T, high: T, n: nat)
    requires forall u, v :: f(mix(u, v)) == mix(f(u), f(v))
    requires Iterate(f, high, n) == y
    ensures Iterate(f, mix(Iterate(f, c, n), y), n) == Iterate(f, mix(c, high), n + n)
  {
    IterateLinear(f, mix, c, high, n);
    IterateAdds(f, mix(c, high), n, n);
  }

  // ---- What two bytes do to the register ----

  lemma HighByteNibbles(b: byte)
    ensures NibbleStep(NibbleStep((b as bv16) << 8)) == b as bv16
  {
  }

  lemma HighByteSlides(b: byte)
    ensures Iterate(BitStep, (b as bv16) << 8, BYTE_BITS) == b as bv16
  {
    EightSteps((b as bv16) << 8);
    HighByteNibbles(b);
  }

  /** Two bytes fill the whole register before sixteen shifts. */
  lemma TwoBytesAtOnce(x: byte, y: byte, crc: bv16)
    ensures FeedByte(y, FeedByte(x, crc)) == Iterate(BitStep, Xor(Xor(crc, x as bv16), (y as bv16) << 8), BYTE_BITS + BYTE_BITS)
  {
    HighByteSlides(y);
    BitStepsLinear();
    MixEarlier(BitStep, Xor, Xor(crc, x as bv16), y as bv16, (y as bv16) << 8, BYTE_BITS);
  }

  lemma PairSplits(x: byte, y: byte, x': byte, y': byte, crc: bv16)
    requires Xor(Xor(crc, x as bv16), (y as bv16) << 8) == Xor(Xor(crc, x' as bv16), (y' as bv16) << 8)
    ensures x == x' && y == y'
  {
  }

  lemma ByteSplits(x: byte, x': byte, crc: bv16)
    requires Xor(crc, x as bv16) == Xor(crc, x' as bv16)
    ensures x == x'
  {
  }

  lemma XorCancels(u: bv16, v: bv16, w: bv16)
    requires Xor(u, w) == Xor(v, w)
    ensures u == v
  {
  }

  /** No two register values, no two bytes and no two pairs of bytes are confused by a byte step. */
  ghost predicate Separates<B(!new), T(!new)>(f: (B, T) -> T) {
    && (forall b, c, d :: f(b, c) == f(b, d) ==> c == d)
    && (forall a, b, c :: f(a, c) == f(b, c) ==> a == b)
    && (forall x, y, x', y', c :: f(y, f(x, c)) == f(y', f(x', c)) ==> x == x' && y == y')
  }

  lemma FeedByteSeparates()
    ensures Separates(FeedByte)
  {
    forall b, c, d | FeedByte(b, c) == FeedByte(b, d) ensures c == d {
      RegistersApart(b, c, d);
    }
    forall a, b, c | FeedByte(a, c) == FeedByte(b, c) ensures a == b {
      BytesApart(a, b, c);
    }
    forall x, y, x', y', c | FeedByte(y, FeedByte(x, c)) == FeedByte(y', FeedByte(x', c)) ensures x == x' && y == y' {
      PairsApart(x, y, x', y', c);
    }
  }

  lemma RegistersApart(b: byte, c: bv16, d: bv16)
    requires FeedByte(b, c) == FeedByte(b, d)
    ensures c == d
  {
    BitStepsInjective(Xor(c, b as bv16), Xor(d, b as bv16), BYTE_BITS);
    XorCancels(c, d, b as bv16);
  }

  lemma BytesApart(a: byte, b: byte, c: bv16)
    requires FeedByte(a, c) == FeedByte(b, c)
    ensures a == b
  {
    BitStepsInjective(Xor(c, a as bv16), Xor(c, b as bv16), BYTE_BITS);
    ByteSplits(a, b, c);
  }

  lemma PairsApart(x: byte, y: byte, x': byte, y': byte, c: bv16)
    requires FeedByte(y, FeedByte(x, c)) == FeedByte(y', FeedByte(x', c))
    ensures x == x' && y == y'
  {
    TwoBytesAtOnce(x, y, c);
    TwoBytesAtOnce(x', y', c);
    BitStepsInjective(Xor(Xor(c, x as bv16), (y as bv16) << 8), Xor(Xor(c, x' as bv16), (y' as bv16) << 8), BYTE_BITS + BYTE_BITS);
    PairSplits(x, y, x', y', c);
  }

  // ---- Detection over whole bodies ----

  lemma {:induction false} FeedAppends<B, T>(f: (B, T) -> T, a: seq<B>, b: seq<B>, crc: T)
    ensures Feed(f, a + b, crc) == Feed(f, b, Feed(f, a, crc))
  {
    if b == [] {
      assert a + b == a;
    } else {
      var n := |b| - 1;
      assert (a + b)[..|a + b| - 1] == a + b[..n];
      FeedAppends(f, a, b[..n], crc);
    }
  }

  /** Different registers stay different however many equal bytes follow. */
  lemma {:induction false} FeedInjective<B(!new), T(!new)>(f: (B, T) -> T, data: seq<B>, c: T, d: T)
    requires Separates(f) && Feed(f, data, c) == Feed(f, data, d)
    ensures c == d
  {
    if data != [] {
      var n := |data| - 1;
      assert f(data[n], Feed(f, data[..n], c)) == f(data[n], Feed(f, data[..n], d));
      FeedInjective(f, data[..n], c, d);
    }
  }

  lemma FeedSplits<B, T>(f: (B, T) -> T, before: seq<B>, u: seq<B>, after: seq<B>, c: T)
    ensures Feed(f, before + u + after, c) == Feed(f, after, Feed(f, u, Feed(f, before, c)))
  {
    FeedAppends(f, before + u, after, c);
    FeedAppends(f, before, u, c);
  }

  lemma FeedShort<B, T>(f: (B, T) -> T, u: seq<B>, c: T)
    ensures |u| == 1 ==> Feed(f, u, c) == f(u[0], c)
    ensures |u| == 2 ==> Feed(f, u, c) == f(u[1], f(u[0], c))
  {
    if |u| == 2 {
      assert u[..1] == [u[0]];
    }
  }

  lemma SameAtMiddle<B(!new), T(!new)>(f: (B, T) -> T, before: seq<B>, u: seq<B>, v: seq<B>, after: seq<B>, c: T)
    requires Separates(f)
    requires Feed(f, before + u + after, c) == Feed(f, before + v + after, c)
    ensures Feed(f, u, Feed(f, before, c)) == Feed(f, v, Feed(f, before, c))
  {
    FeedSplits(f, before, u, after, c);
    FeedSplits(f, before, v, after, c);
    FeedInjective(f, after, Feed(f, u, Feed(f, before, c)), Feed(f, v, Feed(f, before, c)));
  }

  lemma ShortApart<B(!new), T(!new)>(f: (B, T) -> T, u: seq<B>, v: seq<B>, c: T)
    requires Separates(f) && |u| == |v| && 1 <= |u| <= 2
    requires Feed(f, u, c) == Feed(f, v, c)
    ensures u == v
  {
    FeedShort(f, u, c);
    FeedShort(f, v, c);
    if |u| == 1 {
      assert f(u[0], c) == f(v[0], c);
    } else {
      assert f(u[1], f(u[0], c)) == f(v[1], f(v[0], c));
    }
  }

  /** Bodies that agree outside one byte, or two adjacent bytes, and have equal checksums are equal. */
  lemma ChecksumDetects(before: seq<byte>, u: seq<byte>, v: seq<byte>, after: seq<byte>, extra: byte)
    requires |u| == |v| && 1 <= |u| <= 2
    requires Checksum(before + u + after, extra) == Checksum(before + v + after, extra)
    ensures u == v
  {
    FeedByteSeparates();
    assert before + u + after + [extra] == before + u + (after + [extra]);
    assert before + v + after + [extra] == before + v + (after + [extra]);
    SameAtMiddle(FeedByte, before, u, v, after + [extra], 0xFFFF);
    ShortApart(FeedByte, u, v, Feed(FeedByte, before, 0xFFFF));
  }

  // ---- Bit by bit: bursts across byte boundaries ----

  function FeedBit(bit: bool, c: bv16): bv16 {
    BitStep(Xor(c, if bit then 1 else 0))
  }

  function LowBit(b: bv16): bool { b & 1 == 1 }

  function Half(b: bv16): bv16 { b >> 1 }

  /** The lowest `n` bits of a word, least significant first. */
  function BitsOf<T>(low: T -> bool, half: T -> T, b: T, n: nat): seq<bool> {
    if n == 0 then [] else [low(b)] + BitsOf(low, half, half(b), n - 1)
  }

  /** The bits of a byte in the order the register takes them. */
  function Bits(b: byte): seq<bool> {
    BitsOf(LowBit, Half, b as bv16, BYTE_BITS)
  }

  function AllBits(data: seq<byte>): seq<bool> {
    Bitwise(Bits, data)
  }

  function Bitwise<B>(bits: B -> seq<bool>, data: seq<B>): seq<bool> {
    if data == [] then [] else Bitwise(bits, data[..|data| - 1]) + bits(data[|data| - 1])
  }

  lemma OneBitStep(c: bv16, b: bv16)
    ensures BitStep(Xor(c, b)) == Xor(FeedBit(LowBit(b), c), Half(b))
  {
    BitStepIsSpread(Xor(c, b));
    BitStepIsSpread(Xor(c, if LowBit(b) then 1 else 0));
    SpreadTakesBit(c, b);
  }

  lemma SpreadTakesBit(c: bv16, b: bv16)
    ensures Spread(Xor(c, b)) == Xor(Spread(Xor(c, if LowBit(b) then 1 else 0)), Half(b))
  {
  }

  lemma FeedFirst<B, T>(f: (B, T) -> T, x: B, rest: seq<B>, c: T)
    ensures Feed(f, [x] + rest, c) == Feed(f, rest, f(x, c))
  {
    FeedAppends(f, [x], rest, c);
    assert [x][..0] == [];
    assert Feed(f, [x], c) == f(x, Feed(f, [], c));
  }

  lemma IterateFirst<T>(f: T -> T, c: T, n: nat)
    requires n > 0
    ensures Iterate(f, c, n) == Iterate(f, f(c), n - 1)
  {
    IterateAdds(f, c, 1, n - 1);
    assert Iterate(f, c, 1) == f(Iterate(f, c, 0));
  }

  /** Steps on a word mixed in at once are steps that take its bits one by one. */
  lemma {:induction false} StepsTakeBits<T(!new)>(f: T -> T, mix: (T, T) -> T, feed: (bool, T) -> T,
                                                  low: T -> bool, half: T -> T, c: T, b: T, n: nat)
    requires TakesBits(f, mix, feed, low, half)
    ensures Iterate(f, mix(c, b), n) == mix(Feed(feed, BitsOf(low, half, b, n), c), Iterate(half, b, n))
  {
    if n > 0 {
      var c1, b1 := feed(low(b), c), half(b);
      assert f(mix(c, b)) == mix(c1, b1);
      IterateFirst(f, mix(c, b), n);
      IterateFirst(half, b, n);
      StepsTakeBits(f, mix, feed, low, half, c1, b1, n - 1);
      FeedFirst(feed, low(b), BitsOf(low, half, b1, n - 1), c);
    }
  }

  lemma EightHalves(b: byte)
    ensures Iterate(Half, b as bv16, BYTE_BITS) == 0
  {
    IterateFour(Half, b as bv16, 0);
    IterateFour(Half, b as bv16, 4);
    HalvedAway(b);
  }

  lemma HalvedAway(b: byte)
    ensures Half(Half(Half(Half(Half(Half(Half(Half(b as bv16)))))))) == 0
  {
  }

  lemma XorZero(c: bv16)
    ensures Xor(c, 0) == c
  {
  }

  ghost predicate TakesBits<T(!new)>(f: T -> T, mix: (T, T) -> T, feed: (bool, T) -> T, low: T -> bool, half: T -> T) {
    forall u, v :: f(mix(u, v)) == mix(feed(low(v), u), half(v))
  }

  lemma BitStepTakesBits()
    ensures TakesBits(BitStep, Xor, FeedBit, LowBit, Half)
  {
    forall u, v ensures BitStep(Xor(u, v)) == Xor(FeedBit(LowBit(v), u), Half(v)) {
      OneBitStep(u, v);
    }
  }

  lemma FeedByteTakesBits(b: byte, c: bv16)
    ensures FeedByte(b, c) == Feed(FeedBit, Bits(b), c)
  {
    BitStepTakesBits();
    StepsTakeBits(BitStep, Xor, FeedBit, LowBit, Half, c, b as bv16, BYTE_BITS);
    EightHalves(b);
    XorZero(Feed(FeedBit, Bits(b), c));
  }

  lemma {:induction false} FeedTakesBits<B(!new), T(!new)>(f: (B, T) -> T, feed: (bool, T) -> T, bits: B -> seq<bool>, data: seq<B>, c: T)
    requires forall b, u :: f(b, u) == Feed(feed, bits(b), u)
    ensures Feed(f, data, c) == Feed(feed, Bitwise(bits, data), c)
  {
    if data != [] {
      var n := |data| - 1;
      FeedTakesBits(f, feed, bits, data[..n], c);
      FeedAppends(feed, Bitwise(bits, data[..n]), bits(data[n]), c);
    }
  }

  /** The checksum of a body is the register fed its bits, then those of the extra byte. */
  lemma ChecksumTakesBits(data: seq<byte>, extra: byte)
    ensures Checksum(data, extra) == Feed(FeedBit, AllBits(data) + Bits(extra), 0xFFFF)
  {
    forall b, u ensures FeedByte(b, u) == Feed(FeedBit, Bits(b), u) {
      FeedByteTakesBits(b, u);
    }
    FeedTakesBits(FeedByte, FeedBit, Bits, data + [extra], 0xFFFF);
    OneMoreByte(Bits, data, extra);
  }

  lemma OneMoreByte<B>(bits: B -> seq<bool>, data: seq<B>, b: B)
    ensures Bitwise(bits, data + [b]) == Bitwise(bits, data) + bits(b)
  {
    assert (data + [b])[..|data|] == data;
  }

  lemma {:induction false} BitCount<T>(low: T -> bool, half: T -> T, b: T, n: nat)
    ensures |BitsOf(low, half, b, n)| == n
  {
    if n > 0 {
      BitCount(low, half, half(b), n - 1);
    }
  }

  lemma EightBits(b: byte)
    ensures |Bits(b)| == 8
  {
    BitCount(LowBit, Half, b as bv16, BYTE_BITS);
  }

  lemma BitsGiveByte(a: byte, b: byte)
    requires Bits(a) == Bits(b)
    ensures a == b
  {
    FeedByteTakesBits(a, 0);
    FeedByteTakesBits(b, 0);
    BytesApart(a, b, 0);
  }

  lemma {:induction false} BitwiseJoins<B>(bits: B -> seq<bool>, a: seq<B>, b: seq<B>)
    ensures Bitwise(bits, a + b) == Bitwise(bits, a) + Bitwise(bits, b)
  {
    if b == [] {
      assert a + b == a;
    } else {
      var n := |b| - 1;
      assert (a + b)[..|a + b| - 1] == a + b[..n];
      BitwiseJoins(bits, a, b[..n]);
    }
  }

  lemma {:induction false} BitwiseLength<B(!new)>(bits: B -> seq<bool>, data: seq<B>, w: nat)
    requires forall b :: |bits(b)| == w
    ensures |Bitwise(bits, data)| == |data| * w
  {
    if data != [] {
      BitwiseLength(bits, data[..|data| - 1], w);
      OneLonger(|data|, w);
    }
  }

  lemma OneLonger(n: nat, w: nat)
    requires n > 0
    ensures (n - 1) * w + w == n * w
  {
  }

  lemma AllBitsLength(data: seq<byte>)
    ensures |AllBits(data)| == 8 * |data|
  {
    forall b ensures |Bits(b)| == 8 {
      EightBits(b);
    }
    BitwiseLength(Bits, data, 8);
  }

  lemma AllBitsJoin(a: seq<byte>, b: seq<byte>)
    ensures AllBits(a + b) == AllBits(a) + AllBits(b)
  {
    BitwiseJoins(Bits, a, b);
  }

  lemma AllBitsOne(b: byte)
    ensures AllBits([b]) == Bits(b)
  {
    assert [b][..0] == [];
    assert Bitwise(Bits, [b]) == Bitwise(Bits, [b][..0]) + Bits(b);
  }

  ghost predicate Code<B(!new)>(bits: B -> seq<bool>, w: nat) {
    (forall b :: |bits(b)| == w) && (forall a, b :: bits(a) == bits(b) ==> a == b)
  }

  lemma {:induction false} BitwiseGives<B(!new)>(bits: B -> seq<bool>, w: nat, a: seq<B>, b: seq<B>)
    requires Code(bits, w) && |a| == |b| && Bitwise(bits, a) == Bitwise(bits, b)
    ensures a == b
  {
    if a != [] {
      var n := |a| - 1;
      BitwiseLength(bits, a[..n], w);
      BitwiseLength(bits, b[..n], w);
      SameEnds(Bitwise(bits, a[..n]), bits(a[n]), Bitwise(bits, b[..n]), bits(b[n]));
      BitwiseGives(bits, w, a[..n], b[..n]);
      assert a == a[..n] + [a[n]] && b == b[..n] + [b[n]];
    }
  }

  lemma BitsAreCode()
    ensures Code(Bits, 8)
  {
    forall b ensures |Bits(b)| == 8 {
      EightBits(b);
    }
    forall a, b | Bits(a) == Bits(b) ensures a == b {
      BitsGiveByte(a, b);
    }
  }

  /** The bits of a byte string determine it. */
  lemma AllBitsGiveBytes(a: seq<byte>, b: seq<byte>)
    requires AllBits(a) == AllBits(b)
    ensures a == b
  {
    AllBitsLength(a);
    AllBitsLength(b);
    BitsAreCode();
    BitwiseGives(Bits, 8, a, b);
  }

  lemma SameEnds<T>(a: seq<T>, x: seq<T>, b: seq<T>, y: seq<T>)
    requires |a| == |b| && a + x == b + y
    ensures a == b && x == y
  {
    assert a == (a + x)[..|a|] && b == (b + y)[..|b|];
    assert x == (a + x)[|a|..] && y == (b + y)[|b|..];
  }

  /** Byte strings whose first eight bits agree begin with the same byte. */
  lemma SameFirstByte(a: seq<byte>, b: seq<byte>, before: seq<bool>, x: seq<bool>, y: seq<bool>)
    requires a != [] && b != [] && |before| >= 8 && AllBits(a) == before + x && AllBits(b) == before + y
    ensures a[0] == b[0]
  {
    FirstEight(a);
    FirstEight(b);
    assert AllBits(a)[..8] == before[..8] == AllBits(b)[..8];
    BitsGiveByte(a[0], b[0]);
  }

  lemma FirstEight(a: seq<byte>)
    requires a != []
    ensures |AllBits(a)| >= 8 && AllBits(a)[..8] == Bits(a[0])
  {
    assert a == [a[0]] + a[1..];
    AllBitsJoin([a[0]], a[1..]);
    AllBitsOne(a[0]);
    EightBits(a[0]);
  }

  /** The bits of a word from the `k`-th up. */
  const UPPER: seq<bv16> := [
    0xFFFF, 0xFFFE, 0xFFFC, 0xFFF8, 0xFFF0, 0xFFE0, 0xFFC0, 0xFF80,
    0xFF00, 0xFE00, 0xFC00, 0xF800, 0xF000, 0xE000, 0xC000, 0x8000, 0]

  predicate Below(d: bv16, k: nat)
    requires k <= 16
  {
    d & UPPER[k] == 0
  }

  lemma UpperSteps(k: nat)
    requires k < 16
    ensures UPPER[k + 1] == UPPER[k] << 1 && UPPER[k] & 0x8000 == 0x8000
  {
  }

  lemma StepBack(x: bv16, m: bv16)
    requires BitStep(x) & m == 0 && m & 0x8000 == 0x8000
    ensures x & (m << 1) == 0
  {
    BitStepIsSpread(x);
    SpreadBack(x, m);
  }

  lemma SpreadBack(x: bv16, m: bv16)
    requires Spread(x) & m == 0 && m & 0x8000 == 0x8000
    ensures x & (m << 1) == 0
  {
  }

  lemma EvenMask(x: bv16, bit: bv16, m: bv16)
    requires bit == 0 || bit == 1
    ensures Xor(x, bit) & (m << 1) == x & (m << 1)
  {
  }

  lemma FeedBitDifference(a: bool, b: bool, c: bv16, d: bv16)
    ensures Xor(FeedBit(a, c), FeedBit(b, d)) == BitStep(Xor(Xor(c, d), if a == b then 0 else 1))
  {
    BitStepLinear(Xor(c, if a then 1 else 0), Xor(d, if b then 1 else 0));
    XorRegroups(c, d, if a then 1 else 0, if b then 1 else 0);
    BothBits(a, b);
  }

  lemma BothBits(a: bool, b: bool)
    ensures Xor(if a then 1 else 0, if b then 1 else 0) == if a == b then 0 else 1
  {
  }

  lemma XorAssoc(a: bv16, b: bv16, c: bv16)
    ensures Xor(Xor(a, b), c) == Xor(a, Xor(b, c))
  {
  }

  lemma XorCommutes(a: bv16, b: bv16)
    ensures Xor(a, b) == Xor(b, a)
  {
  }

  lemma XorRegroups(c: bv16, d: bv16, x: bv16, y: bv16)
    ensures Xor(Xor(c, x), Xor(d, y)) == Xor(Xor(c, d), Xor(x, y))
  {
    Regrouped(Xor, c, d, x, y) by {
      forall a, b, e ensures Xor(Xor(a, b), e) == Xor(a, Xor(b, e)) && Xor(a, b) == Xor(b, a) {
        XorAssoc(a, b, e);
        XorCommutes(a, b);
      }
    }
  }

  lemma Regrouped<T(!new)>(mix: (T, T) -> T, c: T, d: T, x: T, y: T)
    requires forall a, b, e :: mix(mix(a, b), e) == mix(a, mix(b, e)) && mix(a, b) == mix(b, a)
    ensures mix(mix(c, x), mix(d, y)) == mix(mix(c, d), mix(x, y))
  {
    assert mix(mix(c, x), mix(d, y)) == mix(c, mix(x, mix(d, y)));
    assert mix(x, mix(d, y)) == mix(mix(x, d), y) == mix(mix(d, x), y) == mix(d, mix(x, y));
  }

  /** Registers that agree after `k` more bits differed only in their lowest `k` bits before. */
  lemma BelowBack(a: bool, b: bool, c: bv16, d: bv16, k: nat)
    requires k < 16 && Below(Xor(FeedBit(a, c), FeedBit(b, d)), k)
    ensures Below(Xor(c, d), k + 1)
  {
    UpperSteps(k);
    MaskBack(a, b, c, d, UPPER[k]);
  }

  lemma MaskBack(a: bool, b: bool, c: bv16, d: bv16, m: bv16)
    requires Xor(FeedBit(a, c), FeedBit(b, d)) & m == 0 && m & 0x8000 == 0x8000
    ensures Xor(c, d) & (m << 1) == 0
  {
    FeedBitDifference(a, b, c, d);
    MixedBack(Xor(c, d), if a == b then 0 else 1, m);
  }

  lemma MixedBack(x: bv16, bit: bv16, m: bv16)
    requires BitStep(Xor(x, bit)) & m == 0 && m & 0x8000 == 0x8000 && (bit == 0 || bit == 1)
    ensures x & (m << 1) == 0
  {
    StepBack(Xor(x, bit), m);
    EvenMask(x, bit, m);
  }

  lemma EqualBelowNone(c: bv16)
    ensures Below(Xor(c, c), 0)
  {
    XorSelf(c);
  }

  lemma XorSelf(c: bv16)
    ensures Xor(c, c) == 0
  {
  }

  lemma DifferentFirstBit(c: bv16, a: bool, b: bool, k: nat)
    requires a != b && k <= 15
    ensures !Below(Xor(FeedBit(a, c), FeedBit(b, c)), k)
  {
    FeedBitDifference(a, b, c, c);
    FeedbackTop(c);
    UpperSteps(k);
    TopShows(BitStep(Xor(Xor(c, c), 1)), UPPER[k]);
  }

  lemma FeedbackTop(c: bv16)
    ensures BitStep(Xor(Xor(c, c), 1)) & 0x8000 == 0x8000
  {
  }

  lemma TopShows(x: bv16, m: bv16)
    requires x & 0x8000 == 0x8000 && m & 0x8000 == 0x8000
    ensures x & m != 0
  {
  }

  /** Two registers differ only in their lowest `k` bits. */
  predicate Near(c: bv16, d: bv16, k: nat) {
    k <= 16 && Below(Xor(c, d), k)
  }

  /** Registers near by `k` bits after a step were near by `k + 1` before it; equal ones are near by
      none, and a differing bit drives them further than 15 apart. */
  ghost predicate Nearing<B(!new), T(!new)>(feed: (B, T) -> T, near: (T, T, nat) -> bool) {
    && (forall c :: near(c, c, 0))
    && (forall a, b, c, d, k: nat :: k < 16 && near(feed(a, c), feed(b, d), k) ==> near(c, d, k + 1))
    && (forall a, b, c, k: nat :: k <= 15 && near(feed(a, c), feed(b, c), k) ==> a == b)
  }

  lemma FeedBitNears()
    ensures Nearing(FeedBit, Near)
  {
    forall c ensures Near(c, c, 0) {
      EqualBelowNone(c);
    }
    forall a, b, c, d, k: nat | k < 16 && Near(FeedBit(a, c), FeedBit(b, d), k) ensures Near(c, d, k + 1) {
      BelowBack(a, b, c, d, k);
    }
    forall a, b, c, k: nat | k <= 15 && Near(FeedBit(a, c), FeedBit(b, c), k) ensures a == b {
      if a != b {
        DifferentFirstBit(c, a, b, k);
      }
    }
  }

  lemma FeedHead<B, T>(f: (B, T) -> T, u: seq<B>, c: T)
    requires u != []
    ensures Feed(f, u, c) == Feed(f, u[1..], f(u[0], c))
  {
    assert u == [u[0]] + u[1..];
    FeedFirst(f, u[0], u[1..], c);
  }

  /** Fed `n` inputs each and equal at the end, two registers were near by `n` bits. */
  lemma {:induction false} AgreeAtEnd<B(!new), T(!new)>(feed: (B, T) -> T, near: (T, T, nat) -> bool, u: seq<B>, v: seq<B>, c: T, d: T)
    requires Nearing(feed, near) && |u| == |v| <= 16 && Feed(feed, u, c) == Feed(feed, v, d)
    ensures near(c, d, |u|)
  {
    if u != [] {
      FeedHead(feed, u, c);
      FeedHead(feed, v, d);
      AgreeAtEnd(feed, near, u[1..], v[1..], feed(u[0], c), feed(v[0], d));
    }
  }

  lemma {:induction false} SameWindow<B(!new), T(!new)>(feed: (B, T) -> T, near: (T, T, nat) -> bool, u: seq<B>, v: seq<B>, c: T)
    requires Nearing(feed, near) && |u| == |v| <= 16 && Feed(feed, u, c) == Feed(feed, v, c)
    ensures u == v
  {
    if u != [] {
      FeedHead(feed, u, c);
      FeedHead(feed, v, c);
      AgreeAtEnd(feed, near, u[1..], v[1..], feed(u[0], c), feed(v[0], c));
      SameWindow(feed, near, u[1..], v[1..], feed(u[0], c));
      assert u == [u[0]] + u[1..] && v == [v[0]] + v[1..];
    }
  }

  /** Up to 16 bits fed to one register are told apart by it. */
  lemma WindowApart(u: seq<bool>, v: seq<bool>, c: bv16)
    requires |u| == |v| <= 16 && Feed(FeedBit, u, c) == Feed(FeedBit, v, c)
    ensures u == v
  {
    FeedBitNears();
    SameWindow(FeedBit, Near, u, v, c);
  }

  lemma BitRegistersApart(b: bool, c: bv16, d: bv16)
    requires FeedBit(b, c) == FeedBit(b, d)
    ensures c == d
  {
    BitStepReverses(Xor(c, if b then 1 else 0));
    BitStepReverses(Xor(d, if b then 1 else 0));
    XorCancels(c, d, if b then 1 else 0);
  }

  /** No two registers are confused by a bit, and no two strings of up to 16 bits by a register. */
  ghost predicate TellsBits<B(!new), T(!new)>(feed: (B, T) -> T) {
    && (forall b, c, d :: feed(b, c) == feed(b, d) ==> c == d)
    && (forall u, v, c :: |u| == |v| <= 16 && Feed(feed, u, c) == Feed(feed, v, c) ==> u == v)
  }

  lemma FeedBitTells()
    ensures TellsBits(FeedBit)
  {
    forall b, c, d | FeedBit(b, c) == FeedBit(b, d) ensures c == d {
      BitRegistersApart(b, c, d);
    }
    forall u, v, c | |u| == |v| <= 16 && Feed(FeedBit, u, c) == Feed(FeedBit, v, c) ensures u == v {
      WindowApart(u, v, c);
    }
  }

  lemma {:induction false} BitsKeepApart<B(!new), T(!new)>(feed: (B, T) -> T, bits: seq<B>, c: T, d: T)
    requires TellsBits(feed) && Feed(feed, bits, c) == Feed(feed, bits, d)
    ensures c == d
  {
    if bits != [] {
      var n := |bits| - 1;
      var x, y := Feed(feed, bits[..n], c), Feed(feed, bits[..n], d);
      assert feed(bits[n], x) == feed(bits[n], y);
      assert x == y;
      BitsKeepApart(feed, bits[..n], c, d);
    }
  }

  lemma BurstApart<B(!new), T(!new)>(feed: (B, T) -> T, before: seq<B>, u: seq<B>, v: seq<B>, after: seq<B>, c: T)
    requires TellsBits(feed) && |u| == |v| <= 16
    requires Feed(feed, before + u + after, c) == Feed(feed, before + v + after, c)
    ensures u == v
  {
    FeedSplits(feed, before, u, after, c);
    FeedSplits(feed, before, v, after, c);
    var mid := Feed(feed, before, c);
    BitsKeepApart(feed, after, Feed(feed, u, mid), Feed(feed, v, mid));
  }

  /** The polynomial as a burst of 17 bits, and the register on the way through it. */
  const GENERATOR: seq<bool> := [
    true, false, false, false, true, false, false, false,
    false, false, false, true, false, false, false, false, true]

  const PASSAGE: seq<bv16> := [
    0, 0x8408, 0x4204, 0x2102, 0x1081, 0x0840, 0x0420, 0x0210, 0x0108,
    0x0084, 0x0042, 0x0021, 0x0010, 0x0008, 0x0004, 0x0002, 0x0001, 0]

  lemma PassageSteps()
    ensures FeedBit(true, 0x0000) == 0x8408
    ensures FeedBit(false, 0x8408) == 0x4204
    ensures FeedBit(false, 0x4204) == 0x2102
    ensures FeedBit(false, 0x2102) == 0x1081
    ensures FeedBit(true, 0x1081) == 0x0840
    ensures FeedBit(false, 0x0840) == 0x0420
    ensures FeedBit(false, 0x0420) == 0x0210
    ensures FeedBit(false, 0x0210) == 0x0108
    ensures FeedBit(false, 0x0108) == 0x0084
    ensures FeedBit(false, 0x0084) == 0x0042
    ensures FeedBit(false, 0x0042) == 0x0021
    ensures FeedBit(true, 0x0021) == 0x0010
    ensures FeedBit(false, 0x0010) == 0x0008
    ensures FeedBit(false, 0x0008) == 0x0004
    ensures FeedBit(false, 0x0004) == 0x0002
    ensures FeedBit(false, 0x0002) == 0x0001
    ensures FeedBit(true, 0x0001) == 0x0000
  {
  }

  lemma {:induction false} FeedPasses<B, T>(feed: (B, T) -> T, bits: seq<B>, r: seq<T>, n: nat)
    requires |r| == |bits| + 1 && n <= |bits| && forall i :: 0 <= i < |bits| ==> feed(bits[i], r[i]) == r[i + 1]
    ensures Feed(feed, bits[..n], r[0]) == r[n]
  {
    if n > 0 {
      FeedPasses(feed, bits, r, n - 1);
      assert bits[..n][..n - 1] == bits[..n - 1];
    }
  }

  lemma {:induction false} ZerosKeepZero(n: nat)
    ensures Feed(FeedBit, seq(n, _ => false), 0) == 0
  {
    if n > 0 {
      ZerosKeepZero(n - 1);
      assert seq(n, _ => false)[..n - 1] == seq(n - 1, _ => false);
    }
  }

  lemma GeneratorVanishes()
    ensures Feed(FeedBit, GENERATOR, 0) == 0
  {
    PassageSteps();
    FeedPasses(FeedBit, GENERATOR, PASSAGE, 17);
    assert GENERATOR[..17] == GENERATOR;
  }

  /** Strings of `n` bits are always told apart exactly up to 16. */
  lemma SixteenExactly(n: nat)
    ensures (forall u, v, c :: |u| == |v| == n && Feed(FeedBit, u, c) == Feed(FeedBit, v, c) ==> u == v) <==> n <= 16
  {
    if n <= 16 {
      forall u, v, c | |u| == |v| == n && Feed(FeedBit, u, c) == Feed(FeedBit, v, c) ensures u == v {
        WindowApart(u, v, c);
      }
    } else {
      var pad := seq(n - 17, _ => false);
      GeneratorVanishes();
      ZerosKeepZero(n - 17);
      ZerosKeepZero(n);
      FeedAppends(FeedBit, GENERATOR, pad, 0);
      var u, v := GENERATOR + pad, seq(n, _ => false);
      assert u[0] != v[0];
      assert |u| == |v| == n && Feed(FeedBit, u, 0) == Feed(FeedBit, v, 0);
    }
  }

  /** Bodies whose bits agree outside 16 consecutive ones, wherever these lie, and whose checksums
      are equal are equal there too: no burst of up to 16 bits goes unnoticed. */
  lemma BurstDetected(x: seq<byte>, y: seq<byte>, extra: byte,
                      before: seq<bool>, u: seq<bool>, v: seq<bool>, after: seq<bool>)
    requires AllBits(x) == before + u + after && AllBits(y) == before + v + after && |u| == |v| <= 16
    requires Checksum(x, extra) == Checksum(y, extra)
    ensures u == v
  {
    ChecksumTakesBits(x, extra);
    ChecksumTakesBits(y, extra);
    TailJoins(before + u, after, Bits(extra));
    TailJoins(before + v, after, Bits(extra));
    FeedBitTells();
    BurstApart(FeedBit, before, u, v, after + Bits(extra), 0xFFFF);
  }

  lemma TailJoins<T>(a: seq<T>, b: seq<T>, c: seq<T>)
    ensures a + b + c == a + (b + c)
  {
  }

  /** The published check value of CRC-16/MCRF4XX: the register after the ASCII digits 1 to 9. */
  lemma CheckValue()
    ensures Feed(FeedByte, [0x31, 0x32, 0x33, 0x34, 0x35, 0x36, 0x37, 0x38, 0x39], 0xFFFF) == 0x6F91
  {
    var s: seq<byte> := [0x31, 0x32, 0x33, 0x34, 0x35, 0x36, 0x37, 0x38, 0x39];
    var r: seq<bv16> := [0xffff, 0x2f8d, 0x4d53, 0x634b, 0x8b13, 0x44bf, 0x198d, 0x1ac8, 0xf795, 0x6f91];
    CheckSteps();
    FeedFollows(s, r, 9);
    assert s[..9] == s;
  }

  lemma CheckSteps()
    ensures CrcAccumulate(0x31, 0xffff) == 0x2f8d
    ensures CrcAccumulate(0x32, 0x2f8d) == 0x4d53
    ensures CrcAccumulate(0x33, 0x4d53) == 0x634b
    ensures CrcAccumulate(0x34, 0x634b) == 0x8b13
    ensures CrcAccumulate(0x35, 0x8b13) == 0x44bf
    ensures CrcAccumulate(0x36, 0x44bf) == 0x198d
    ensures CrcAccumulate(0x37, 0x198d) == 0x1ac8
    ensures CrcAccumulate(0x38, 0x1ac8) == 0xf795
    ensures CrcAccumulate(0x39, 0xf795) == 0x6f91
  {
  }

  lemma {:induction false} FeedFollows(s: seq<byte>, r: seq<bv16>, n: nat)
    requires |r| == |s| + 1 && r[0] == 0xFFFF && n <= |s|
    requires forall i :: 0 <= i < |s| ==> CrcAccumulate(s[i], r[i]) == r[i + 1]
    ensures Feed(FeedByte, s[..n], 0xFFFF) == r[n]
  {
    if n > 0 {
      FeedFollows(s, r, n - 1);
      assert s[..n][..n - 1] == s[..n - 1];
      AccumulateIsFeedByte(s[n - 1], r[n - 1]);
    }
  }
}
