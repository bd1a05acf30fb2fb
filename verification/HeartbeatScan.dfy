/** The scan of a datagram for a PX4 HEARTBEAT, against an encoder of MAVLink 2 frames. */
module HeartbeatScan {
  import opened MavlinkCrc

  const STX: byte := 0xFD
  const HEARTBEAT_EXTRA: byte := 50
  const AUTOPILOT_PX4: byte := 12

  /** A MAVLink 2 frame without signature. The header, after the start marker: payload length,
      two flag bytes, sequence number, system, component and three bytes of message id. */
  datatype Frame = Frame(header: seq<byte>, payload: seq<byte>) {

    predicate WellFormed() {
      |header| == 9 && |payload| == header[0] as int
    }

    predicate IsPX4Heartbeat() {
      && WellFormed()
      && header[4] != 0 && header[4] != 255 && header[5] == 1
      && header[6] == 0 && header[7] == 0 && header[8] == 0
      && |payload| >= 9 && payload[5] == AUTOPILOT_PX4
    }

    /** The bytes the checksum covers. */
    function Body(): seq<byte> {
      header + payload
    }
  }

  function Low(w: bv16): byte { (w & 0xFF) as bv8 }
  function High(w: bv16): byte { (w >> 8) as bv8 }

  /** Start marker, body, and the body's checksum in little-endian order. */
  function Framed(body: seq<byte>, crc: bv16): (r: seq<byte>)
    ensures |r| == |body| + 3
  {
    [STX] + body + [Low(crc), High(crc)]
  }

  function Encode(f: Frame): seq<byte> {
    Framed(f.Body(), Checksum(f.Body(), HEARTBEAT_EXTRA))
  }

  ghost predicate HoldsAt<T(!new)>(buf: seq<T>, i: int, part: seq<T>) {
    0 <= i && i + |part| <= |buf| && buf[i..i + |part|] == part
  }

  /** Somewhere in the buffer lies the complete encoding of a PX4 HEARTBEAT. */
  ghost predicate HoldsHeartbeat(buf: seq<byte>) {
    exists i, f: Frame :: f.IsPX4Heartbeat() && HoldsAt(buf, i, Encode(f))
  }

  /** What lies at offset `i` if a frame with payload length `plen` starts there. */
  ghost function FrameAt(buf: seq<byte>, i: nat, plen: nat): (f: Frame)
    requires i + 12 + plen <= |buf|
    ensures f.Body() == buf[i + 1..i + 10 + plen]
  {
    SlicesJoin(buf, i + 1, i + 10, i + 10 + plen);
    Frame(buf[i + 1..i + 10], buf[i + 10..i + 10 + plen])
  }

  /** The header tests of the scan at offset `i`. */
  predicate LooksLikeHeartbeat(buf: seq<byte>, i: nat, plen: nat) {
    && i + 12 + plen <= |buf| && plen >= 9
    && buf[i] == STX && buf[i + 1] as int == plen
    && buf[i + 5] != 0 && buf[i + 5] != 255 && buf[i + 6] == 1
    && buf[i + 7] == 0 && buf[i + 8] == 0 && buf[i + 9] == 0
    && buf[i + 15] == AUTOPILOT_PX4
  }

  ghost predicate ChecksumHolds(buf: seq<byte>, i: nat, plen: nat)
    requires i + 12 + plen <= |buf|
  {
    var crc := Checksum(buf[i + 1..i + 10 + plen], HEARTBEAT_EXTRA);
    [Low(crc), High(crc)] == [buf[i + 10 + plen], buf[i + 11 + plen]]
  }

  ghost predicate MatchesAt(buf: seq<byte>, i: nat) {
    exists plen: nat :: LooksLikeHeartbeat(buf, i, plen) && ChecksumHolds(buf, i, plen)
  }

  // ---- Slices of any element type ----

  lemma SlicesJoin<T>(s: seq<T>, a: nat, b: nat, c: nat)
    requires a <= b <= c <= |s|
    ensures s[a..b] + s[b..c] == s[a..c]
  {
  }

  lemma HoldsItsEnds<T(!new)>(s: seq<T>, a: nat, b: nat)
    requires a < b && b + 2 <= |s|
    ensures HoldsAt(s, a, [s[a]] + s[a + 1..b] + [s[b], s[b + 1]])
  {
    assert [s[a]] + s[a + 1..b] + [s[b], s[b + 1]] == s[a..b + 2];
  }

  lemma HoldsItself<T(!new)>(s: seq<T>)
    ensures HoldsAt(s, 0, s)
  {
  }

  lemma HeldSlice<T(!new)>(buf: seq<T>, i: int, part: seq<T>, a: nat, b: nat)
    requires HoldsAt(buf, i, part) && a <= b <= |part|
    ensures buf[i + a..i + b] == part[a..b]
    ensures a < b ==> buf[i + a] == part[a]
  {
    forall k | a <= k < b
      ensures buf[i + k] == part[k]
    {
      assert buf[i..i + |part|][k] == part[k];
    }
    assert |buf[i + a..i + b]| == |part[a..b]|;
  }

  /** A framed part lies in the buffer piece by piece. */
  lemma HeldParts<T(!new)>(buf: seq<T>, i: int, x: T, h: seq<T>, p: seq<T>, ends: seq<T>)
    requires |ends| == 2 && HoldsAt(buf, i, [x] + (h + p) + ends)
    ensures buf[i] == x && buf[i + 1..i + 1 + |h|] == h && buf[i + 1 + |h|..i + 1 + |h| + |p|] == p
    ensures [buf[i + 1 + |h| + |p|], buf[i + 2 + |h| + |p|]] == ends
  {
    var s := [x] + (h + p) + ends;
    var n := 1 + |h| + |p|;
    HeldSlice(buf, i, s, 0, 1);
    HeldSlice(buf, i, s, 1, 1 + |h|);
    HeldSlice(buf, i, s, 1 + |h|, n);
    HeldSlice(buf, i, s, n, n + 1);
    HeldSlice(buf, i, s, n + 1, n + 2);
    PartsOf(x, h, p, ends);
  }

  lemma PartsOf<T>(x: T, h: seq<T>, p: seq<T>, ends: seq<T>)
    requires |ends| == 2
    ensures var s := [x] + (h + p) + ends; var n := 1 + |h| + |p|;
            s[0] == x && s[1..1 + |h|] == h && s[1 + |h|..n] == p && s[n] == ends[0] && s[n + 1] == ends[1]
  {
  }

  // ---- Bytes of the checksum and of the message id ----

  method ReadWord(low: byte, high: byte) returns (w: bv16)
    ensures [Low(w), High(w)] == [low, high]
  {
    w := (low as bv16) | ((high as bv16) << 8);
  }

  lemma SameWord(v: bv16, w: bv16)
    requires [Low(v), High(v)] == [Low(w), High(w)]
    ensures v == w
  {
    assert [Low(v), High(v)][0] == [Low(w), High(w)][0] && [Low(v), High(v)][1] == [Low(w), High(w)][1];
    SameBits(v, w);
  }

  lemma SameBits(v: bv16, w: bv16)
    requires (v & 0xFF) as bv8 == (w & 0xFF) as bv8 && (v >> 8) as bv8 == (w >> 8) as bv8
    ensures v == w
  {
  }

  method ReadMessageId(b0: byte, b1: byte, b2: byte) returns (id: bv32)
    ensures id == 0 <==> b0 == 0 && b1 == 0 && b2 == 0
  {
    id := (b0 as bv32) | ((b1 as bv32) << 8) | ((b2 as bv32) << 16);
  }

  // ---- A match at an offset is an encoded heartbeat there ----

  lemma LooksExactly(buf: seq<byte>, i: nat, plen: nat)
    requires i + 12 + plen <= |buf| && buf[i] == STX && buf[i + 1] as int == plen
    ensures LooksLikeHeartbeat(buf, i, plen) <==> FrameAt(buf, i, plen).IsPX4Heartbeat()
  {
    var f := FrameAt(buf, i, plen);
    assert forall k :: 0 <= k < 9 ==> f.header[k] == buf[i + 1 + k];
    assert plen >= 9 ==> f.payload[5] == buf[i + 15];
  }

  lemma MatchIsHeartbeat(buf: seq<byte>, i: nat, plen: nat)
    requires LooksLikeHeartbeat(buf, i, plen) && ChecksumHolds(buf, i, plen)
    ensures HoldsHeartbeat(buf)
  {
    HoldsItsEnds(buf, i, i + 10 + plen);
    LooksExactly(buf, i, plen);
    assert HoldsAt(buf, i, Encode(FrameAt(buf, i, plen)));
  }

  lemma HeldFrame(buf: seq<byte>, i: int, f: Frame, crc: bv16)
    requires f.WellFormed() && HoldsAt(buf, i, Framed(f.Body(), crc))
    ensures i >= 0 && i + 12 + |f.payload| <= |buf| && buf[i] == STX
    ensures FrameAt(buf, i, |f.payload|) == f
    ensures [buf[i + 10 + |f.payload|], buf[i + 11 + |f.payload|]] == [Low(crc), High(crc)]
  {
    HeldParts(buf, i, STX, f.header, f.payload, [Low(crc), High(crc)]);
  }

  lemma FramedMatches(buf: seq<byte>, i: int, f: Frame, crc: bv16)
    requires f.IsPX4Heartbeat() && HoldsAt(buf, i, Framed(f.Body(), crc)) && crc == Checksum(f.Body(), HEARTBEAT_EXTRA)
    ensures i >= 0 && LooksLikeHeartbeat(buf, i, |f.payload|) && ChecksumHolds(buf, i, |f.payload|)
  {
    HeldFrame(buf, i, f, crc);
    assert buf[i + 1] == FrameAt(buf, i, |f.payload|).header[0];
    LooksExactly(buf, i, |f.payload|);
  }

  lemma HeartbeatMatches(buf: seq<byte>, i: int, f: Frame)
    requires f.IsPX4Heartbeat() && HoldsAt(buf, i, Encode(f))
    ensures i >= 0 && MatchesAt(buf, i)
  {
    FramedMatches(buf, i, f, Checksum(f.Body(), HEARTBEAT_EXTRA));
  }

  lemma NoMatchNoHeartbeat(buf: seq<byte>, n: nat)
    requires n + 12 > |buf| && forall k: nat :: k < n ==> !MatchesAt(buf, k)
    ensures !HoldsHeartbeat(buf)
  {
    forall i, f: Frame | f.IsPX4Heartbeat() && HoldsAt(buf, i, Encode(f))
      ensures false
    {
      HeartbeatMatches(buf, i, f);
    }
  }

  // ---- The scan ----

  /** True exactly when the buffer holds a complete, correctly checksummed PX4 HEARTBEAT. */
  method FrameHasPX4Heartbeat(buf: seq<byte>) returns (found: bool)
    ensures found <==> HoldsHeartbeat(buf)
  {
    var i := 0;
    while i + 12 <= |buf|
      invariant forall k: nat :: k < i ==> !MatchesAt(buf, k)
    {
      var plen := buf[i + 1] as int;
      var likely := CheckHeader(buf, i);
      if likely {
        var body := buf[i + 1..i + 10 + plen];
        var crc := MavlinkChecksum(body, HEARTBEAT_EXTRA);
        var got := ReadWord(buf[i + 10 + plen], buf[i + 10 + plen + 1]);
        if crc == got {
          MatchIsHeartbeat(buf, i, plen);
          return true;
        }
        assert !ChecksumHolds(buf, i, plen) by {
          if ChecksumHolds(buf, i, plen) {
            SameWord(crc, got);
          }
        }
      }
      assert !MatchesAt(buf, i);
      i := i + 1;
    }
    NoMatchNoHeartbeat(buf, i);
    found := false;
  }

  /** The scan's tests at one offset up to the checksum. */
  method CheckHeader(buf: seq<byte>, i: nat) returns (likely: bool)
    requires i + 12 <= |buf|
    ensures likely <==> LooksLikeHeartbeat(buf, i, buf[i + 1] as int)
  {
    if buf[i] != STX {
      return false;
    }
    var plen := buf[i + 1] as int;
    if plen < 9 || i + 10 + plen + 2 > |buf| {
      return false;
    }
    var msgid := ReadMessageId(buf[i + 7], buf[i + 8], buf[i + 9]);
    if msgid != 0 {
      return false;
    }
    var sysid, compid := buf[i + 5], buf[i + 6];
    if sysid == 0 || sysid == 255 || compid != 1 {
      return false;
    }
    var payload := buf[i + 10..i + 10 + plen];
    likely := payload[5] == AUTOPILOT_PX4;
  }

  /** A heartbeat is found whatever bytes come before and after it. */
  lemma FoundAmongOtherBytes(before: seq<byte>, f: Frame, after: seq<byte>)
    requires f.IsPX4Heartbeat()
    ensures HoldsHeartbeat(before + Encode(f) + after)
  {
    HeldInside(before, Encode(f), after);
  }

  lemma HeldInside<T(!new)>(before: seq<T>, part: seq<T>, after: seq<T>)
    ensures HoldsAt(before + part + after, |before|, part)
  {
  }

  /** What passes the scan carries the checksum of its own body. */
  lemma MatchHasOwnChecksum(g: Frame, crc: bv16)
    requires g.WellFormed() && MatchesAt(Framed(g.Body(), crc), 0)
    ensures crc == Checksum(g.Body(), HEARTBEAT_EXTRA)
  {
    var buf := Framed(g.Body(), crc);
    HoldsItself(buf);
    HeldFrame(buf, 0, g, crc);
    assert buf[1] == FrameAt(buf, 0, |g.payload|).header[0];
    assert ChecksumHolds(buf, 0, |g.payload|);
    SameWord(crc, Checksum(g.Body(), HEARTBEAT_EXTRA));
  }

  // ---- Damage ----

  /** `g` is `f` with the bits `u` of its body, from bit `at` on, turned into `v`. */
  ghost predicate Damaged(f: Frame, g: Frame, at: nat, u: seq<bool>, v: seq<bool>) {
    && f.WellFormed() && |g.header| == 9 && |u| == |v| <= 16 && u != v
    && exists after :: Splits(f, g, at, u, v, after)
  }

  ghost predicate Splits(f: Frame, g: Frame, at: nat, u: seq<bool>, v: seq<bool>, after: seq<bool>) {
    var x, y := AllBits(f.Body()), AllBits(g.Body());
    at <= |x| && at <= |y| && x[..at] == y[..at] && x[at..] == u + after && y[at..] == v + after
  }

  /** The damaged frame is taken for a heartbeat, with the checksum of the original. */
  ghost predicate Passes(f: Frame, g: Frame) {
    MatchesAt(Framed(g.Body(), Checksum(f.Body(), HEARTBEAT_EXTRA)), 0)
  }

  lemma SplitsJoin(f: Frame, g: Frame, at: nat, u: seq<bool>, v: seq<bool>, after: seq<bool>)
    requires Splits(f, g, at, u, v, after)
    ensures var before := AllBits(f.Body())[..at];
            AllBits(f.Body()) == before + u + after && AllBits(g.Body()) == before + v + after
  {
    JoinAt(AllBits(f.Body()), at, u, after);
    JoinAt(AllBits(g.Body()), at, v, after);
  }

  lemma JoinAt<T>(x: seq<T>, at: nat, u: seq<T>, after: seq<T>)
    requires at <= |x| && x[at..] == u + after
    ensures x == x[..at] + u + after
  {
    assert x == x[..at] + x[at..];
  }

  lemma UndamagedLength(f: Frame, g: Frame, at: nat, u: seq<bool>, v: seq<bool>, after: seq<bool>)
    requires f.WellFormed() && |g.header| == 9 && |u| == |v| && at >= 8 && Splits(f, g, at, u, v, after)
    ensures g.WellFormed()
  {
    var before := AllBits(f.Body())[..at];
    SplitsJoin(f, g, at, u, v, after);
    AllBitsLength(f.Body());
    AllBitsLength(g.Body());
    TailJoins(before, u, after);
    TailJoins(before, v, after);
    SameFirstByte(f.Body(), g.Body(), before, u + after, v + after);
    assert f.Body()[0] == f.header[0] && g.Body()[0] == g.header[0];
  }

  /** Damage within 16 consecutive bits is seen if it leaves the first byte, the length, alone. */
  lemma DamageIsSeen(f: Frame, g: Frame, at: nat, u: seq<bool>, v: seq<bool>)
    requires Damaged(f, g, at, u, v) && at >= 8
    ensures !Passes(f, g)
  {
    var after :| Splits(f, g, at, u, v, after);
    UndamagedLength(f, g, at, u, v, after);
    SplitsJoin(f, g, at, u, v, after);
    if Passes(f, g) {
      MatchHasOwnChecksum(g, Checksum(f.Body(), HEARTBEAT_EXTRA));
      BurstDetected(f.Body(), g.Body(), HEARTBEAT_EXTRA, AllBits(f.Body())[..at], u, v, after);
    }
  }

  /** One byte or two adjacent ones changed: so many bits. */
  lemma BytesAreBits(f: Frame, g: Frame, before: seq<byte>, u: seq<byte>, v: seq<byte>, after: seq<byte>)
    requires f.WellFormed() && |g.header| == 9 && u != v && |u| == |v| <= 2
    requires f.Body() == before + (u + after) && g.Body() == before + (v + after)
    ensures Damaged(f, g, 8 * |before|, AllBits(u), AllBits(v))
  {
    AllBitsLength(before);
    AllBitsLength(u);
    AllBitsLength(v);
    AllBitsJoin(before, u + after);
    AllBitsJoin(u, after);
    AllBitsJoin(before, v + after);
    AllBitsJoin(v, after);
    if AllBits(u) == AllBits(v) {
      AllBitsGiveBytes(u, v);
    }
    assert Splits(f, g, 8 * |before|, AllBits(u), AllBits(v), AllBits(after));
  }

  /** What follows the length byte of a heartbeat that carries, after nine payload bytes, the
      checksum of itself cut to nine payload bytes. */
  function AfterLength(n: nat): seq<byte>
    requires n >= 11
  {
    var crc := Checksum(SHORT_BODY, HEARTBEAT_EXTRA);
    HEADER_REST + NINE + [Low(crc), High(crc)] + seq(n - 11, _ => 0)
  }

  const HEADER_REST: seq<byte> := [0, 0, 0, 1, 1, 0, 0, 0]
  const NINE: seq<byte> := [0, 0, 0, 0, 0, 12, 0, 0, 0]
  const SHORT_BODY: seq<byte> := [9] + HEADER_REST + NINE

  function Victim(length: byte, n: nat): Frame
    requires n >= 11
  {
    Frame([length] + HEADER_REST, AfterLength(n)[8..])
  }

  lemma VictimParts<T>(x: T, a: seq<T>, b: seq<T>, c: seq<T>, d: seq<T>)
    ensures [x] + a + (a + b + c + d)[|a|..] == [x] + (a + b + c + d)
    ensures |(a + b + c + d)[|a|..]| == |b| + |c| + |d|
  {
    assert (a + b + c + d)[|a|..] == b + c + d;
  }

  lemma VictimBody(length: byte, n: nat)
    requires n >= 11
    ensures Victim(length, n).Body() == [length] + AfterLength(n) && |Victim(length, n).payload| == n
  {
    var crc := Checksum(SHORT_BODY, HEARTBEAT_EXTRA);
    VictimParts(length, HEADER_REST, NINE, [Low(crc), High(crc)], seq(n - 11, _ => 0));
  }

  lemma VictimIsHeartbeat(length: byte)
    requires length as int >= 11
    ensures Victim(length, length as int).IsPX4Heartbeat()
  {
    var n := length as int;
    VictimBody(length, n);
    assert Victim(length, n).payload[5] == AfterLength(n)[13] == 12;
  }

  /** The input: a PX4 HEARTBEAT whose length byte is turned into 9 passes the scan, because its
      checksum is then read from inside the payload. */
  lemma LengthDamagePasses(length: byte)
    requires length as int >= 11
    ensures Passes(Victim(length, length as int), Victim(9, length as int))
  {
    var n := length as int;
    VictimBody(9, n);
    FramedPasses(n, Checksum(Victim(length, n).Body(), HEARTBEAT_EXTRA));
  }

  lemma FramedPasses(n: nat, crc: bv16)
    requires n >= 11
    ensures MatchesAt(Framed([9] + AfterLength(n), crc), 0)
  {
    var body := [9] + AfterLength(n);
    var buf := Framed(body, crc);
    InsideFrame(STX, body, [Low(crc), High(crc)]);
    ShortFrameInside(buf, n);
  }

  lemma InsideFrame<T>(x: T, body: seq<T>, ends: seq<T>)
    ensures ([x] + body + ends)[0] == x && ([x] + body + ends)[1..1 + |body|] == body
  {
  }

  lemma ShortFrameInside(buf: seq<byte>, n: nat)
    requires n >= 11 && |buf| >= n + 12 && buf[0] == STX && buf[1..n + 10] == [9] + AfterLength(n)
    ensures LooksLikeHeartbeat(buf, 0, 9) && ChecksumHolds(buf, 0, 9)
  {
    var crc := Checksum(SHORT_BODY, HEARTBEAT_EXTRA);
    var body := buf[1..n + 10];
    assert body == SHORT_BODY + [Low(crc), High(crc)] + seq(n - 11, _ => 0);
    assert buf[1..19] == body[..18] == SHORT_BODY;
    assert buf[19] == body[18] && buf[20] == body[19];
    assert forall k :: 0 <= k < 18 ==> buf[k + 1] == SHORT_BODY[k];
  }

  /** For each bit of the length byte, a length that agrees with 9 in the bits below it. */
  const LENGTHS: seq<byte> := [12, 11, 13, 17, 25, 41, 73, 137]

  lemma LengthsAgree(at: nat)
    requires at < 8
    ensures LENGTHS[at] as int >= 11 && LENGTHS[at] != 9
    ensures |Bits(LENGTHS[at])| == |Bits(9)| == 8 && Bits(LENGTHS[at])[..at] == Bits(9)[..at]
  {
    EightBits(LENGTHS[at]);
    EightBits(9);
  }

  lemma LengthDamage(at: nat)
    requires at < 8
    ensures var n := LENGTHS[at] as int;
            n >= 11 && Damaged(Victim(LENGTHS[at], n), Victim(9, n), at, Bits(LENGTHS[at])[at..], Bits(9)[at..])
  {
    var length := LENGTHS[at];
    LengthsAgree(at);
    var n := length as int;
    var f, g := Victim(length, n), Victim(9, n);
    var p, q, after := Bits(length), Bits(9), AllBits(AfterLength(n));
    LengthBits(length, n);
    LengthBits(9, n);
    SplitInside(p, after, at);
    SplitInside(q, after, at);
    if p[at..] == q[at..] {
      assert p == p[..at] + p[at..] && q == q[..at] + q[at..];
      BitsGiveByte(length, 9);
    }
    VictimBody(length, n);
    VictimBody(9, n);
    assert Splits(f, g, at, p[at..], q[at..], after);
  }

  lemma LengthBits(length: byte, n: nat)
    requires n >= 11
    ensures AllBits(Victim(length, n).Body()) == Bits(length) + AllBits(AfterLength(n))
  {
    VictimBody(length, n);
    AllBitsJoin([length], AfterLength(n));
    AllBitsOne(length);
  }

  lemma SplitInside<T>(a: seq<T>, b: seq<T>, k: nat)
    requires k <= |a|
    ensures (a + b)[..k] == a[..k] && (a + b)[k..] == a[k..] + b
  {
  }

  /** Damage the scan does not see. */
  ghost predicate Unseen(f: Frame, g: Frame, at: nat, u: seq<bool>, v: seq<bool>) {
    Damaged(f, g, at, u, v) && Passes(f, g)
  }

  lemma LengthDamageUnseen(at: nat) returns (f: Frame, g: Frame, u: seq<bool>, v: seq<bool>)
    requires at < 8
    ensures f.IsPX4Heartbeat() && Unseen(f, g, at, u, v)
  {
    var length := LENGTHS[at];
    LengthDamage(at);
    VictimIsHeartbeat(length);
    LengthDamagePasses(length);
    f, g, u, v := Victim(length, length as int), Victim(9, length as int), Bits(length)[at..], Bits(9)[at..];
  }

  /** Damage within 16 bits from bit `at` of the body on is always seen exactly when it leaves the
      length byte alone. */
  lemma SeenExactly(at: nat)
    ensures (forall f, g, u, v :: !Unseen(f, g, at, u, v)) <==> at >= 8
  {
    if at >= 8 {
      forall f, g, u, v ensures !Unseen(f, g, at, u, v) {
        if Damaged(f, g, at, u, v) {
          DamageIsSeen(f, g, at, u, v);
        }
      }
    } else {
      var f, g, u, v := LengthDamageUnseen(at);
    }
  }

  // ---- Frames byte by byte ----

  /** A HEARTBEAT of system 1, component 1, a quadrotor with a PX4 autopilot. */
  const SAMPLE: seq<byte> := [9, 0, 0, 0, 1, 1, 0, 0, 0, 0, 0, 0, 0, 2, 12, 0, 4, 3]

  lemma SampleSteps()
    ensures CrcAccumulate(0x09, 0xFFFF) == 0x9246
    ensures CrcAccumulate(0x00, 0x9246) == 0x27A0
    ensures CrcAccumulate(0x00, 0x27A0) == 0xA52D
    ensures CrcAccumulate(0x00, 0xA52D) == 0xFA42
    ensures CrcAccumulate(0x01, 0xFA42) == 0x7065
    ensures CrcAccumulate(0x01, 0x7065) == 0x2552
    ensures CrcAccumulate(0x00, 0x2552) == 0x71B2
    ensures CrcAccumulate(0x00, 0x71B2) == 0x96E8
    ensures CrcAccumulate(0x00, 0x96E8) == 0x6BD0
    ensures CrcAccumulate(0x00, 0x6BD0) == 0xD6E6
    ensures CrcAccumulate(0x00, 0xD6E6) == 0x82EE
    ensures CrcAccumulate(0x00, 0x82EE) == 0x0EF2
    ensures CrcAccumulate(0x00, 0x0EF2) == 0xD493
    ensures CrcAccumulate(0x02, 0xD493) == 0x85D4
    ensures CrcAccumulate(0x0C, 0x85D4) == 0x5A40
    ensures CrcAccumulate(0x00, 0x5A40) == 0x425E
    ensures CrcAccumulate(0x04, 0x425E) == 0xFD9D
    ensures CrcAccumulate(0x03, 0xFD9D) == 0x7D0A
    ensures CrcAccumulate(0x32, 0x7D0A) == 0xBDB6
  {
  }

  lemma SampleChecksum()
    ensures Checksum(SAMPLE, HEARTBEAT_EXTRA) == 0xBDB6
  {
    var s := SAMPLE + [50];
    var r: seq<bv16> := [0xFFFF, 0x9246, 0x27A0, 0xA52D, 0xFA42, 0x7065, 0x2552, 0x71B2, 0x96E8, 0x6BD0, 0xD6E6, 0x82EE, 0x0EF2, 0xD493, 0x85D4, 0x5A40, 0x425E, 0xFD9D, 0x7D0A, 0xBDB6];
    SampleSteps();
    FeedFollows(s, r, 19);
    assert s[..19] == s;
  }

  /** 21 bytes have room for one frame only. */
  lemma OnlyAtFront(buf: seq<byte>)
    requires |buf| == 21
    ensures HoldsHeartbeat(buf) ==> MatchesAt(buf, 0)
  {
    if !MatchesAt(buf, 0) {
      NoMatchNoHeartbeat(buf, 10);
    }
  }

  /** For every buffer of 21 bytes: it holds a heartbeat exactly when it is a MAVLink 2 frame with nine
      payload bytes, message 0, from component 1 of a system other than 0 and 255, with autopilot 12
      (PX4), that ends in the checksum of what lies between. */
  lemma ShortestExactly(buf: seq<byte>)
    requires |buf| == 21
    ensures HoldsHeartbeat(buf) <==>
              && buf[0] == 0xFD && buf[1] == 9 && buf[5] != 0 && buf[5] != 255 && buf[6] == 1
              && buf[7] == 0 && buf[8] == 0 && buf[9] == 0 && buf[15] == 12
              && var crc := Checksum(buf[1..19], 50); [Low(crc), High(crc)] == [buf[19], buf[20]]
  {
    OnlyAtFront(buf);
    if LooksLikeHeartbeat(buf, 0, 9) && ChecksumHolds(buf, 0, 9) {
      MatchIsHeartbeat(buf, 0, 9);
    }
  }

  lemma SampleMatches(low: byte, high: byte)
    requires MatchesAt([0xFD] + SAMPLE + [low, high], 0)
    ensures low == 0xB6 && high == 0xBD
  {
    var buf := [0xFD] + SAMPLE + [low, high];
    var plen: nat :| LooksLikeHeartbeat(buf, 0, plen) && ChecksumHolds(buf, 0, plen);
    assert plen == buf[1] as int == 9;
    InsideFrame(0xFD, SAMPLE, [low, high]);
    SampleChecksum();
    SampleBytes();
    var sum: seq<byte> := [0xB6, 0xBD];
    assert sum == [buf[19], buf[20]];
    assert sum[0] == buf[19] && sum[1] == buf[20];
  }

  /** The sample is found, as these 21 bytes, exactly with this checksum. */
  lemma SampleFound(low: byte, high: byte)
    ensures HoldsHeartbeat([0xFD] + SAMPLE + [low, high]) <==> low == 0xB6 && high == 0xBD
  {
    var buf := [0xFD] + SAMPLE + [low, high];
    OnlyAtFront(buf);
    if MatchesAt(buf, 0) {
      SampleMatches(low, high);
    }
    SampleHeld();
  }

  lemma SampleHeld()
    ensures HoldsHeartbeat([0xFD] + SAMPLE + [0xB6, 0xBD])
  {
    InsideFrame(0xFD, SAMPLE, [0xB6, 0xBD]);
    SampleChecksum();
    SampleBytes();
    MatchIsHeartbeat([0xFD] + SAMPLE + [0xB6, 0xBD], 0, 9);
  }

  lemma SampleBytes()
    ensures Low(0xBDB6) == 0xB6 && High(0xBDB6) == 0xBD
  {
  }
}
