/** The server's replies: what each parser accepts, exactly, and what it returns. */
module AuthReplies {
  import opened Options
  import opened AuthWire

  const AUTH_CHALLENGE: byte := 0x02
  const AUTH_ACK: byte := 0x04
  const SESSION_ACK: byte := 0x11
  const SESSION_REFRESH_ACK: byte := 0x13
  const API_KEY_RESPONSE: byte := 0x21
  const REGISTER_CHALLENGE: byte := 0xA1
  const REGISTER_ACK: byte := 0xA3
  const VPN_ACK: byte := 0xB1

  datatype Reply =
    | AuthChallenge(nonce: seq<byte>, timeoutSec: nat)
    | AuthAck(token: seq<byte>, expiresAt: nat, interval: nat)
    | SessionAck(token: seq<byte>, expiresAt: nat, interval: nat)
    | SessionRefreshAck(expiresAt: nat, interval: nat)
    | APIKeyResponse(errorCode: nat, apiKey: seq<byte>, expiresAt: nat)
    | RegisterChallenge(nonce: seq<byte>, timeoutSec: nat)
    | RegisterAck(secretKey: seq<byte>, token: seq<byte>, expiresAt: nat, interval: nat)
    | VPNAck(assignedIP: seq<byte>, serverKey: seq<byte>, endpoint: seq<byte>)
    | Rejected(msgType: byte, result: byte, code: byte, waitSec: nat)

  datatype Parsed = Parsed(reply: Reply) | Malformed

  function TypeOf(m: Reply): byte {
    match m
    case AuthChallenge(_, _) => AUTH_CHALLENGE
    case AuthAck(_, _, _) => AUTH_ACK
    case SessionAck(_, _, _) => SESSION_ACK
    case SessionRefreshAck(_, _) => SESSION_REFRESH_ACK
    case APIKeyResponse(_, _, _) => API_KEY_RESPONSE
    case RegisterChallenge(_, _) => REGISTER_CHALLENGE
    case RegisterAck(_, _, _, _) => REGISTER_ACK
    case VPNAck(_, _, _) => VPN_ACK
    case Rejected(t, _, _, _) => t
  }

  /** Challenges carry no result byte; every other reply does, zero for success. */
  predicate HasResult(t: byte) {
    t != AUTH_CHALLENGE && t != REGISTER_CHALLENGE
  }

  function Header(t: byte): seq<byte> {
    if HasResult(t) then [t, 0] else [t]
  }

  function Fields(m: Reply): seq<Field>
    requires !m.Rejected?
  {
    match m
    case AuthChallenge(n, t) => [Blob(n), Num(2, t)]
    case AuthAck(t, e, i) => [Blob(t), Num(8, e), Num(2, i)]
    case SessionAck(t, e, i) => [Blob(t), Num(8, e), Num(2, i)]
    case SessionRefreshAck(e, i) => [Num(8, e), Num(2, i)]
    case APIKeyResponse(c, k, e) => [Num(1, c), Blob(k), Num(8, e)]
    case RegisterChallenge(n, t) => [Blob(n), Num(2, t)]
    case RegisterAck(s, t, e, i) => [Blob(s), Blob(t), Num(8, e), Num(2, i)]
    case VPNAck(ip, k, ep) => [Blob(ip), Blob(k), Blob(ep)]
  }

  function KindsOf(t: byte): seq<Kind> {
    if t == AUTH_CHALLENGE || t == REGISTER_CHALLENGE then [BlobKind, NumKind(2)]
    else if t == AUTH_ACK || t == SESSION_ACK then [BlobKind, NumKind(8), NumKind(2)]
    else if t == SESSION_REFRESH_ACK then [NumKind(8), NumKind(2)]
    else if t == API_KEY_RESPONSE then [NumKind(1), BlobKind, NumKind(8)]
    else if t == REGISTER_ACK then [BlobKind, BlobKind, NumKind(8), NumKind(2)]
    else [BlobKind, BlobKind, BlobKind]
  }

  lemma KindsOfFields(m: Reply)
    requires !m.Rejected?
    ensures Kinds(Fields(m)) == KindsOf(TypeOf(m))
  {
  }

  /** The documented encoding of a reply; a rejection is the type, the result and an error code. */
  function Wire(m: Reply): seq<byte> {
    if m.Rejected? then [m.msgType, m.result, m.code] else Header(TypeOf(m)) + EncAll(Fields(m))
  }

  ghost predicate Fits(m: Reply) {
    if m.Rejected? then HasResult(m.msgType) && m.result != 0 && m.waitSec == 0 else AllFit(Fields(m))
  }

  /** A reply that reports failure. Only API_KEY_RESPONSE insists on its error code. */
  predicate Rejects(t: byte, data: seq<byte>) {
    HasResult(t) && |data| >= (if t == API_KEY_RESPONSE then 3 else 2) && data[0] == t && data[1] != 0
  }

  function Rejection(t: byte, data: seq<byte>): Reply
    requires |data| >= 2
  {
    Rejected(t, data[1], if |data| > 2 then data[2] else 0, if t == AUTH_ACK && |data| >= 5 then FromLE(data[3..5]) else 0)
  }

  ghost predicate Succeeds(t: byte, data: seq<byte>) {
    Prefix(Header(t), data) && Reads(KindsOf(t), data[|Header(t)|..])
  }

  /** What a parser for type `t` must return on `data`: a rejection as it stands, the one reply whose
      encoding `data` begins with, or an error if there is neither. */
  ghost predicate Correct(t: byte, data: seq<byte>, r: Parsed) {
    match r
    case Malformed => !Rejects(t, data) && !Succeeds(t, data)
    case Parsed(m) =>
      if m.Rejected? then Rejects(t, data) && m == Rejection(t, data)
      else TypeOf(m) == t && AllFit(Fields(m)) && Prefix(Wire(m), data)
  }

  /** The bytes of each reply, by position. */
  function Layout(m: Reply): seq<byte> {
    match m
    case AuthChallenge(nonce, timeout) => [0x02] + Str(nonce) + U16(timeout)
    case AuthAck(token, expires, interval) => [0x04, 0] + Str(token) + U64(expires) + U16(interval)
    case SessionAck(token, expires, interval) => [0x11, 0] + Str(token) + U64(expires) + U16(interval)
    case SessionRefreshAck(expires, interval) => [0x13, 0] + U64(expires) + U16(interval)
    case APIKeyResponse(code, key, expires) => [0x21, 0, code % 256] + Str(key) + U64(expires)
    case RegisterChallenge(nonce, timeout) => [0xA1] + Str(nonce) + U16(timeout)
    case RegisterAck(secret, token, expires, interval) => [0xA3, 0] + Str(secret) + Str(token) + U64(expires) + U16(interval)
    case VPNAck(ip, key, endpoint) => [0xB1, 0] + Str(ip) + Str(key) + Str(endpoint)
    case Rejected(t, result, code, _) => [t, result, code]
  }

  lemma Joined<T>(a: seq<T>, b: seq<T>, c: seq<T>, d: seq<T>, e: seq<T>)
    ensures a + (b + c) == a + b + c
    ensures a + (b + c + d) == a + b + c + d
    ensures a + (b + c + d + e) == a + b + c + d + e
  {
  }

  lemma KeyHead<T>(a: T, b: T, c: T, k: seq<T>, e: seq<T>)
    ensures [a, b] + ([c] + k + e) == [a, b, c] + k + e
  {
  }

  /** The documented encoding has exactly these bytes. */
  lemma WireLayout(m: Reply)
    ensures Wire(m) == Layout(m)
  {
    match m
    case AuthChallenge(nonce, timeout) => ChallengeLayout(AUTH_CHALLENGE, nonce, timeout);
    case RegisterChallenge(nonce, timeout) => ChallengeLayout(REGISTER_CHALLENGE, nonce, timeout);
    case AuthAck(token, expires, interval) => AckLayout(AUTH_ACK, token, expires, interval);
    case SessionAck(token, expires, interval) => AckLayout(SESSION_ACK, token, expires, interval);
    case SessionRefreshAck(expires, interval) =>
      EncTwo(Num(8, expires), Num(2, interval));
      WireNumbers(expires);
      WireNumbers(interval);
      Joined([SESSION_REFRESH_ACK, 0], U64(expires), U16(interval), [], []);
    case APIKeyResponse(code, key, expires) =>
      EncThree(Num(1, code), Blob(key), Num(8, expires));
      WireNumbers(code);
      WireNumbers(expires);
      WireString(key);
      KeyHead<byte>(API_KEY_RESPONSE, 0, code % 256, Str(key), U64(expires));
    case RegisterAck(secret, token, expires, interval) => RegisterLayout(secret, token, expires, interval);
    case VPNAck(ip, key, endpoint) => ProvisionLayout(ip, key, endpoint);
    case Rejected(_, _, _, _) =>
  }

  lemma RegisterLayout(secret: seq<byte>, token: seq<byte>, expires: nat, interval: nat)
    ensures [REGISTER_ACK, 0] + EncAll([Blob(secret), Blob(token), Num(8, expires), Num(2, interval)])
            == [REGISTER_ACK, 0] + Str(secret) + Str(token) + U64(expires) + U16(interval)
  {
    EncFour(Blob(secret), Blob(token), Num(8, expires), Num(2, interval));
    WireNumbers(expires);
    WireNumbers(interval);
    WireString(secret);
    WireString(token);
    Joined([REGISTER_ACK, 0], Str(secret), Str(token), U64(expires), U16(interval));
  }

  lemma ProvisionLayout(ip: seq<byte>, key: seq<byte>, endpoint: seq<byte>)
    ensures [VPN_ACK, 0] + EncAll([Blob(ip), Blob(key), Blob(endpoint)]) == [VPN_ACK, 0] + Str(ip) + Str(key) + Str(endpoint)
  {
    EncThree(Blob(ip), Blob(key), Blob(endpoint));
    WireString(ip);
    WireString(key);
    WireString(endpoint);
    Joined([VPN_ACK, 0], Str(ip), Str(key), Str(endpoint), []);
  }

  lemma ChallengeLayout(t: byte, nonce: seq<byte>, timeout: nat)
    ensures [t] + EncAll([Blob(nonce), Num(2, timeout)]) == [t] + Str(nonce) + U16(timeout)
  {
    EncTwo(Blob(nonce), Num(2, timeout));
    WireNumbers(timeout);
    WireString(nonce);
    Joined([t], Str(nonce), U16(timeout), [], []);
  }

  lemma AckLayout(t: byte, token: seq<byte>, expires: nat, interval: nat)
    ensures [t, 0] + EncAll([Blob(token), Num(8, expires), Num(2, interval)]) == [t, 0] + Str(token) + U64(expires) + U16(interval)
  {
    EncThree(Blob(token), Num(8, expires), Num(2, interval));
    WireNumbers(expires);
    WireNumbers(interval);
    WireString(token);
    Joined([t, 0], Str(token), U64(expires), U16(interval), []);
  }

  /** So each reply, given by its bytes and whatever follows them, parses to its own fields. */
  lemma LayoutParses(m: Reply, after: seq<byte>, r: Parsed)
    requires Fits(m) && Correct(TypeOf(m), Layout(m) + after, r) && (m.Rejected? && m.msgType == AUTH_ACK ==> after == [])
    ensures r == Parsed(m)
  {
    WireLayout(m);
    RoundTrip(m, after, r);
  }

  /** A refused AUTH_ACK gives the seconds to wait in the two bytes after its error code. */
  lemma RejectedWait(result: byte, code: byte, low: byte, high: byte, after: seq<byte>, r: Parsed)
    requires result != 0 && Correct(AUTH_ACK, [0x04, result, code, low, high] + after, r)
    ensures r == Parsed(Rejected(0x04, result, code, low + 256 * high))
  {
    var data := [0x04, result, code, low, high] + after;
    assert data[3..5] == [low, high];
    assert [low, high][1..] == [high];
    assert FromLE([high]) == high + 256 * FromLE([]);
    assert FromLE([low, high]) == low + 256 * FromLE([low, high][1..]);
    assert Rejects(AUTH_ACK, data);
    CorrectIsUnique(AUTH_ACK, data, r, Parsed(Rejection(AUTH_ACK, data)));
  }

  // ---- What every correct parser does ----

  lemma WireSucceeds(m: Reply, data: seq<byte>)
    requires !m.Rejected? && AllFit(Fields(m)) && Prefix(Wire(m), data)
    ensures Succeeds(TypeOf(m), data) && !Rejects(TypeOf(m), data)
  {
    var h := Header(TypeOf(m));
    PrefixParts(h, EncAll(Fields(m)), data);
    KindsOfFields(m);
    if HasResult(TypeOf(m)) {
      assert data[1] == data[..|h|][1] == h[1];
    }
  }

  lemma SameWire(m: Reply, n: Reply, data: seq<byte>)
    requires !m.Rejected? && !n.Rejected? && TypeOf(m) == TypeOf(n)
    requires AllFit(Fields(m)) && AllFit(Fields(n)) && Prefix(Wire(m), data) && Prefix(Wire(n), data)
    ensures m == n
  {
    var t, h := TypeOf(m), Header(TypeOf(m));
    PrefixParts(h, EncAll(Fields(m)), data);
    PrefixParts(h, EncAll(Fields(n)), data);
    KindsOfFields(m);
    KindsOfFields(n);
    ReadIsUnique(Fields(m), data[|h|..], |EncAll(Fields(m))|, Fields(n));
    assert forall i :: 0 <= i < |Fields(m)| ==> Fields(m)[i] == Fields(n)[i];
  }

  /** The contract leaves no freedom: at most one result is correct. */
  lemma CorrectIsUnique(t: byte, data: seq<byte>, r: Parsed, s: Parsed)
    requires Correct(t, data, r) && Correct(t, data, s)
    ensures r == s
  {
    if r.Parsed? && !r.reply.Rejected? {
      WireSucceeds(r.reply, data);
    }
    if s.Parsed? && !s.reply.Rejected? {
      WireSucceeds(s.reply, data);
    }
    if r.Parsed? && s.Parsed? && !r.reply.Rejected? && !s.reply.Rejected? {
      SameWire(r.reply, s.reply, data);
    }
  }

  /** Parsing the documented encoding, whatever follows it, returns the reply. */
  lemma RoundTrip(m: Reply, after: seq<byte>, r: Parsed)
    requires Fits(m) && Correct(TypeOf(m), Wire(m) + after, r) && (m.Rejected? && m.msgType == AUTH_ACK ==> after == [])
    ensures r == Parsed(m)
  {
    var data := Wire(m) + after;
    if m.Rejected? {
      assert data[..3] == Wire(m) && Rejects(m.msgType, data) && Rejection(m.msgType, data) == m;
      CorrectIsUnique(m.msgType, data, r, Parsed(m));
    } else {
      assert Prefix(Wire(m), data);
      CorrectIsUnique(TypeOf(m), data, r, Parsed(m));
    }
  }

  /** No strict prefix of a success packet parses: a short read is always noticed. */
  lemma ShortReadNoticed(m: Reply, n: nat, r: Parsed)
    requires !m.Rejected? && Fits(m) && n < |Wire(m)| && Correct(TypeOf(m), Wire(m)[..n], r)
    ensures r == Malformed
  {
    var w := Wire(m);
    var data := w[..n];
    assert Prefix(w, w);
    WireSucceeds(m, w);
    if r.Parsed? && !r.reply.Rejected? {
      assert w[..|Wire(r.reply)|] == data[..|Wire(r.reply)|];
      SameWire(r.reply, m, w);
    }
  }

  // ---- Reading one field, or giving up on the whole list ----

  lemma Advance(done: seq<Field>, body: seq<byte>, at: nat, kinds: seq<Kind>, f: Field)
    requires ReadSoFar(done, body, at) && |done| < |kinds| && Kinds(done) == kinds[..|done|]
    requires f.Kind() == kinds[|done|] && f.Fits() && Prefix(Enc(f), body[at..])
    ensures ReadSoFar(done + [f], body, at + |Enc(f)|) && Kinds(done + [f]) == kinds[..|done| + 1]
  {
    ReadOne(done, body, at, f);
    assert Kinds(done + [f]) == Kinds(done) + [f.Kind()];
  }

  method TakeBlob(body: seq<byte>, at: nat, ghost done: seq<Field>, ghost kinds: seq<Kind>)
    returns (r: Option<seq<byte>>, next: nat, ghost now: seq<Field>)
    requires ReadSoFar(done, body, at) && |done| < |kinds| && Kinds(done) == kinds[..|done|] && kinds[|done|] == BlobKind
    ensures r.None? ==> !Reads(kinds, body)
    ensures r.Some? ==> now == done + [Blob(r.value)] && ReadSoFar(now, body, next) && Kinds(now) == kinds[..|now|]
  {
    r := ReadBlob(body, at);
    next, now := at, done;
    if r.None? {
      Stuck(done, body, at, kinds);
    } else {
      next := at + 2 + |r.value|;
      now := done + [Blob(r.value)];
      assert |Enc(Blob(r.value))| == 2 + |r.value|;
      Advance(done, body, at, kinds, Blob(r.value));
    }
  }

  method TakeNum(body: seq<byte>, at: nat, width: nat, ghost done: seq<Field>, ghost kinds: seq<Kind>)
    returns (r: Option<nat>, next: nat, ghost now: seq<Field>)
    requires ReadSoFar(done, body, at) && |done| < |kinds| && Kinds(done) == kinds[..|done|] && kinds[|done|] == NumKind(width)
    ensures r.None? ==> !Reads(kinds, body)
    ensures r.Some? ==> now == done + [Num(width, r.value)] && ReadSoFar(now, body, next) && Kinds(now) == kinds[..|now|]
  {
    r := ReadNum(body, at, width);
    next, now := at, done;
    if r.None? {
      Stuck(done, body, at, kinds);
    } else {
      next := at + width;
      now := done + [Num(width, r.value)];
      assert body[at..][..width] == body[at..at + width];
      Advance(done, body, at, kinds, Num(width, r.value));
    }
  }

  /** All fields read: the reply they make is the right one. */
  lemma AllRead(m: Reply, data: seq<byte>, at: nat)
    requires !m.Rejected? && Prefix(Header(TypeOf(m)), data)
    requires ReadSoFar(Fields(m), data[|Header(TypeOf(m))|..], at)
    ensures Correct(TypeOf(m), data, Parsed(m))
  {
    PrefixParts(Header(TypeOf(m)), EncAll(Fields(m)), data);
  }

  /** Fields missing: the packet is malformed. */
  lemma FieldsMissing(t: byte, data: seq<byte>)
    requires Prefix(Header(t), data) && !Reads(KindsOf(t), data[|Header(t)|..])
    ensures Correct(t, data, Malformed)
  {
    if HasResult(t) {
      assert data[1] == data[..2][1] == Header(t)[1];
    }
  }

  // ---- The parsers ----

  /** What the first bytes of a packet decide: an error, a rejection, or fields to come. */
  datatype Opening = BadOpening | Failure(reply: Reply) | Body(body: seq<byte>)

  method ReadOpening(t: byte, data: seq<byte>) returns (o: Opening)
    ensures o.BadOpening? ==> Correct(t, data, Malformed)
    ensures o.Failure? ==> Correct(t, data, Parsed(o.reply))
    ensures o.Body? ==> Prefix(Header(t), data) && o.body == data[|Header(t)|..]
  {
    if |data| < 1 {
      return BadOpening;
    }
    if data[0] != t {
      assert !Prefix(Header(t), data) by { assert Header(t)[0] == t; }
      return BadOpening;
    }
    if t == AUTH_CHALLENGE || t == REGISTER_CHALLENGE {
      return Body(data[1..]);
    }
    if |data| < 2 {
      return BadOpening;
    }
    var result := data[1];
    if t == API_KEY_RESPONSE && |data| < 3 {
      NoRoomForCode(data);
      return BadOpening;
    }
    if result != 0 {
      var code: byte := 0;
      if |data| >= 3 {
        code := data[2];
      }
      var wait := 0;
      if t == AUTH_ACK && |data| >= 5 {
        wait := FromLE(data[3..5]);
      }
      return Failure(Rejected(t, result, code, wait));
    }
    o := Body(data[2..]);
  }

  lemma NoRoomForCode(data: seq<byte>)
    requires |data| == 2
    ensures !Succeeds(API_KEY_RESPONSE, data)
  {
    assert ReadSoFar([], data[2..], 0);
    Stuck([], data[2..], 0, KindsOf(API_KEY_RESPONSE));
  }

  /** Both challenges: a nonce and a timeout. */
  method ParseChallenge(t: byte, data: seq<byte>) returns (r: Parsed)
    requires t == AUTH_CHALLENGE || t == REGISTER_CHALLENGE
    ensures Correct(t, data, r)
  {
    var opening := ReadOpening(t, data);
    if opening.BadOpening? {
      return Malformed;
    }
    if opening.Failure? {
      return Parsed(opening.reply);
    }
    var body, at := opening.body, 0;
    ghost var done, kinds := [], KindsOf(t);
    var nonce;
    nonce, at, done := TakeBlob(body, at, done, kinds);
    if nonce.None? {
      FieldsMissing(t, data);
      return Malformed;
    }
    var timeout;
    timeout, at, done := TakeNum(body, at, 2, done, kinds);
    if timeout.None? {
      FieldsMissing(t, data);
      return Malformed;
    }
    var reply := if t == AUTH_CHALLENGE then AuthChallenge(nonce.value, timeout.value) else RegisterChallenge(nonce.value, timeout.value);
    assert done == Fields(reply);
    AllRead(reply, data, at);
    r := Parsed(reply);
  }

  method ParseAuthChallenge(data: seq<byte>) returns (r: Parsed)
    ensures Correct(AUTH_CHALLENGE, data, r)
  {
    r := ParseChallenge(AUTH_CHALLENGE, data);
  }

  method ParseRegisterChallenge(data: seq<byte>) returns (r: Parsed)
    ensures Correct(REGISTER_CHALLENGE, data, r)
  {
    r := ParseChallenge(REGISTER_CHALLENGE, data);
  }

  /** Both acks that carry a session: a token, its expiry and the refresh interval. */
  method ParseTokenAck(t: byte, data: seq<byte>) returns (r: Parsed)
    requires t == AUTH_ACK || t == SESSION_ACK
    ensures Correct(t, data, r)
  {
    var opening := ReadOpening(t, data);
    if opening.BadOpening? {
      return Malformed;
    }
    if opening.Failure? {
      return Parsed(opening.reply);
    }
    var body, at := opening.body, 0;
    ghost var done, kinds := [], KindsOf(t);
    var token;
    token, at, done := TakeBlob(body, at, done, kinds);
    if token.None? {
      FieldsMissing(t, data);
      return Malformed;
    }
    var expiresAt;
    expiresAt, at, done := TakeNum(body, at, 8, done, kinds);
    if expiresAt.None? {
      FieldsMissing(t, data);
      return Malformed;
    }
    var interval;
    interval, at, done := TakeNum(body, at, 2, done, kinds);
    if interval.None? {
      FieldsMissing(t, data);
      return Malformed;
    }
    var reply := if t == AUTH_ACK then AuthAck(token.value, expiresAt.value, interval.value)
                 else SessionAck(token.value, expiresAt.value, interval.value);
    assert done == Fields(reply);
    AllRead(reply, data, at);
    r := Parsed(reply);
  }

  method ParseAuthAck(data: seq<byte>) returns (r: Parsed)
    ensures Correct(AUTH_ACK, data, r)
  {
    r := ParseTokenAck(AUTH_ACK, data);
  }

  method ParseSessionAck(data: seq<byte>) returns (r: Parsed)
    ensures Correct(SESSION_ACK, data, r)
  {
    r := ParseTokenAck(SESSION_ACK, data);
  }

  method ParseSessionRefreshAck(data: seq<byte>) returns (r: Parsed)
    ensures Correct(SESSION_REFRESH_ACK, data, r)
  {
    var opening := ReadOpening(SESSION_REFRESH_ACK, data);
    if opening.BadOpening? {
      return Malformed;
    }
    if opening.Failure? {
      return Parsed(opening.reply);
    }
    var body, at := opening.body, 0;
    ghost var done, kinds := [], KindsOf(SESSION_REFRESH_ACK);
    var expiresAt;
    expiresAt, at, done := TakeNum(body, at, 8, done, kinds);
    if expiresAt.None? {
      FieldsMissing(SESSION_REFRESH_ACK, data);
      return Malformed;
    }
    var interval;
    interval, at, done := TakeNum(body, at, 2, done, kinds);
    if interval.None? {
      FieldsMissing(SESSION_REFRESH_ACK, data);
      return Malformed;
    }
    var reply := SessionRefreshAck(expiresAt.value, interval.value);
    assert done == Fields(reply);
    AllRead(reply, data, at);
    r := Parsed(reply);
  }

  method ParseRegisterAck(data: seq<byte>) returns (r: Parsed)
    ensures Correct(REGISTER_ACK, data, r)
  {
    var opening := ReadOpening(REGISTER_ACK, data);
    if opening.BadOpening? {
      return Malformed;
    }
    if opening.Failure? {
      return Parsed(opening.reply);
    }
    var body, at := opening.body, 0;
    ghost var done, kinds := [], KindsOf(REGISTER_ACK);
    var secret;
    secret, at, done := TakeBlob(body, at, done, kinds);
    if secret.None? {
      FieldsMissing(REGISTER_ACK, data);
      return Malformed;
    }
    var token;
    token, at, done := TakeBlob(body, at, done, kinds);
    if token.None? {
      FieldsMissing(REGISTER_ACK, data);
      return Malformed;
    }
    var expiresAt;
    expiresAt, at, done := TakeNum(body, at, 8, done, kinds);
    if expiresAt.None? {
      FieldsMissing(REGISTER_ACK, data);
      return Malformed;
    }
    var interval;
    interval, at, done := TakeNum(body, at, 2, done, kinds);
    if interval.None? {
      FieldsMissing(REGISTER_ACK, data);
      return Malformed;
    }
    var reply := RegisterAck(secret.value, token.value, expiresAt.value, interval.value);
    assert done == Fields(reply);
    AllRead(reply, data, at);
    r := Parsed(reply);
  }

  method ParseVPNProvisionAck(data: seq<byte>) returns (r: Parsed)
    ensures Correct(VPN_ACK, data, r)
  {
    var opening := ReadOpening(VPN_ACK, data);
    if opening.BadOpening? {
      return Malformed;
    }
    if opening.Failure? {
      return Parsed(opening.reply);
    }
    var body, at := opening.body, 0;
    ghost var done, kinds := [], KindsOf(VPN_ACK);
    var ip;
    ip, at, done := TakeBlob(body, at, done, kinds);
    if ip.None? {
      FieldsMissing(VPN_ACK, data);
      return Malformed;
    }
    var key;
    key, at, done := TakeBlob(body, at, done, kinds);
    if key.None? {
      FieldsMissing(VPN_ACK, data);
      return Malformed;
    }
    var endpoint;
    endpoint, at, done := TakeBlob(body, at, done, kinds);
    if endpoint.None? {
      FieldsMissing(VPN_ACK, data);
      return Malformed;
    }
    var reply := VPNAck(ip.value, key.value, endpoint.value);
    assert done == Fields(reply);
    AllRead(reply, data, at);
    r := Parsed(reply);
  }

  /** API_KEY_RESPONSE without its length frame. */
  method ParseAPIKeyUnframed(data: seq<byte>) returns (r: Parsed)
    ensures Correct(API_KEY_RESPONSE, data, r)
  {
    var opening := ReadOpening(API_KEY_RESPONSE, data);
    if opening.BadOpening? {
      return Malformed;
    }
    if opening.Failure? {
      return Parsed(opening.reply);
    }
    var body, at := opening.body, 0;
    ghost var done, kinds := [], KindsOf(API_KEY_RESPONSE);
    var code;
    code, at, done := TakeNum(body, at, 1, done, kinds);
    if code.None? {
      FieldsMissing(API_KEY_RESPONSE, data);
      return Malformed;
    }
    var key;
    key, at, done := TakeBlob(body, at, done, kinds);
    if key.None? {
      FieldsMissing(API_KEY_RESPONSE, data);
      return Malformed;
    }
    var expiresAt;
    expiresAt, at, done := TakeNum(body, at, 8, done, kinds);
    if expiresAt.None? {
      FieldsMissing(API_KEY_RESPONSE, data);
      return Malformed;
    }
    var reply := APIKeyResponse(code.value, key.value, expiresAt.value);
    assert done == Fields(reply);
    AllRead(reply, data, at);
    r := Parsed(reply);
  }

  // ---- The optional length frame of API_KEY_RESPONSE ----

  /** The third byte decides whether a length frame is assumed. */
  predicate LooksFramed(data: seq<byte>) {
    |data| >= 3 && data[2] == API_KEY_RESPONSE
  }

  ghost predicate CorrectAPIKey(data: seq<byte>, r: Parsed) {
    if !LooksFramed(data) then Correct(API_KEY_RESPONSE, data, r)
    else if |data| < FromLE(data[0..2]) + 2 then r == Malformed
    else Correct(API_KEY_RESPONSE, data[2..], r)
  }

  method ParseAPIKeyResponse(data: seq<byte>) returns (r: Parsed)
    ensures CorrectAPIKey(data, r)
  {
    if |data| < 1 {
      return Malformed;
    }
    if |data| >= 3 && data[2] == API_KEY_RESPONSE {
      var payloadLength := FromLE(data[0..2]);
      if |data| < payloadLength + 2 {
        return Malformed;
      }
      r := ParseAPIKeyUnframed(data[2..]);
    } else if data[0] == API_KEY_RESPONSE {
      r := ParseAPIKeyUnframed(data);
    } else {
      r := Malformed;
    }
  }

  predicate IsAPIKeyReply(m: Reply) {
    m.APIKeyResponse? || (m.Rejected? && m.msgType == API_KEY_RESPONSE)
  }

  /** The error code of an API key reply. */
  function CodeOf(m: Reply): nat
    requires IsAPIKeyReply(m)
  {
    if m.Rejected? then m.code else m.errorCode
  }

  lemma CodeIsThirdByte(m: Reply)
    requires IsAPIKeyReply(m) && Fits(m)
    ensures |Wire(m)| >= 3 && Wire(m)[0] == API_KEY_RESPONSE && Wire(m)[2] == CodeOf(m)
  {
    if !m.Rejected? {
      var f := Num(1, m.errorCode);
      assert Fields(m)[0] == f && f.Fits();
      assert Pow256(1) == 256;
      assert Enc(f) == [m.errorCode];
      assert EncAll(Fields(m)) == Enc(f) + EncAll(Fields(m)[1..]);
    }
  }

  /** A reply and its length frame, as the parser takes them apart. */
  lemma FrameParts<T>(frame: seq<T>, w: seq<T>, after: seq<T>)
    requires |frame| == 2
    ensures var data := frame + w + after;
            data[0..2] == frame && data[2..] == w + after && (w != [] ==> data[2] == w[0])
  {
  }

  /** The framed encoding parses to the reply, whatever its error code; a length that does not fit
      its two bytes does no harm. */
  lemma FramedRoundTrip(m: Reply, after: seq<byte>, r: Parsed)
    requires IsAPIKeyReply(m) && Fits(m)
    requires CorrectAPIKey(LE(|Wire(m)|, 2) + Wire(m) + after, r)
    ensures r == Parsed(m)
  {
    CodeIsThirdByte(m);
    ReadAtMost(|Wire(m)|, 2);
    FrameParts(LE(|Wire(m)|, 2), Wire(m), after);
    RoundTrip(m, after, r);
  }

  /** The unframed encoding parses to the reply exactly when the error code is not 0x21. */
  lemma UnframedExactly(m: Reply, r: Parsed)
    requires IsAPIKeyReply(m) && Fits(m) && CorrectAPIKey(Wire(m), r)
    ensures r == Parsed(m) <==> CodeOf(m) != 0x21
  {
    var w := Wire(m);
    CodeIsThirdByte(m);
    if CodeOf(m) != 0x21 {
      assert w + [] == w;
      RoundTrip(m, [], r);
    }
  }

  // ---- Short reads of API_KEY_RESPONSE ----

  lemma KeyFields(c: nat, key: seq<byte>, e: nat)
    ensures EncAll([Num(1, c), Blob(key), Num(8, e)]) == LE(c, 1) + (LE(|key|, 2) + key) + LE(e, 8)
  {
    var f, g, h := Num(1, c), Blob(key), Num(8, e);
    assert [f, g, h] == [f, g] + [h] && [f, g] == [f] + [g];
    EncAllAppend([f, g], [h]);
    EncAllAppend([f], [g]);
    assert EncAll([f]) == Enc(f) && EncAll([g]) == Enc(g) && EncAll([h]) == Enc(h);
  }

  /** A success reply lies at the head of `data` exactly when the length it gives for the key is there. */
  predicate HoldsKey(data: seq<byte>) {
    |data| >= 13 && data[0] == API_KEY_RESPONSE && data[1] == 0 && |data| >= 13 + FromLE(data[3..5])
  }

  lemma KeyLength(m: Reply, data: seq<byte>)
    requires m.APIKeyResponse? && Fits(m) && Prefix(Wire(m), data)
    ensures |Wire(m)| == 13 + |m.apiKey| && HoldsKey(data)
  {
    KeyFields(m.errorCode, m.apiKey, m.expiresAt);
    var w := Wire(m);
    FirstBytes([API_KEY_RESPONSE, 0], LE(m.errorCode, 1), LE(|m.apiKey|, 2), m.apiKey, LE(m.expiresAt, 8));
    assert data[3..5] == data[..|w|][3..5];
    assert data[0] == data[..|w|][0] && data[1] == data[..|w|][1];
    assert Fields(m)[1] == Blob(m.apiKey) && Fields(m)[1].Fits() && Pow256(2) == 0x10000;
    ReadWrite(|m.apiKey|, 2);
  }

  /** The reply at the head of `data`. */
  ghost function KeyAt(data: seq<byte>): Reply
    requires HoldsKey(data)
  {
    var n := FromLE(data[3..5]);
    APIKeyResponse(data[2], data[5..5 + n], FromLE(data[5 + n..13 + n]))
  }

  lemma KeyAtCorrect(data: seq<byte>)
    requires HoldsKey(data)
    ensures Correct(API_KEY_RESPONSE, data, Parsed(KeyAt(data)))
  {
    var n := FromLE(data[3..5]);
    var m := KeyAt(data);
    KeyAtFits(data);
    KeyAtFields(data);
    SlicesJoin(data, n);
    assert Wire(m) == data[..13 + n];
  }

  lemma KeyAtFits(data: seq<byte>)
    requires HoldsKey(data)
    ensures Fits(KeyAt(data))
  {
    var n := FromLE(data[3..5]);
    FromLEBounded(data[3..5]);
    FromLEBounded(data[5 + n..13 + n]);
    assert Pow256(1) == 256 && Pow256(2) == 0x10000;
  }

  lemma KeyAtFields(data: seq<byte>)
    requires HoldsKey(data)
    ensures var n := FromLE(data[3..5]);
            EncAll(Fields(KeyAt(data))) == [data[2]] + (data[3..5] + data[5..5 + n]) + data[5 + n..13 + n]
  {
    var n := FromLE(data[3..5]);
    var m := KeyAt(data);
    WriteRead(data[3..5]);
    WriteRead(data[5 + n..13 + n]);
    assert LE(m.errorCode, 1) == [data[2]];
    KeyFields(m.errorCode, m.apiKey, m.expiresAt);
  }

  lemma SlicesJoin<T>(s: seq<T>, n: nat)
    requires |s| >= 13 + n
    ensures [s[0], s[1]] + ([s[2]] + (s[3..5] + s[5..5 + n]) + s[5 + n..13 + n]) == s[..13 + n]
  {
  }

  lemma KeyResult(data: seq<byte>, r: Parsed)
    requires Correct(API_KEY_RESPONSE, data, r)
    ensures r == Malformed <==> !Rejects(API_KEY_RESPONSE, data) && !HoldsKey(data)
  {
    if HoldsKey(data) {
      KeyAtCorrect(data);
      CorrectIsUnique(API_KEY_RESPONSE, data, r, Parsed(KeyAt(data)));
    } else if r.Parsed? && !r.reply.Rejected? {
      KeyLength(r.reply, data);
    }
  }

  /** With its length frame, no strict prefix of an API key reply parses. */
  lemma FramedShortRead(m: Reply, n: nat, r: Parsed)
    requires IsAPIKeyReply(m) && Fits(m) && n < |Wire(m)| + 2
    requires CorrectAPIKey((LE(|Wire(m)|, 2) + Wire(m))[..n], r)
    ensures r == Malformed
  {
    var frame, w := LE(|Wire(m)|, 2), Wire(m);
    var data := (frame + w)[..n];
    CodeIsThirdByte(m);
    if n < 3 {
      KeyResult(data, r);
    } else {
      CutParts(frame, w, n);
      if m.Rejected? {
        assert Pow256(2) == 0x10000;
        ReadWrite(3, 2);
      } else if |data| >= FromLE(data[0..2]) + 2 {
        ShortReadNoticed(m, n - 2, r);
      }
    }
  }

  lemma CutParts<T>(frame: seq<T>, w: seq<T>, n: nat)
    requires |frame| == 2 && 3 <= n <= |w| + 2
    ensures var data := (frame + w)[..n]; data[0..2] == frame && data[2..] == w[..n - 2] && data[2] == w[0]
  {
  }

  /** The first two bytes of a key, read as a number. */
  function Head(key: seq<byte>): nat {
    if |key| >= 2 then FromLE(key[..2]) else 0
  }

  /** Without the frame a strict prefix of a success reply is noticed exactly when the error code is
      not 0x21, or fewer than 35 bytes came, or the bytes two further on are again the beginning of a
      success reply that is cut short: the key's length has a zero low byte and its head, taken for
      a length, reaches beyond what came. */
  lemma UnframedShortReadExactly(m: Reply, n: nat, r: Parsed)
    requires m.APIKeyResponse? && Fits(m) && n < |Wire(m)| && CorrectAPIKey(Wire(m)[..n], r)
    ensures r == Malformed <==>
              m.errorCode != 0x21 || n < 35 || (|m.apiKey| % 256 == 0 && n < 15 + Head(m.apiKey))
  {
    var w, data := Wire(m), Wire(m)[..n];
    CodeIsThirdByte(m);
    KeyLength(m, w);
    if n < 3 || m.errorCode != 0x21 {
      assert n >= 3 ==> data[2] == w[2];
      ShortReadNoticed(m, n, r);
    } else {
      KeyBytes(m);
      assert data[0..2] == [API_KEY_RESPONSE, 0];
      FrameOf33();
      if n >= 35 {
        var rest := data[2..];
        CutSlice(w, n);
        KeyResult(rest, r);
      }
    }
  }

  lemma CutSlice<T>(w: seq<T>, n: nat)
    requires 7 <= n <= |w|
    ensures w[..n][2..][3..5] == w[5..7]
  {
    assert w[..n][2..][3..5] == w[..n][5..7];
  }

  lemma FrameOf33()
    ensures FromLE([API_KEY_RESPONSE, 0]) == 33
  {
    var s: seq<byte> := [API_KEY_RESPONSE, 0];
    assert s[1..] == [0];
    assert FromLE([0]) == 0 + 256 * FromLE([]);
    assert FromLE(s) == s[0] + 256 * FromLE(s[1..]);
  }

  lemma FirstBytes<T>(h: seq<T>, c: seq<T>, n: seq<T>, key: seq<T>, e: seq<T>)
    requires |h| == 2 && |c| == 1 && |n| == 2
    ensures var w := h + (c + (n + key) + e);
            && |w| == 5 + |key| + |e| && w[0] == h[0] && w[1] == h[1] && w[2] == c[0] && w[3] == n[0]
            && w[3..5] == n && (|key| >= 2 ==> w[5..7] == key[..2])
  {
    var w := h + (c + (n + key) + e);
    assert w[5..5 + |key|] == key;
    assert |key| >= 2 ==> w[5..7] == w[5..5 + |key|][..2];
  }

  /** The bytes of an unframed success reply, by position. */
  lemma KeyBytes(m: Reply)
    requires m.APIKeyResponse? && Fits(m)
    ensures |Wire(m)| == 13 + |m.apiKey|
    ensures Wire(m)[0] == API_KEY_RESPONSE && Wire(m)[1] == 0 && Wire(m)[2] == m.errorCode
    ensures Wire(m)[3] == |m.apiKey| % 256
    ensures |m.apiKey| >= 2 ==> Wire(m)[5..7] == m.apiKey[..2]
  {
    CodeIsThirdByte(m);
    KeyFields(m.errorCode, m.apiKey, m.expiresAt);
    FirstBytes([API_KEY_RESPONSE, 0], LE(m.errorCode, 1), LE(|m.apiKey|, 2), m.apiKey, LE(m.expiresAt, 8));
  }

  /** So all strict prefixes of a success reply are noticed exactly under this condition on it. */
  lemma AllShortReadsNoticed(m: Reply)
    requires m.APIKeyResponse? && Fits(m)
    ensures (forall n: nat, r :: n < |Wire(m)| && CorrectAPIKey(Wire(m)[..n], r) ==> r == Malformed) <==>
              m.errorCode != 0x21 || |m.apiKey| <= 22 || (|m.apiKey| % 256 == 0 && |m.apiKey| < 3 + Head(m.apiKey))
  {
    KeyBytes(m);
    forall n: nat, r | n < |Wire(m)| && CorrectAPIKey(Wire(m)[..n], r)
      ensures r == Malformed <==> m.errorCode != 0x21 || n < 35 || (|m.apiKey| % 256 == 0 && n < 15 + Head(m.apiKey))
    {
      UnframedShortReadExactly(m, n, r);
    }
    if m.errorCode == 0x21 && |m.apiKey| > 22 {
      var n: nat := |Wire(m)| - 1;
      var r := SomeResult(Wire(m)[..n]);
    }
  }

  /** The parsers' contract can always be met. */
  lemma SomeResult(data: seq<byte>) returns (r: Parsed)
    ensures CorrectAPIKey(data, r)
  {
    if !LooksFramed(data) {
      r := SomeUnframed(data);
    } else if |data| < FromLE(data[0..2]) + 2 {
      r := Malformed;
    } else {
      r := SomeUnframed(data[2..]);
    }
  }

  lemma SomeUnframed(data: seq<byte>) returns (r: Parsed)
    ensures Correct(API_KEY_RESPONSE, data, r)
  {
    if Rejects(API_KEY_RESPONSE, data) {
      r := Parsed(Rejection(API_KEY_RESPONSE, data));
    } else if HoldsKey(data) {
      r := Parsed(KeyAt(data));
      KeyAtCorrect(data);
    } else {
      r := Malformed;
      if Succeeds(API_KEY_RESPONSE, data) {
        SuccessHoldsKey(data);
      }
    }
  }

  lemma SuccessHoldsKey(data: seq<byte>)
    requires Succeeds(API_KEY_RESPONSE, data)
    ensures HoldsKey(data)
  {
    var fs: seq<Field> :| Kinds(fs) == KindsOf(API_KEY_RESPONSE) && AllFit(fs) && Prefix(EncAll(fs), data[2..]);
    assert fs[0].Kind() == Kinds(fs)[0] && fs[1].Kind() == Kinds(fs)[1] && fs[2].Kind() == Kinds(fs)[2];
    var m := APIKeyResponse(fs[0].v, fs[1].bytes, fs[2].v);
    assert Fields(m) == fs;
    PrefixParts(Header(API_KEY_RESPONSE), EncAll(fs), data);
    KeyLength(m, data);
  }

  /** What is not noticed is taken for a rejection, if the key's length does not end in a zero byte. */
  lemma TruncatedKeyRejected(m: Reply, n: nat, r: Parsed)
    requires m.APIKeyResponse? && Fits(m) && m.errorCode == 0x21 && |m.apiKey| % 256 != 0
    requires 35 <= n < |Wire(m)| && CorrectAPIKey(Wire(m)[..n], r)
    ensures r == Parsed(Rejected(API_KEY_RESPONSE, |m.apiKey| % 256, Wire(m)[4], 0))
  {
    KeyBytes(m);
    var data := Wire(m)[..n];
    assert data[0..2] == [API_KEY_RESPONSE, 0];
    FrameOf33();
    var rest := data[2..];
    assert Rejects(API_KEY_RESPONSE, rest);
    CorrectIsUnique(API_KEY_RESPONSE, rest, r, Parsed(Rejection(API_KEY_RESPONSE, rest)));
  }

  /** The input that shows it: 40 of the 53 bytes of a success reply with code 0x21 and a key of 40
      zero bytes are taken for a rejection. */
  lemma TruncatedKeyExample(r: Parsed)
    ensures var m := APIKeyResponse(0x21, seq(40, _ => 0), 0);
            |Wire(m)| == 53 && (CorrectAPIKey(Wire(m)[..40], r) ==> r.Parsed? && r.reply.Rejected?)
  {
    var m := APIKeyResponse(0x21, seq(40, _ => 0), 0);
    assert Pow256(1) == 256;
    KeyBytes(m);
    if CorrectAPIKey(Wire(m)[..40], r) {
      TruncatedKeyRejected(m, 40, r);
    }
  }
}
