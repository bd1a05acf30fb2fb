/** The requests a drone sends: their packets, the serializers that build them byte by byte, and
    why no two requests share a packet. */
module AuthRequests {
  import opened AuthWire

  const MAX_MODEL: nat := 32

  datatype Request =
    | AuthInit(uuid: seq<byte>)
    | AuthResponse(uuid: seq<byte>, hmac: seq<byte>, timestamp: nat, ip: seq<byte>)
    | SessionNew(uuid: seq<byte>, oldToken: seq<byte>)
    | SessionRefresh(token: seq<byte>, uuid: seq<byte>)
    | APIKeyRequest(uuid: seq<byte>, token: seq<byte>, hours: nat)
    | APIKeyRevoke(uuid: seq<byte>, token: seq<byte>)
    | APIKeyStatus(uuid: seq<byte>, token: seq<byte>)
    | APIKeyDelete(uuid: seq<byte>, token: seq<byte>)
    | RegisterInit(uuid: seq<byte>, vehicleType: nat, model: seq<byte>)
    | RegisterResponse(uuid: seq<byte>, hmac: seq<byte>, timestamp: nat)
    | VPNProvision(uuid: seq<byte>, token: seq<byte>, wgKey: seq<byte>)

  function TypeOf(r: Request): byte {
    match r
    case AuthInit(_) => 0x01
    case AuthResponse(_, _, _, _) => 0x03
    case SessionNew(_, _) => 0x10
    case SessionRefresh(_, _) => 0x12
    case APIKeyRequest(_, _, _) => 0x20
    case APIKeyRevoke(_, _) => 0x22
    case APIKeyStatus(_, _) => 0x24
    case APIKeyDelete(_, _) => 0x26
    case RegisterInit(_, _, _) => 0xA0
    case RegisterResponse(_, _, _) => 0xA2
    case VPNProvision(_, _, _) => 0xB0
  }

  function Cut(model: seq<byte>): seq<byte> {
    if |model| > MAX_MODEL then model[..MAX_MODEL] else model
  }

  /** The vehicle trailer of REGISTER_INIT is sent only when it says something. */
  predicate HasTrailer(vehicleType: nat, model: seq<byte>) {
    vehicleType != 0 || |Cut(model)| > 0
  }

  function Fields(r: Request): seq<Field> {
    match r
    case AuthInit(u) => [Blob(u)]
    case AuthResponse(u, h, t, ip) => [Blob(u), Blob(h), Num(8, t), Blob(ip)]
    case SessionNew(u, t) => [Blob(u), Blob(t)]
    case SessionRefresh(t, u) => [Blob(t), Blob(u)]
    case APIKeyRequest(u, t, hours) => [Blob(u), Blob(t), Num(2, hours)]
    case APIKeyRevoke(u, t) => [Blob(u), Blob(t)]
    case APIKeyStatus(u, t) => [Blob(u), Blob(t)]
    case APIKeyDelete(u, t) => [Blob(u), Blob(t)]
    case RegisterInit(u, v, m) => if HasTrailer(v, m) then [Blob(u), Num(1, v), Short(Cut(m))] else [Blob(u)]
    case RegisterResponse(u, h, t) => [Blob(u), Blob(h), Num(8, t)]
    case VPNProvision(u, t, k) => [Blob(u), Blob(t), Blob(k)]
  }

  function Packet(r: Request): seq<byte> {
    [TypeOf(r)] + EncAll(Fields(r))
  }

  /** Strings under 64 KiB and numbers within their widths. */
  ghost predicate Fits(r: Request) {
    AllFit(Fields(r))
  }

  /** What of a request the packet carries: a model is carried up to 32 bytes. */
  function Carried(r: Request): Request {
    if r.RegisterInit? then r.(model := Cut(r.model)) else r
  }

  // ---- Serializers ----

  /** `packet` is the type byte and the fields `done` so far. */
  ghost predicate Building(packet: seq<byte>, t: byte, done: seq<Field>) {
    packet == [t] + EncAll(done)
  }

  lemma BuildOne(packet: seq<byte>, t: byte, done: seq<Field>, f: Field)
    requires Building(packet, t, done)
    ensures Building(packet + Enc(f), t, done + [f])
  {
    EncAllAppend(done, [f]);
    assert EncAll([f]) == Enc(f);
    Assoc([t], EncAll(done), Enc(f));
  }

  /** The two-byte length and the bytes; `uint16` drops what a longer length does not hold. */
  method AppendString(packet: seq<byte>, s: seq<byte>, ghost t: byte, ghost done: seq<Field>)
    returns (r: seq<byte>, ghost now: seq<Field>)
    requires Building(packet, t, done)
    ensures Building(r, t, now) && now == done + [Blob(s)] && r == packet + Str(s)
  {
    WireString(s);
    r := packet;
    r := r + LE(|s|, 2);
    r := r + s;
    Assoc(packet, LE(|s|, 2), s);
    BuildOne(packet, t, done, Blob(s));
    now := done + [Blob(s)];
  }

  method AppendUint(packet: seq<byte>, v: nat, width: nat, ghost t: byte, ghost done: seq<Field>)
    returns (r: seq<byte>, ghost now: seq<Field>)
    requires Building(packet, t, done)
    ensures Building(r, t, now) && now == done + [Num(width, v)] && r == packet + LE(v, width)
  {
    r := packet + LE(v, width);
    BuildOne(packet, t, done, Num(width, v));
    now := done + [Num(width, v)];
  }

  method SerializeAuthInit(uuid: seq<byte>) returns (packet: seq<byte>)
    ensures packet == Packet(AuthInit(uuid))
    ensures packet == [0x01] + Str(uuid)
  {
    packet := [0x01];
    ghost var done := [];
    packet, done := AppendString(packet, uuid, 0x01, done);
    assert done == Fields(AuthInit(uuid));
  }

  method SerializeAuthResponse(uuid: seq<byte>, hmac: seq<byte>, timestamp: nat, ip: seq<byte>) returns (packet: seq<byte>)
    ensures packet == Packet(AuthResponse(uuid, hmac, timestamp, ip))
    ensures packet == [0x03] + Str(uuid) + Str(hmac) + U64(timestamp) + Str(ip)
  {
    WireNumbers(timestamp);
    packet := [0x03];
    ghost var done := [];
    packet, done := AppendString(packet, uuid, 0x03, done);
    packet, done := AppendString(packet, hmac, 0x03, done);
    packet, done := AppendUint(packet, timestamp, 8, 0x03, done);
    packet, done := AppendString(packet, ip, 0x03, done);
    assert done == Fields(AuthResponse(uuid, hmac, timestamp, ip));
  }

  method SerializeSessionRequest(uuid: seq<byte>, oldToken: seq<byte>) returns (packet: seq<byte>)
    ensures packet == Packet(SessionNew(uuid, oldToken))
    ensures packet == [0x10] + Str(uuid) + Str(oldToken)
  {
    packet := [0x10];
    ghost var done := [];
    packet, done := AppendString(packet, uuid, 0x10, done);
    packet, done := AppendString(packet, oldToken, 0x10, done);
    assert done == Fields(SessionNew(uuid, oldToken));
  }

  method SerializeSessionRefresh(token: seq<byte>, uuid: seq<byte>) returns (packet: seq<byte>)
    ensures packet == Packet(SessionRefresh(token, uuid))
    ensures packet == [0x12] + Str(token) + Str(uuid)
  {
    packet := [0x12];
    ghost var done := [];
    packet, done := AppendString(packet, token, 0x12, done);
    packet, done := AppendString(packet, uuid, 0x12, done);
    assert done == Fields(SessionRefresh(token, uuid));
  }

  method SerializeAPIKeyRequest(uuid: seq<byte>, token: seq<byte>, hours: nat) returns (packet: seq<byte>)
    ensures packet == Packet(APIKeyRequest(uuid, token, hours))
    ensures packet == [0x20] + Str(uuid) + Str(token) + U16(hours)
  {
    WireNumbers(hours);
    packet := [0x20];
    ghost var done := [];
    packet, done := AppendString(packet, uuid, 0x20, done);
    packet, done := AppendString(packet, token, 0x20, done);
    packet, done := AppendUint(packet, hours, 2, 0x20, done);
    assert done == Fields(APIKeyRequest(uuid, token, hours));
  }

  method SerializeAPIKeyRevoke(uuid: seq<byte>, token: seq<byte>) returns (packet: seq<byte>)
    ensures packet == Packet(APIKeyRevoke(uuid, token))
    ensures packet == [0x22] + Str(uuid) + Str(token)
  {
    packet := [0x22];
    ghost var done := [];
    packet, done := AppendString(packet, uuid, 0x22, done);
    packet, done := AppendString(packet, token, 0x22, done);
    assert done == Fields(APIKeyRevoke(uuid, token));
  }

  method SerializeAPIKeyStatus(uuid: seq<byte>, token: seq<byte>) returns (packet: seq<byte>)
    ensures packet == Packet(APIKeyStatus(uuid, token))
    ensures packet == [0x24] + Str(uuid) + Str(token)
  {
    packet := [0x24];
    ghost var done := [];
    packet, done := AppendString(packet, uuid, 0x24, done);
    packet, done := AppendString(packet, token, 0x24, done);
    assert done == Fields(APIKeyStatus(uuid, token));
  }

  method SerializeAPIKeyDelete(uuid: seq<byte>, token: seq<byte>) returns (packet: seq<byte>)
    ensures packet == Packet(APIKeyDelete(uuid, token))
    ensures packet == [0x26] + Str(uuid) + Str(token)
  {
    packet := [0x26];
    ghost var done := [];
    packet, done := AppendString(packet, uuid, 0x26, done);
    packet, done := AppendString(packet, token, 0x26, done);
    assert done == Fields(APIKeyDelete(uuid, token));
  }

  /** The vehicle trailer: type, one-byte length and model. */
  method AppendTrailer(packet: seq<byte>, vehicleType: nat, model: seq<byte>, ghost t: byte, ghost done: seq<Field>)
    returns (r: seq<byte>, ghost now: seq<Field>)
    requires Building(packet, t, done) && |model| <= MAX_MODEL
    ensures Building(r, t, now) && now == done + [Num(1, vehicleType)] + [Short(model)]
    ensures r == packet + [vehicleType % 256] + [|model|] + model
  {
    WireNumbers(vehicleType);
    WireNumbers(|model|);
    r, now := AppendUint(packet, vehicleType, 1, t, done);
    BuildOne(r, t, now, Short(model));
    Assoc(r, LE(|model|, 1), model);
    r := r + LE(|model|, 1);
    r := r + model;
    now := now + [Short(model)];
  }

  method SerializeRegisterInit(uuid: seq<byte>, vehicleType: nat, fullModel: seq<byte>) returns (packet: seq<byte>)
    ensures packet == Packet(RegisterInit(uuid, vehicleType, fullModel))
    ensures var model := if |fullModel| > 32 then fullModel[..32] else fullModel;
            packet == if vehicleType == 0 && |model| == 0 then [0xA0] + Str(uuid)
                      else [0xA0] + Str(uuid) + [vehicleType % 256] + [|model|] + model
  {
    var model := fullModel;
    if |model| > MAX_MODEL {
      model := model[..MAX_MODEL];
    }
    packet := [0xA0];
    ghost var done := [];
    packet, done := AppendString(packet, uuid, 0xA0, done);
    if vehicleType != 0 || |model| > 0 {
      packet, done := AppendTrailer(packet, vehicleType, model, 0xA0, done);
    }
    assert done == Fields(RegisterInit(uuid, vehicleType, fullModel));
  }

  method SerializeRegisterResponse(uuid: seq<byte>, hmac: seq<byte>, timestamp: nat) returns (packet: seq<byte>)
    ensures packet == Packet(RegisterResponse(uuid, hmac, timestamp))
    ensures packet == [0xA2] + Str(uuid) + Str(hmac) + U64(timestamp)
  {
    WireNumbers(timestamp);
    packet := [0xA2];
    ghost var done := [];
    packet, done := AppendString(packet, uuid, 0xA2, done);
    packet, done := AppendString(packet, hmac, 0xA2, done);
    packet, done := AppendUint(packet, timestamp, 8, 0xA2, done);
    assert done == Fields(RegisterResponse(uuid, hmac, timestamp));
  }

  method SerializeVPNProvisionRequest(uuid: seq<byte>, token: seq<byte>, wgKey: seq<byte>) returns (packet: seq<byte>)
    ensures packet == Packet(VPNProvision(uuid, token, wgKey))
    ensures packet == [0xB0] + Str(uuid) + Str(token) + Str(wgKey)
  {
    packet := [0xB0];
    ghost var done := [];
    packet, done := AppendString(packet, uuid, 0xB0, done);
    packet, done := AppendString(packet, token, 0xB0, done);
    packet, done := AppendString(packet, wgKey, 0xB0, done);
    assert done == Fields(VPNProvision(uuid, token, wgKey));
  }

  // ---- No two requests share a packet ----

  /** Requests of one type have fields of the same kinds, except REGISTER_INIT with and without trailer. */
  lemma SameTypeSameKinds(a: Request, b: Request)
    requires TypeOf(a) == TypeOf(b)
    ensures a.RegisterInit? <==> b.RegisterInit?
    ensures a.RegisterInit? || Kinds(Fields(a)) == Kinds(Fields(b))
    ensures a.RegisterInit? && HasTrailer(a.vehicleType, a.model) == HasTrailer(b.vehicleType, b.model) ==>
              Kinds(Fields(a)) == Kinds(Fields(b))
  {
  }

  lemma SameFieldsSameRequest(a: Request, b: Request)
    requires TypeOf(a) == TypeOf(b) && Fields(a) == Fields(b)
    ensures Carried(a) == Carried(b)
  {
    SameTypeSameKinds(a, b);
    var fs, gs := Fields(a), Fields(b);
    assert |fs| == |gs| && forall i :: 0 <= i < |fs| ==> fs[i] == gs[i];
  }

  /** A packet with the vehicle trailer is never one without. */
  lemma TrailerIsSeen(a: Request, b: Request)
    requires a.RegisterInit? && b.RegisterInit? && Fits(a) && Fits(b)
    requires HasTrailer(a.vehicleType, a.model) && !HasTrailer(b.vehicleType, b.model)
    ensures EncAll(Fields(a)) != EncAll(Fields(b))
  {
    var u, v, m := Blob(a.uuid), Num(1, a.vehicleType), Short(Cut(a.model));
    assert EncAll(Fields(a)) == Enc(u) + EncAll([v, m]) by { assert [u, v, m][1..] == [v, m]; }
    assert EncAll(Fields(b)) == Enc(Blob(b.uuid)) + [];
    assert |EncAll([v, m])| >= |Enc(v)| == 1;
    if EncAll(Fields(a)) == EncAll(Fields(b)) {
      assert Fields(a)[0].Fits() && Fields(b)[0].Fits();
      FieldUnambiguous(u, Blob(b.uuid), EncAll([v, m]), []);
    }
  }

  /** Equal packets of fitting requests, of any types, carry the same request. */
  lemma PacketsUnambiguous(a: Request, b: Request)
    requires Fits(a) && Fits(b) && Packet(a) == Packet(b)
    ensures Carried(a) == Carried(b)
  {
    SplitEqual([TypeOf(a)], EncAll(Fields(a)), [TypeOf(b)], EncAll(Fields(b)));
    assert TypeOf(a) == [TypeOf(a)][0] == [TypeOf(b)][0] == TypeOf(b);
    SameTypeSameKinds(a, b);
    if a.RegisterInit? && HasTrailer(a.vehicleType, a.model) != HasTrailer(b.vehicleType, b.model) {
      if HasTrailer(a.vehicleType, a.model) {
        TrailerIsSeen(a, b);
      } else {
        TrailerIsSeen(b, a);
      }
    }
    assert EncAll(Fields(a)) + [] == EncAll(Fields(b)) + [];
    ListUnambiguous(Fields(a), Fields(b), [], []);
    SameFieldsSameRequest(a, b);
  }

  /** Strings shorter than `limit`, numbers within their widths; a model is cut to fit. */
  ghost predicate Under(r: Request, limit: int) {
    forall i :: 0 <= i < |Fields(r)| ==> FieldUnder(Fields(r)[i], limit)
  }

  predicate FieldUnder(f: Field, limit: int) {
    match f
    case Num(width, v) => v < Pow256(width)
    case Blob(b) => |b| < limit
    case Short(b) => true
  }

  lemma UnderFits(r: Request, limit: int)
    requires Under(r, limit) && limit <= 0x10000
    ensures Fits(r)
  {
    forall i | 0 <= i < |Fields(r)|
      ensures Fields(r)[i].Fits()
    {
      assert FieldUnder(Fields(r)[i], limit);
    }
  }

  /** At 64 KiB the length wraps round: two different SESSION_NEW requests share a packet. */
  lemma LongFieldsCollide(z: seq<byte>)
    requires |z| == 0x10000 && forall i :: 0 <= i < |z| ==> z[i] == 0
    ensures Packet(SessionNew(z, [])) == Packet(SessionNew([], z))
  {
    Wrapped(z);
    EncTwo(Blob(z), Blob([]));
    EncTwo(Blob([]), Blob(z));
  }

  /** Two requests with strings under this limit share a packet. */
  ghost predicate Collide(a: Request, b: Request, limit: int) {
    Under(a, limit) && Under(b, limit) && Packet(a) == Packet(b) && Carried(a) != Carried(b)
  }

  /** No two requests with strings under a limit share a packet exactly when it is at most 64 KiB. */
  lemma UnambiguousExactly(limit: int)
    ensures (forall a, b :: !Collide(a, b, limit)) <==> limit <= 0x10000
  {
    if limit <= 0x10000 {
      forall a, b
        ensures !Collide(a, b, limit)
      {
        if Collide(a, b, limit) {
          UnderFits(a, limit);
          UnderFits(b, limit);
          PacketsUnambiguous(a, b);
        }
      }
    } else {
      var z: seq<byte> := seq(0x10000, _ => 0);
      var a, b := SessionNew(z, []), SessionNew([], z);
      LongFieldsCollide(z);
      assert Under(a, limit) && Under(b, limit);
      assert |a.uuid| != |b.uuid|;
      assert Collide(a, b, limit);
    }
  }

  lemma ZeroLengths()
    ensures LE(0x10000, 2) == [0, 0] && LE(0, 2) == [0, 0]
  {
    assert LE(0, 1) == [0] + LE(0, 0);
    assert LE(0x100, 1) == [0] + LE(1, 0);
    assert LE(0, 2) == [0] + LE(0, 1);
    assert LE(0x10000, 2) == [0] + LE(0x100, 1);
  }

  lemma SameElement<T>(z: seq<T>, x: T)
    requires forall i :: 0 <= i < |z| ==> z[i] == x
    ensures [x, x] + z == z + [x, x]
  {
  }

  lemma Wrapped(z: seq<byte>)
    requires |z| == 0x10000 && forall i :: 0 <= i < |z| ==> z[i] == 0
    ensures Enc(Blob(z)) + Enc(Blob([])) == Enc(Blob([])) + Enc(Blob(z))
  {
    ZeroLengths();
    SameElement(z, 0);
    WrapsRound([0, 0], z);
  }

  lemma WrapsRound<T>(n: seq<T>, z: seq<T>)
    requires n + z == z + n
    ensures n + z + (n + []) == n + [] + (n + z)
  {
    assert n + [] == n;
    assert n + z + n == n + (z + n);
  }
}
