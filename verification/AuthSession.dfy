/** The session client: refresh, classified failure, at most one recovery handshake, backoff. The
    network and the clock are arbitrary: whatever they do is an undetermined choice in the code. */
module AuthSession {
  import opened Options
  import opened AuthWire
  import opened AuthReplies

  const SECOND: int := 1_000_000_000

  const ERR_RATE_LIMITED: nat := 0x03
  const ERR_INTERNAL: nat := 0x05
  const ERR_SESSION_EXPIRED: nat := 0x06
  const ERR_INVALID_TOKEN: nat := 0x07

  datatype Cause = NoCause | NetworkError | SessionInvalid | AuthFailed | ServerTransient

  /** The handshake logs this many bytes of the token it was given. */
  const LOGGED_TOKEN_BYTES: nat := 20

  /** A connection may be missing, usable, or closed under us. */
  datatype Conn = NoConn | OpenConn | ClosedConn

  datatype RefreshResult = RefreshOk | Skipped | RefreshFailed(code: nat)

  /** What happened to the session, in order: a verified ack, a disconnect, the start of a full
      handshake, and a recovery attempt that ended without an ack. */
  datatype Event =
    | Ack(at: int)
    | Down(cause: Cause)
    | Handshake(at: int)
    | FailedRecovery(begun: int, ended: int)

  datatype Msg = InitMsg | ResponseMsg | RefreshMsg

  /** What was done on the network, and how it went; a reply that did not come is malformed. */
  datatype Act = Dial(ok: bool) | Sent(msg: Msg, ok: bool) | Got(reply: Parsed)

  /** The stages of a session's upkeep: a new connection for recovery, a refresh, a handshake. */
  datatype Stage = Dialled(ok: bool) | Refreshed(r: RefreshResult) | Shook(ok: bool)

  ghost predicate IsChallenge(p: Parsed) {
    p.Parsed? && p.reply.AuthChallenge?
  }

  /** A handshake on a connection: the init, the challenge, the response to it, the ack. The first
      of them that fails is the last act. */
  ghost predicate HandshakeOn(acts: seq<Act>) {
    && 1 <= |acts| <= 4
    && acts[0] == Sent(InitMsg, |acts| > 1)
    && (|acts| > 1 ==> acts[1].Got? && (IsChallenge(acts[1].reply) <==> |acts| > 2))
    && (|acts| > 2 ==> acts[2] == Sent(ResponseMsg, |acts| > 3))
    && (|acts| > 3 ==> acts[3].Got?)
  }

  /** The same where a missing connection is dialled first. */
  ghost predicate HandshakeActs(acts: seq<Act>, connected: bool) {
    if connected then HandshakeOn(acts)
    else acts != [] && acts[0] == Dial(|acts| > 1) && (|acts| > 1 ==> HandshakeOn(acts[1..]))
  }

  /** The ack that answers the response at the end of the acts, if it carries a token. */
  ghost function AckOf(acts: seq<Act>): Option<Reply> {
    if |acts| < 2 || acts[|acts| - 2] != Sent(ResponseMsg, true) || !acts[|acts| - 1].Got? then None
    else
      match acts[|acts| - 1].reply
      case Parsed(m) => if m.AuthAck? && m.token != [] then Some(m) else None
      case Malformed => None
  }

  /** What was added in two steps. */
  lemma Spliced<T>(before: seq<T>, mid: seq<T>, after: seq<T>)
    requires before <= mid <= after
    ensures before <= after && after[|before|..] == mid[|before|..] + after[|mid|..]
  {
  }

  lemma AckOfLonger(first: Act, acts: seq<Act>)
    requires HandshakeOn(acts)
    ensures AckOf([first] + acts) == AckOf(acts)
  {
    var all := [first] + acts;
    assert all[|all| - 1] == acts[|acts| - 1];
    if |acts| >= 2 {
      assert all[|all| - 2] == acts[|acts| - 2];
    }
  }

  ghost predicate RefreshOn(acts: seq<Act>) {
    1 <= |acts| <= 2 && acts[0] == Sent(RefreshMsg, |acts| > 1) && (|acts| > 1 ==> acts[1].Got?)
  }

  ghost predicate RefreshActs(acts: seq<Act>, connected: bool) {
    if connected then RefreshOn(acts)
    else acts != [] && acts[0] == Dial(|acts| > 1) && (|acts| > 1 ==> RefreshOn(acts[1..]))
  }

  /** What the server's word on a refresh comes to: an ack, its error code, or 0 for no answer. */
  ghost function RefreshOf(acts: seq<Act>): RefreshResult {
    if acts == [] || !acts[|acts| - 1].Got? then RefreshFailed(0)
    else
      match acts[|acts| - 1].reply
      case Parsed(m) => if m.Rejected? then RefreshFailed(m.code) else if m.SessionRefreshAck? then RefreshOk else RefreshFailed(0)
      case Malformed => RefreshFailed(0)
  }

  /** Recovery after a network error. Without a token that lasts it is a handshake. Otherwise a new
      connection, failing which a handshake; on it a refresh; and a handshake if that is refused
      because the session (0x06) or the token (0x07) is not known. */
  ghost predicate NetworkRecovery(stages: seq<Stage>, recovered: bool) {
    || stages == [Shook(recovered)]
    || stages == [Dialled(false), Shook(recovered)]
    || (stages == [Dialled(true), Refreshed(RefreshOk)] && recovered)
    || stages == [Dialled(true), Refreshed(RefreshFailed(0x06)), Shook(recovered)]
    || stages == [Dialled(true), Refreshed(RefreshFailed(0x07)), Shook(recovered)]
    || (|stages| == 2 && stages[0] == Dialled(true) && stages[1].Refreshed? && !recovered
        && stages[1].r !in {RefreshOk, RefreshFailed(0x06), RefreshFailed(0x07)})
  }

  ghost function Refreshes(stages: seq<Stage>): nat {
    if stages == [] then 0 else Refreshes(stages[..|stages| - 1]) + if stages[|stages| - 1].Refreshed? then 1 else 0
  }

  lemma {:induction false} RefreshesGrow(before: seq<Stage>, after: seq<Stage>)
    ensures Refreshes(before + after) == Refreshes(before) + Refreshes(after)
  {
    if after == [] {
      assert before + after == before;
    } else {
      assert (before + after)[..|before + after| - 1] == before + after[..|after| - 1];
      RefreshesGrow(before, after[..|after| - 1]);
    }
  }

  lemma FirstIsRefresh(stages: seq<Stage>)
    requires stages != [] && stages[0].Refreshed?
    ensures Refreshes(stages) >= 1
  {
    RefreshesGrow([stages[0]], stages[1..]);
    assert stages == [stages[0]] + stages[1..];
    assert [stages[0]][..0] == [];
    assert Refreshes([stages[0]]) == Refreshes([]) + 1;
  }

  /** The cause an error code stands for. */
  function CauseOf(code: nat): Cause {
    if code in {0x03, 0x05} then ServerTransient else if code in {0x06, 0x07} then SessionInvalid else NetworkError
  }

  datatype Status = Unknown | Acked(at: int) | Downed(cause: Cause)

  ghost function StatusAfter(log: seq<Event>): Status {
    if log == [] then Unknown
    else
      match log[|log| - 1]
      case Ack(at) => Acked(at)
      case Down(cause) => Downed(cause)
      case _ => StatusAfter(log[..|log| - 1])
  }

  ghost predicate EverAcked(log: seq<Event>) {
    log != [] && (log[|log| - 1].Ack? || EverAcked(log[..|log| - 1]))
  }

  /** When the last failed recovery ended, if no ack came since. */
  ghost function LastFailure(log: seq<Event>): Option<int> {
    if log == [] then None
    else
      match log[|log| - 1]
      case Ack(_) => None
      case FailedRecovery(_, ended) => Some(ended)
      case _ => LastFailure(log[..|log| - 1])
  }

  ghost function Handshakes(log: seq<Event>): nat {
    if log == [] then 0
    else Handshakes(log[..|log| - 1]) + if log[|log| - 1].Handshake? then 1 else 0
  }

  /** Once connected, a failed recovery begins at least `interval` after the previous one ended,
      unless an ack came between. */
  ghost predicate Spaced(log: seq<Event>, interval: int) {
    log == [] ||
    var before, e := log[..|log| - 1], log[|log| - 1];
    Spaced(before, interval) && (e.FailedRecovery? ==> e.begun <= e.ended) &&
    (e.FailedRecovery? && EverAcked(before) && LastFailure(before).Some? ==>
       e.begun >= LastFailure(before).value + interval)
  }

  lemma Appended(log: seq<Event>, e: Event, interval: int)
    ensures StatusAfter(log + [e]) == if e.Ack? then Acked(e.at) else if e.Down? then Downed(e.cause) else StatusAfter(log)
    ensures EverAcked(log + [e]) <==> e.Ack? || EverAcked(log)
    ensures LastFailure(log + [e]) == if e.Ack? then None else if e.FailedRecovery? then Some(e.ended) else LastFailure(log)
    ensures Handshakes(log + [e]) == Handshakes(log) + if e.Handshake? then 1 else 0
    ensures Spaced(log + [e], interval) <==>
              Spaced(log, interval) && (e.FailedRecovery? ==> e.begun <= e.ended) &&
              (e.FailedRecovery? && EverAcked(log) && LastFailure(log).Some? ==> e.begun >= LastFailure(log).value + interval)
  {
    assert (log + [e])[..|log|] == log;
  }

  /** So any two failed recoveries with no ack between them, once connected, are that far apart. */
  lemma {:induction false} SpacedPairwise(log: seq<Event>, interval: int, a: nat, i: nat, j: nat)
    requires interval >= 0 && Spaced(log, interval) && a < i < j < |log|
    requires log[a].Ack? && log[i].FailedRecovery? && log[j].FailedRecovery?
    requires forall k :: i < k < j ==> !log[k].Ack?
    ensures log[j].begun >= log[i].ended + interval
  {
    var n := |log| - 1;
    if j < n {
      SpacedPairwise(log[..n], interval, a, i, j);
    } else {
      AckSeen(log[..n], a);
      var m := LastFailureAt(log[..n], i);
      if m != i {
        SpacedPairwise(log[..n], interval, a, i, m);
        SpacedOrdered(log[..n], interval, m);
      }
    }
  }

  lemma {:induction false} AckSeen(log: seq<Event>, a: nat)
    requires a < |log| && log[a].Ack?
    ensures EverAcked(log)
  {
    if a < |log| - 1 {
      AckSeen(log[..|log| - 1], a);
    }
  }

  lemma {:induction false} LastFailureAt(log: seq<Event>, i: nat) returns (m: nat)
    requires i < |log| && log[i].FailedRecovery? && forall k :: i < k < |log| ==> !log[k].Ack?
    ensures i <= m < |log| && log[m].FailedRecovery? && LastFailure(log) == Some(log[m].ended)
  {
    m := |log| - 1;
    if !log[m].FailedRecovery? {
      m := LastFailureAt(log[..m], i);
    }
  }

  lemma {:induction false} SpacedOrdered(log: seq<Event>, interval: int, m: nat)
    requires Spaced(log, interval) && m < |log| && log[m].FailedRecovery?
    ensures log[m].begun <= log[m].ended
  {
    if m < |log| - 1 {
      SpacedOrdered(log[..|log| - 1], interval, m);
    }
  }

  /** Some granted token is shorter than what is logged of it. */
  ghost predicate TooShort(granted: seq<nat>) {
    exists i :: 0 <= i < |granted| && granted[i] < LOGGED_TOKEN_BYTES
  }

  lemma StaysShort(before: seq<nat>, after: seq<nat>)
    requires before <= after
    ensures TooShort(before) ==> TooShort(after)
  {
    if TooShort(before) {
      var i :| 0 <= i < |before| && before[i] < LOGGED_TOKEN_BYTES;
      assert after[i] == before[i];
    }
  }

  lemma TooShortGrows(granted: seq<nat>, n: nat)
    ensures TooShort(granted + [n]) <==> TooShort(granted) || n < LOGGED_TOKEN_BYTES
  {
    var all := granted + [n];
    assert all[|granted|] == n;
    forall i | 0 <= i < |granted|
      ensures all[i] == granted[i]
    {
    }
  }

  /** The input that stops the process: a well-formed AUTH_ACK with a token of one byte. */
  lemma ShortTokenParses(r: Parsed)
    requires Correct(AUTH_ACK, Wire(AuthAck([7], 0, 0)), r)
    ensures r == Parsed(AuthAck([7], 0, 0)) && TooShort([|r.reply.token|])
  {
    var m := AuthAck([7], 0, 0);
    assert Pow256(8) > 0 && Pow256(2) > 0;
    assert Wire(m) + [] == Wire(m);
    RoundTrip(m, [], r);
    assert [|r.reply.token|][0] == 1;
  }

  class Client {
    const reconnectInterval: int
    const ipChangeThreshold: int
    const forceFreshConn: bool

    var clock: int
    var secretLoaded: bool
    var sessionToken: seq<byte>
    var expiresAt: int
    var refreshInterval: int
    var conn: Conn
    var running: bool
    var nextReconnectAt: Option<int>
    var serverReachable: bool
    var everConnected: bool
    var disconnectCause: Cause
    var lastRefreshOK: Option<int>
    var previousLocalIP: string
    var lastIPChangeTime: Option<int>
    var crashed: bool            // the process has stopped on a slice out of range
    ghost var Log: seq<Event>
    ghost var Granted: seq<nat>  // lengths of the tokens that handshakes were acknowledged with
    ghost var Net: seq<Act>
    ghost var Path: seq<Stage>

    /** What every run keeps: the flags tell what the log tells, a reconnect deadline covers the last
        failure, and the process is down exactly if some token was too short to log. */
    ghost predicate Valid()
      reads this
    {
      && reconnectInterval > 0 && ipChangeThreshold == 10 * SECOND
      && (serverReachable <==> StatusAfter(Log).Acked?)
      && (serverReachable ==> disconnectCause == NoCause && everConnected && nextReconnectAt == None
                              && lastRefreshOK == Some(StatusAfter(Log).at))
      && (StatusAfter(Log).Downed? ==> disconnectCause == StatusAfter(Log).cause)
      && (everConnected <==> EverAcked(Log))
      && (everConnected && LastFailure(Log).Some? ==>
            nextReconnectAt.Some? && nextReconnectAt.value >= LastFailure(Log).value + reconnectInterval)
      && Spaced(Log, reconnectInterval)
      && (crashed <==> TooShort(Granted))
    }

    constructor (reconnectSeconds: int, forceFreshConn: bool, clock: int)
      ensures Valid() && !serverReachable && !everConnected && !crashed && Log == [] && Granted == [] && Net == [] && Path == []
      ensures reconnectInterval == (if reconnectSeconds <= 0 then 300 else reconnectSeconds) * 1_000_000_000
    {
      this.reconnectInterval := (if reconnectSeconds <= 0 then 300 else reconnectSeconds) * SECOND;
      this.ipChangeThreshold := 10 * SECOND;
      this.forceFreshConn := forceFreshConn;
      this.clock := clock;
      secretLoaded, sessionToken, expiresAt, refreshInterval := false, [], 0, 0;
      conn, running, nextReconnectAt := NoConn, false, None;
      serverReachable, everConnected, disconnectCause, lastRefreshOK := false, false, NoCause, None;
      previousLocalIP, lastIPChangeTime := "", None;
      crashed := false;
      Log, Granted, Net, Path := [], [], [], [];
    }

    /** Reading the clock: time does not go back. */
    method Now() returns (t: int)
      modifies this`clock
      ensures t == clock >= old(clock)
    {
      var passed: int := *;
      if passed > 0 {
        clock := clock + passed;
      }
      t := clock;
    }

    method MarkConnected()
      requires Valid()
      modifies this`clock, this`serverReachable, this`everConnected, this`disconnectCause, this`nextReconnectAt, this`lastRefreshOK, this`Log
      ensures Valid() && serverReachable && clock >= old(clock) && Log == old(Log) + [Ack(clock)]
      ensures lastRefreshOK == Some(clock) && Handshakes(Log) == Handshakes(old(Log))
    {
      var now := Now();
      serverReachable := true;
      everConnected := true;
      disconnectCause := NoCause;
      nextReconnectAt := None;
      lastRefreshOK := Some(now);
      Appended(Log, Ack(now), reconnectInterval);
      Log := Log + [Ack(now)];
    }

    method MarkDisconnected(cause: Cause)
      requires Valid()
      modifies this`serverReachable, this`disconnectCause, this`Log
      ensures Valid() && !serverReachable && disconnectCause == cause && Log == old(Log) + [Down(cause)]
      ensures LastFailure(Log) == LastFailure(old(Log)) && Handshakes(Log) == Handshakes(old(Log))
    {
      serverReachable := false;
      disconnectCause := cause;
      Appended(Log, Down(cause), reconnectInterval);
      Log := Log + [Down(cause)];
    }

    method ReconnectBackoffActive() returns (active: bool, now: int)
      modifies this`clock
      ensures now == clock >= old(clock)
      ensures active <==> everConnected && nextReconnectAt.Some? && now < nextReconnectAt.value
    {
      now := Now();
      active := everConnected && nextReconnectAt.Some? && now < nextReconnectAt.value;
    }

    /** A recovery begun at `begun` has failed; before the first connection there is no backoff. */
    method ScheduleReconnectBackoff(begun: int)
      requires Valid() && !serverReachable && begun <= clock
      requires everConnected && LastFailure(Log).Some? ==> begun >= LastFailure(Log).value + reconnectInterval
      modifies this`clock, this`nextReconnectAt, this`Log
      ensures Valid() && clock >= old(clock) && Log == old(Log) + [FailedRecovery(begun, clock)]
      ensures Handshakes(Log) == Handshakes(old(Log))
      ensures everConnected ==> nextReconnectAt == Some(clock + reconnectInterval)
      ensures !everConnected ==> nextReconnectAt == old(nextReconnectAt)
    {
      var now := Now();
      if everConnected {
        nextReconnectAt := Some(now + reconnectInterval);
      }
      Appended(Log, FailedRecovery(begun, now), reconnectInterval);
      Log := Log + [FailedRecovery(begun, now)];
    }

    /** True exactly when the last word from the server is an ack no older than two refresh
        intervals (a minute if none was given), and the token has not expired. */
    method IsAuthenticated() returns (r: bool)
      requires Valid()
      modifies this`clock
      ensures Valid() && clock >= old(clock)
      ensures r <==> && StatusAfter(Log).Acked?
                     && clock - StatusAfter(Log).at <= (if refreshInterval == 0 then 60 * SECOND else 2 * refreshInterval)
                     && sessionToken != [] && clock < expiresAt
    {
      var now := Now();
      if !serverReachable {
        return false;
      }
      if sessionToken == [] || !(now < expiresAt) {
        return false;
      }
      var staleAfter := refreshInterval * 2;
      if staleAfter == 0 {
        staleAfter := 60 * SECOND;
      }
      if lastRefreshOK.Some? && now - lastRefreshOK.value > staleAfter {
        return false;
      }
      r := true;
    }

    method DialTCP() returns (ok: bool, ip: string)
      modifies this`Net
      ensures Net == old(Net) + [Dial(ok)]
    {
      ok, ip := *, *;
      Net := Net + [Dial(ok)];
    }

    /** A write on a connection that is not open fails. */
    method SendMsg(msg: Msg) returns (ok: bool)
      modifies this`Net
      ensures Net == old(Net) + [Sent(msg, ok)] && (ok ==> conn == OpenConn)
    {
      var lucky: bool := *;
      ok := lucky && conn == OpenConn;
      Net := Net + [Sent(msg, ok)];
    }

    /** Whatever the server sends, or nothing. */
    method Receive() returns (r: Parsed)
      modifies this`Net
      ensures Net == old(Net) + [Got(r)] && (r.Parsed? ==> conn == OpenConn)
    {
      r := *;
      if conn != OpenConn {
        r := Malformed;
      }
      Net := Net + [Got(r)];
    }

    method ResetConn()
      modifies this`conn
      ensures conn == NoConn
    {
      if conn != NoConn {
        conn := NoConn;
      }
    }

    /** The connection a handshake uses: the one there is, unless a fresh one is asked for. */
    method EnsureConn() returns (ok: bool)
      modifies this`conn, this`previousLocalIP, this`Net
      ensures ok <==> conn != NoConn
      ensures old(conn) != NoConn && !forceFreshConn ==> ok
      ensures Net == old(Net) + if old(conn) != NoConn && !forceFreshConn then [] else [Dial(ok)]
    {
      ok := true;
      if conn != NoConn && forceFreshConn {
        ResetConn();
      }
      if conn == NoConn {
        var ip;
        ok, ip := DialTCP();
        if ok {
          conn, previousLocalIP := OpenConn, ip;
        }
      }
    }

    /** The messages of a handshake. A failure drops the connection, except that an ack without a
        token leaves it. */
    method Converse() returns (ack: Option<Reply>)
      requires conn != NoConn
      modifies this`conn, this`Net
      ensures old(Net) <= Net && HandshakeOn(Net[|old(Net)|..]) && ack == AckOf(Net[|old(Net)|..])
      ensures var last := Net[|Net| - 1];
              conn == if |Net| == |old(Net)| + 4 && last.Got? && last.reply.Parsed? && last.reply.reply.AuthAck? then OpenConn else NoConn
    {
      ghost var before := Net;
      var sent := SendMsg(InitMsg);
      if !sent {
        ResetConn();
        assert Net[|before|..] == [Sent(InitMsg, false)];
        return None;
      }
      var challenge := Receive();
      assert Net[|before|..] == [Sent(InitMsg, true), Got(challenge)];
      if !(challenge.Parsed? && challenge.reply.AuthChallenge?) {
        ResetConn();
        return None;
      }
      sent := SendMsg(ResponseMsg);
      assert Net[|before|..] == [Sent(InitMsg, true), Got(challenge), Sent(ResponseMsg, sent)];
      if !sent {
        ResetConn();
        return None;
      }
      var reply := Receive();
      assert Net[|before|..] == [Sent(InitMsg, true), Got(challenge), Sent(ResponseMsg, true), Got(reply)];
      if !(reply.Parsed? && reply.reply.AuthAck?) {
        ResetConn();
        return None;
      }
      if reply.reply.token == [] {
        return None;
      }
      ack := Some(reply.reply);
    }

    /** A handshake up to the server's ack, if it carries a token. */
    method Shake() returns (ack: Option<Reply>)
      modifies this`secretLoaded, this`conn, this`previousLocalIP, this`Net
      ensures old(secretLoaded) ==> secretLoaded
      ensures old(Net) <= Net && ack == AckOf(Net[|old(Net)|..])
      ensures if secretLoaded then HandshakeActs(Net[|old(Net)|..], old(conn) != NoConn && !forceFreshConn) else Net == old(Net)
      ensures ack.Some? ==> conn == OpenConn
    {
      if !secretLoaded {
        secretLoaded := *;
        if !secretLoaded {
          return None;
        }
      }
      ghost var before := Net;
      ghost var had := conn != NoConn && !forceFreshConn;
      var ok := EnsureConn();
      ghost var mid := Net;
      if !ok {
        assert Net[|before|..] == [Dial(false)];
        return None;
      }
      ack := Converse();
      Spliced(before, mid, Net);
      if had {
        assert Net[|before|..] == Net[|mid|..];
      } else {
        assert Net[|before|..] == [Dial(true)] + Net[|mid|..];
        AckOfLonger(Dial(true), Net[|mid|..]);
      }
    }

    /** The full handshake. It either fails, leaving the session's standing as it was, or ends in an
        ack with a token, which is the session then. A token too short to log stops the process,
        after the ack is recorded. */
    method Authenticate() returns (ok: bool)
      requires Valid() && !crashed
      modifies this`clock, this`secretLoaded, this`sessionToken, this`expiresAt, this`refreshInterval, this`conn, this`previousLocalIP,
               this`serverReachable, this`everConnected, this`disconnectCause, this`nextReconnectAt, this`lastRefreshOK, this`crashed,
               this`Log, this`Granted, this`Net, this`Path
      ensures Valid() && clock >= old(clock)
      ensures Handshakes(Log) == Handshakes(old(Log)) + 1
      ensures ok ==> && serverReachable && sessionToken != [] && conn == OpenConn
                     && Granted == old(Granted) + [|sessionToken|] && (crashed <==> |sessionToken| < 20)
      ensures !ok ==> && serverReachable == old(serverReachable) && everConnected == old(everConnected)
                      && disconnectCause == old(disconnectCause) && nextReconnectAt == old(nextReconnectAt)
                      && lastRefreshOK == old(lastRefreshOK) && LastFailure(Log) == LastFailure(old(Log))
                      && sessionToken == old(sessionToken) && Granted == old(Granted) && !crashed
      ensures old(Log) <= Log && old(Granted) <= Granted
      ensures old(Net) <= Net && Path == old(Path) + [Shook(ok)]
      ensures if secretLoaded then HandshakeActs(Net[|old(Net)|..], old(conn) != NoConn && !forceFreshConn) else Net == old(Net)
      ensures var ack := AckOf(Net[|old(Net)|..]);
              && (ok <==> ack.Some?)
              && (ok ==> && sessionToken == ack.value.token && expiresAt == ack.value.expiresAt * SECOND
                         && refreshInterval == ack.value.interval * SECOND)
    {
      var ack := Negotiate();
      if ack.None? {
        return false;
      }
      Establish(ack.value);
      ok := true;
    }

    /** The handshake as far as the network goes. */
    method Negotiate() returns (ack: Option<Reply>)
      requires Valid()
      modifies this`secretLoaded, this`conn, this`previousLocalIP, this`Log, this`Net, this`Path
      ensures Valid() && Handshakes(Log) == Handshakes(old(Log)) + 1 && LastFailure(Log) == LastFailure(old(Log)) && old(Log) <= Log
      ensures ack.Some? ==> conn == OpenConn && ack.value.AuthAck? && ack.value.token != []
      ensures old(Net) <= Net && Path == old(Path) + [Shook(ack.Some?)] && ack == AckOf(Net[|old(Net)|..])
      ensures if secretLoaded then HandshakeActs(Net[|old(Net)|..], old(conn) != NoConn && !forceFreshConn) else Net == old(Net)
    {
      BeginHandshake();
      ack := Shake();
      Path := Path + [Shook(ack.Some?)];
    }

    /** The session an ack brings is stored, marked connected and logged. */
    method Establish(ack: Reply)
      requires Valid() && !crashed && ack.AuthAck?
      modifies this`clock, this`sessionToken, this`expiresAt, this`refreshInterval,
               this`serverReachable, this`everConnected, this`disconnectCause, this`nextReconnectAt, this`lastRefreshOK, this`crashed,
               this`Log, this`Granted
      ensures Valid() && clock >= old(clock) && serverReachable && Log == old(Log) + [Ack(clock)]
      ensures sessionToken == ack.token && expiresAt == ack.expiresAt * SECOND && refreshInterval == ack.interval * SECOND
      ensures Handshakes(Log) == Handshakes(old(Log))
      ensures Granted == old(Granted) + [|sessionToken|] && (crashed <==> |sessionToken| < LOGGED_TOKEN_BYTES)
    {
      sessionToken := ack.token;
      expiresAt := ack.expiresAt * SECOND;
      refreshInterval := ack.interval * SECOND;
      MarkConnected();
      LogToken();
    }

    /** The log line at the end of the handshake slices the token. */
    method LogToken()
      requires Valid() && !crashed
      modifies this`crashed, this`Granted
      ensures Valid() && Granted == old(Granted) + [|sessionToken|] && (crashed <==> |sessionToken| < LOGGED_TOKEN_BYTES)
    {
      TooShortGrows(Granted, |sessionToken|);
      if |sessionToken| < LOGGED_TOKEN_BYTES {
        crashed := true;
      }
      Granted := Granted + [|sessionToken|];
    }

    ghost method BeginHandshake()
      requires Valid()
      modifies this`Log
      ensures Valid() && Handshakes(Log) == Handshakes(old(Log)) + 1 && LastFailure(Log) == LastFailure(old(Log))
      ensures old(Log) <= Log
    {
      Appended(Log, Handshake(clock), reconnectInterval);
      Log := Log + [Handshake(clock)];
    }

    method ReconnectTCP() returns (ok: bool)
      modifies this`clock, this`conn, this`previousLocalIP, this`lastIPChangeTime, this`Net
      ensures clock >= old(clock) && (ok ==> conn == OpenConn) && (!ok ==> conn == if old(conn) == NoConn then NoConn else ClosedConn)
      ensures Net == old(Net) + [Dial(ok)]
      ensures !ok ==> previousLocalIP == old(previousLocalIP)
      ensures lastIPChangeTime ==
                if old(previousLocalIP) != "" && previousLocalIP != old(previousLocalIP) then Some(clock) else old(lastIPChangeTime)
    {
      if conn != NoConn {
        conn := ClosedConn;
      }
      var ip;
      ok, ip := DialTCP();
      if !ok {
        return;
      }
      conn := OpenConn;
      if previousLocalIP != "" && previousLocalIP != ip {
        var now := Now();
        lastIPChangeTime := Some(now);
      }
      previousLocalIP := ip;
    }

    /** A refresh is skipped within ten seconds of a change of address and fails without a token;
        otherwise its result is the server's word on it. Only an acknowledged refresh changes the
        session's standing. */
    method SendRefresh() returns (r: RefreshResult)
      requires Valid()
      modifies this`clock, this`conn, this`previousLocalIP, this`lastIPChangeTime, this`expiresAt,
               this`serverReachable, this`everConnected, this`disconnectCause, this`nextReconnectAt, this`lastRefreshOK, this`Log,
               this`Net, this`Path
      ensures Valid() && clock >= old(clock)
      ensures r.RefreshOk? ==> serverReachable && old(sessionToken) != [] && Log == old(Log) + [Ack(clock)]
      ensures Handshakes(Log) == Handshakes(old(Log))
      ensures !r.RefreshOk? ==> && serverReachable == old(serverReachable) && everConnected == old(everConnected)
                                && disconnectCause == old(disconnectCause) && nextReconnectAt == old(nextReconnectAt)
                                && Log == old(Log) && expiresAt == old(expiresAt)
      ensures old(Net) <= Net && Path == old(Path) + [Refreshed(r)]
      ensures if r.Skipped? then Net == old(Net) && old(lastIPChangeTime).Some? && clock - old(lastIPChangeTime).value < 10 * SECOND
              else old(lastIPChangeTime).Some? ==> clock - old(lastIPChangeTime).value >= 10 * SECOND
      ensures !r.Skipped? && sessionToken == [] ==> Net == old(Net) && r == RefreshFailed(0x07)
      ensures !r.Skipped? && sessionToken != [] ==>
                RefreshActs(Net[|old(Net)|..], old(conn) != NoConn) && r == RefreshOf(Net[|old(Net)|..])
      ensures r.RefreshOk? ==> |Net| > 0 && Net[|Net| - 1].Got? && Net[|Net| - 1].reply.Parsed? && Net[|Net| - 1].reply.reply.SessionRefreshAck?
                               && expiresAt == Net[|Net| - 1].reply.reply.expiresAt * SECOND
    {
      r := TryRefresh();
      Path := Path + [Refreshed(r)];
    }

    method TryRefresh() returns (r: RefreshResult)
      requires Valid()
      modifies this`clock, this`conn, this`previousLocalIP, this`lastIPChangeTime, this`expiresAt,
               this`serverReachable, this`everConnected, this`disconnectCause, this`nextReconnectAt, this`lastRefreshOK, this`Log, this`Net
      ensures Valid() && clock >= old(clock)
      ensures r.RefreshOk? ==> serverReachable && old(sessionToken) != [] && Log == old(Log) + [Ack(clock)]
      ensures Handshakes(Log) == Handshakes(old(Log))
      ensures !r.RefreshOk? ==> && serverReachable == old(serverReachable) && everConnected == old(everConnected)
                                && disconnectCause == old(disconnectCause) && nextReconnectAt == old(nextReconnectAt)
                                && Log == old(Log) && expiresAt == old(expiresAt)
      ensures old(Net) <= Net
      ensures if r.Skipped? then Net == old(Net) && old(lastIPChangeTime).Some? && clock - old(lastIPChangeTime).value < 10 * SECOND
              else old(lastIPChangeTime).Some? ==> clock - old(lastIPChangeTime).value >= 10 * SECOND
      ensures !r.Skipped? && sessionToken == [] ==> Net == old(Net) && r == RefreshFailed(0x07)
      ensures !r.Skipped? && sessionToken != [] ==>
                RefreshActs(Net[|old(Net)|..], old(conn) != NoConn) && r == RefreshOf(Net[|old(Net)|..])
      ensures r.RefreshOk? ==> |Net| > 0 && Net[|Net| - 1].Got? && Net[|Net| - 1].reply.Parsed? && Net[|Net| - 1].reply.reply.SessionRefreshAck?
                               && expiresAt == Net[|Net| - 1].reply.reply.expiresAt * SECOND
    {
      var now := Now();
      if lastIPChangeTime.Some? && now - lastIPChangeTime.value < ipChangeThreshold {
        return Skipped;
      }
      if sessionToken == [] {
        return RefreshFailed(ERR_INVALID_TOKEN);
      }
      r := RefreshNow();
    }

    method RefreshNow() returns (r: RefreshResult)
      requires Valid()
      modifies this`clock, this`conn, this`previousLocalIP, this`lastIPChangeTime, this`expiresAt,
               this`serverReachable, this`everConnected, this`disconnectCause, this`nextReconnectAt, this`lastRefreshOK, this`Log, this`Net
      ensures Valid() && clock >= old(clock) && !r.Skipped?
      ensures r.RefreshOk? ==> serverReachable && Log == old(Log) + [Ack(clock)]
      ensures Handshakes(Log) == Handshakes(old(Log))
      ensures !r.RefreshOk? ==> && serverReachable == old(serverReachable) && everConnected == old(everConnected)
                                && disconnectCause == old(disconnectCause) && nextReconnectAt == old(nextReconnectAt)
                                && Log == old(Log) && expiresAt == old(expiresAt)
      ensures old(Net) <= Net && RefreshActs(Net[|old(Net)|..], old(conn) != NoConn) && r == RefreshOf(Net[|old(Net)|..])
      ensures r.RefreshOk? ==> |Net| > 0 && Net[|Net| - 1].Got? && Net[|Net| - 1].reply.Parsed? && Net[|Net| - 1].reply.reply.SessionRefreshAck?
                               && expiresAt == Net[|Net| - 1].reply.reply.expiresAt * SECOND
    {
      var reply := RequestRefresh();
      r := Conclude(reply);
    }

    /** What a refresh comes to by the reply. */
    method Conclude(reply: Parsed) returns (r: RefreshResult)
      requires Valid()
      modifies this`clock, this`expiresAt, this`serverReachable, this`everConnected, this`disconnectCause, this`nextReconnectAt,
               this`lastRefreshOK, this`Log
      ensures Valid() && clock >= old(clock)
      ensures r == RefreshOf([Got(reply)])
      ensures Handshakes(Log) == Handshakes(old(Log))
      ensures r.RefreshOk? ==> serverReachable && Log == old(Log) + [Ack(clock)] && expiresAt == reply.reply.expiresAt * SECOND
      ensures !r.RefreshOk? ==> && serverReachable == old(serverReachable) && everConnected == old(everConnected)
                                && disconnectCause == old(disconnectCause) && nextReconnectAt == old(nextReconnectAt)
                                && Log == old(Log) && expiresAt == old(expiresAt)
    {
      if reply.Parsed? && reply.reply.Rejected? {
        return RefreshFailed(reply.reply.code);
      }
      if !(reply.Parsed? && reply.reply.SessionRefreshAck?) {
        return RefreshFailed(0);
      }
      expiresAt := reply.reply.expiresAt * SECOND;
      MarkConnected();
      r := RefreshOk;
    }

    /** The reply to a refresh, malformed if the connection fails on the way; a missing connection is
        dialled again. */
    method RequestRefresh() returns (reply: Parsed)
      modifies this`clock, this`conn, this`previousLocalIP, this`lastIPChangeTime, this`Net
      ensures clock >= old(clock) && (reply.Parsed? ==> conn == OpenConn)
      ensures old(Net) <= Net && RefreshActs(Net[|old(Net)|..], old(conn) != NoConn)
      ensures reply.Parsed? ==> Net[|Net| - 1] == Got(reply)
      ensures RefreshOf(Net[|old(Net)|..]) == RefreshOf([Got(reply)])
    {
      ghost var before := Net;
      reply := Malformed;
      if conn == NoConn {
        var redialled := ReconnectTCP();
        if !redialled {
          assert Net[|before|..] == [Dial(false)];
          return;
        }
      }
      ghost var mid := Net;
      reply := AskRefresh();
      Spliced(before, mid, Net);
      if old(conn) == NoConn {
        assert Net[|before|..] == [Dial(true)] + Net[|mid|..];
        assert Net[|before|..][1..] == Net[|mid|..];
      } else {
        assert Net[|before|..] == Net[|mid|..];
      }
    }

    method AskRefresh() returns (reply: Parsed)
      modifies this`Net
      ensures reply.Parsed? ==> conn == OpenConn
      ensures old(Net) <= Net && RefreshOn(Net[|old(Net)|..])
      ensures reply.Parsed? ==> Net[|Net| - 1] == Got(reply)
      ensures RefreshOf(Net[|old(Net)|..]) == RefreshOf([Got(reply)])
    {
      ghost var before := Net;
      reply := Malformed;
      var sent := SendMsg(RefreshMsg);
      assert Net[|before|..] == [Sent(RefreshMsg, sent)];
      if sent {
        reply := Receive();
        assert Net[|before|..] == [Sent(RefreshMsg, true), Got(reply)];
      }
    }

    /** How a failed refresh is classified; a skipped one is not a failure. */
    static function Classify(r: RefreshResult): Cause {
      match r
      case RefreshFailed(code) =>
        if code == ERR_INVALID_TOKEN || code == ERR_SESSION_EXPIRED then SessionInvalid
        else if code == ERR_INTERNAL || code == ERR_RATE_LIMITED then ServerTransient
        else NetworkError
      case _ => NoCause
    }

    /** One handshake, and the verdict on it if it fails. */
    method Reauthenticate() returns (recovered: bool)
      requires Valid() && !serverReachable && !crashed
      modifies this
      ensures Valid() && clock >= old(clock) && running == old(running)
      ensures Handshakes(Log) == Handshakes(old(Log)) + 1
      ensures recovered <==> serverReachable
      ensures !recovered ==> && !crashed && disconnectCause == AuthFailed && everConnected == old(everConnected)
                             && nextReconnectAt == old(nextReconnectAt) && LastFailure(Log) == LastFailure(old(Log))
      ensures old(Log) <= Log && old(Granted) <= Granted && Path == old(Path) + [Shook(recovered)]
    {
      recovered := Authenticate();
      if !recovered {
        MarkDisconnected(AuthFailed);
      }
    }

    /** What recovery does by cause: a handshake for an invalid session; after a network error, a new
        connection and a refresh while the token lasts, with a handshake if either is refused. */
    method Recover(cause: Cause) returns (recovered: bool)
      requires Valid() && !serverReachable && !crashed && (cause == SessionInvalid || cause == NetworkError)
      modifies this
      ensures Valid() && clock >= old(clock) && running == old(running)
      ensures Handshakes(Log) <= Handshakes(old(Log)) + 1
      ensures cause == SessionInvalid ==> Handshakes(Log) == Handshakes(old(Log)) + 1
      ensures recovered <==> serverReachable
      ensures !recovered ==> && !crashed && everConnected == old(everConnected) && disconnectCause in {old(disconnectCause), AuthFailed}
                             && nextReconnectAt == old(nextReconnectAt) && LastFailure(Log) == LastFailure(old(Log))
      ensures old(Log) <= Log && old(Granted) <= Granted && old(Path) <= Path
      ensures cause == SessionInvalid ==> Path[|old(Path)|..] == [Shook(recovered)]
      ensures cause == NetworkError ==>
                && NetworkRecovery(Path[|old(Path)|..], recovered)
                && (Path[|old(Path)|].Dialled? ==> old(sessionToken) != [] && old(clock) < old(expiresAt))
                && (old(sessionToken) != [] && clock < old(expiresAt) ==> Path[|old(Path)|].Dialled?)
    {
      ghost var before := Path;
      if cause == SessionInvalid {
        recovered := Reauthenticate();
        assert Path[|before|..] == [Shook(recovered)];
      } else {
        recovered := RecoverNetwork();
      }
    }

    method RecoverNetwork() returns (recovered: bool)
      requires Valid() && !serverReachable && !crashed
      modifies this
      ensures Valid() && clock >= old(clock) && running == old(running)
      ensures Handshakes(Log) <= Handshakes(old(Log)) + 1
      ensures recovered <==> serverReachable
      ensures !recovered ==> && !crashed && everConnected == old(everConnected) && disconnectCause in {old(disconnectCause), AuthFailed}
                             && nextReconnectAt == old(nextReconnectAt) && LastFailure(Log) == LastFailure(old(Log))
      ensures old(Log) <= Log && old(Granted) <= Granted && old(Path) <= Path
      ensures NetworkRecovery(Path[|old(Path)|..], recovered)
      ensures Path[|old(Path)|].Dialled? ==> old(sessionToken) != [] && old(clock) < old(expiresAt)
      ensures old(sessionToken) != [] && clock < old(expiresAt) ==> Path[|old(Path)|].Dialled?
    {
      ghost var before := Path;
      if conn != NoConn {
        conn := NoConn;
      }
      var now := Now();
      if sessionToken != [] && now < expiresAt {
        recovered := Redial();
      } else {
        recovered := Reauthenticate();
        assert Path[|before|..] == [Shook(recovered)];
      }
    }

    /** A new connection and a refresh on it, with a handshake if either is refused. */
    method Redial() returns (recovered: bool)
      requires Valid() && !serverReachable && !crashed && conn == NoConn
      modifies this
      ensures Valid() && clock >= old(clock) && running == old(running)
      ensures Handshakes(Log) <= Handshakes(old(Log)) + 1
      ensures recovered <==> serverReachable
      ensures !recovered ==> && !crashed && everConnected == old(everConnected) && disconnectCause in {old(disconnectCause), AuthFailed}
                             && nextReconnectAt == old(nextReconnectAt) && LastFailure(Log) == LastFailure(old(Log))
      ensures old(Log) <= Log && old(Granted) <= Granted && old(Path) <= Path
      ensures NetworkRecovery(Path[|old(Path)|..], recovered) && Path[|old(Path)|].Dialled?
    {
      ghost var before := Path;
      var connected := ReconnectTCP();
      Path := Path + [Dialled(connected)];
      if connected {
        recovered := RefreshAnew(before);
      } else {
        recovered := Reauthenticate();
        assert Path[|before|..] == [Dialled(false), Shook(recovered)];
      }
    }

    method RefreshAnew(ghost before: seq<Stage>) returns (recovered: bool)
      requires Valid() && !serverReachable && !crashed && Path == before + [Dialled(true)]
      modifies this
      ensures Valid() && clock >= old(clock) && running == old(running)
      ensures Handshakes(Log) <= Handshakes(old(Log)) + 1
      ensures recovered <==> serverReachable
      ensures !recovered ==> && !crashed && everConnected == old(everConnected) && disconnectCause in {old(disconnectCause), AuthFailed}
                             && nextReconnectAt == old(nextReconnectAt) && LastFailure(Log) == LastFailure(old(Log))
      ensures old(Log) <= Log && old(Granted) <= Granted && old(Path) <= Path
      ensures NetworkRecovery(Path[|before|..], recovered) && Path[|before|].Dialled?
    {
      var result := SendRefresh();
      assert Path[|before|..] == [Dialled(true), Refreshed(result)];
      if result.RefreshOk? {
        return true;
      }
      if result.RefreshFailed? && (result.code == ERR_INVALID_TOKEN || result.code == ERR_SESSION_EXPIRED) {
        recovered := Reauthenticate();
        assert Path[|before|..] == [Dialled(true), Refreshed(result), Shook(recovered)];
        return;
      }
      recovered := false;
    }

    /** A skipped refresh changes nothing. By the server's code: rate limited (0x03) or an internal
        error (0x05) only marks the session down; an expired session (0x06) or an unknown token
        (0x07) marks it invalid, and anything else is a network error. Those two make one recovery
        attempt unless backoff is on, which ends in an ack or, once ever connected, in a reconnect
        deadline that lies ahead. */
    method HandleRefreshFailure(err: RefreshResult)
      requires Valid() && !crashed && !err.RefreshOk?
      modifies this
      ensures Valid() && clock >= old(clock) && running == old(running)
      ensures Handshakes(Log) <= Handshakes(old(Log)) + 1
      ensures old(everConnected) && old(nextReconnectAt).Some? && clock < old(nextReconnectAt).value ==>
                Handshakes(Log) == Handshakes(old(Log)) && Path == old(Path)
      ensures err.Skipped? ==> Log == old(Log) && nextReconnectAt == old(nextReconnectAt) && Path == old(Path)
      ensures err.RefreshFailed? && err.code in {0x03, 0x05} ==>
                Log == old(Log) + [Down(ServerTransient)] && nextReconnectAt == old(nextReconnectAt) && Path == old(Path)
      ensures err.RefreshFailed? && err.code in {0x06, 0x07} ==>
                && old(Log) + [Down(SessionInvalid)] <= Log
                && (Due(old(everConnected), old(nextReconnectAt), old(clock)) ==>
                      Handshakes(Log) == Handshakes(old(Log)) + 1 && Path == old(Path) + [Shook(serverReachable)])
      ensures err.RefreshFailed? && err.code !in {0x03, 0x05, 0x06, 0x07} ==>
                && old(Log) + [Down(NetworkError)] <= Log
                && (Due(old(everConnected), old(nextReconnectAt), old(clock)) ==>
                      && old(Path) < Path && NetworkRecovery(Path[|old(Path)|..], serverReachable)
                      && (Path[|old(Path)|].Dialled? ==> old(sessionToken) != [] && old(clock) < old(expiresAt))
                      && (old(sessionToken) != [] && clock < old(expiresAt) ==> Path[|old(Path)|].Dialled?))
      ensures err.RefreshFailed? && !serverReachable ==> disconnectCause == Classify(err) || disconnectCause == AuthFailed
      ensures err.RefreshFailed? && err.code !in {0x03, 0x05} ==>
                serverReachable || (old(everConnected) ==> nextReconnectAt.Some? && nextReconnectAt.value > clock)
      ensures old(Log) <= Log && old(Granted) <= Granted && old(Path) <= Path
    {
      if err.Skipped? {
        return;
      }
      var cause := Classify(err);
      MarkDisconnected(cause);
      if cause == ServerTransient {
        return;
      }
      TryRecovery(cause);
    }

    /** No reconnect deadline lies ahead. */
    static predicate Due(everConnected: bool, next: Option<int>, now: int) {
      everConnected && next.Some? ==> now >= next.value
    }

    /** One recovery attempt, unless backoff is on. */
    method TryRecovery(cause: Cause)
      requires Valid() && !serverReachable && !crashed && (cause == SessionInvalid || cause == NetworkError)
      modifies this
      ensures Valid() && clock >= old(clock) && running == old(running)
      ensures Handshakes(Log) <= Handshakes(old(Log)) + 1
      ensures old(everConnected) && old(nextReconnectAt).Some? && clock < old(nextReconnectAt).value ==>
                Handshakes(Log) == Handshakes(old(Log)) && Path == old(Path)
      ensures cause == SessionInvalid && Due(old(everConnected), old(nextReconnectAt), old(clock)) ==>
                Handshakes(Log) == Handshakes(old(Log)) + 1 && Path == old(Path) + [Shook(serverReachable)]
      ensures cause == NetworkError && Due(old(everConnected), old(nextReconnectAt), old(clock)) ==>
                && old(Path) < Path && NetworkRecovery(Path[|old(Path)|..], serverReachable)
                && (Path[|old(Path)|].Dialled? ==> old(sessionToken) != [] && old(clock) < old(expiresAt))
                && (old(sessionToken) != [] && clock < old(expiresAt) ==> Path[|old(Path)|].Dialled?)
      ensures !serverReachable ==> disconnectCause in {old(disconnectCause), AuthFailed}
      ensures serverReachable || (old(everConnected) ==> nextReconnectAt.Some? && nextReconnectAt.value > clock)
      ensures old(Log) <= Log && old(Granted) <= Granted && old(Path) <= Path
    {
      var active, begun := ReconnectBackoffActive();
      if active {
        return;
      }
      var recovered := Recover(cause);
      if !recovered {
        ScheduleReconnectBackoff(begun);
      }
    }

    /** One turn of the keepalive loop: while the client runs, a refresh, and what follows if it is
        not acknowledged. */
    method Tick()
      requires Valid()
      modifies this
      ensures Valid() && clock >= old(clock) && running == old(running)
      ensures old(Log) <= Log && old(Granted) <= Granted && old(Path) <= Path
      ensures !old(running) || old(crashed) ==> Log == old(Log) && Path == old(Path)
      ensures old(running) && !old(crashed) ==>
                && old(Path) < Path && Path[|old(Path)|].Refreshed?
                && match Path[|old(Path)|].r
                   case RefreshOk => Log == old(Log) + [Ack(clock)] && Path == old(Path) + [Refreshed(RefreshOk)]
                   case Skipped => Log == old(Log) && Path == old(Path) + [Refreshed(Skipped)]
                   case RefreshFailed(code) => old(Log) + [Down(CauseOf(code))] <= Log
    {
      if running && !crashed {
        ghost var before := Path;
        var result := SendRefresh();
        if !result.RefreshOk? {
          HandleRefreshFailure(result);
        }
        assert Path[|before|] == Refreshed(result);
      }
    }

    /** The keepalive loop for any number of turns: whatever the network does, the session's flags
        tell what the log tells, failed recoveries keep their distance, the process survives exactly
        if every token a handshake was granted has at least 20 bytes, and while it does every turn
        has made a refresh. */
    method KeepaliveLoop(turns: nat)
      requires Valid()
      modifies this
      ensures Valid() && Spaced(Log, reconnectInterval)
      ensures !crashed <==> forall i :: 0 <= i < |Granted| ==> Granted[i] >= 20
      ensures old(Log) <= Log && old(Granted) <= Granted && old(Path) <= Path
      ensures running == old(running) && (running && !crashed ==> Refreshes(Path) >= Refreshes(old(Path)) + turns + 1)
    {
      TickCounted();
      for i := 0 to turns
        invariant Valid() && old(Log) <= Log && old(Granted) <= Granted && old(Path) <= Path
        invariant running == old(running) && (running && !crashed ==> Refreshes(Path) >= Refreshes(old(Path)) + i + 1)
      {
        var _ := Now();
        TickCounted();
      }
    }

    method TickCounted()
      requires Valid()
      modifies this
      ensures Valid() && clock >= old(clock) && running == old(running)
      ensures old(Log) <= Log && old(Granted) <= Granted && old(Path) <= Path
      ensures running && !crashed ==> !old(crashed) && Refreshes(Path) >= Refreshes(old(Path)) + 1
    {
      ghost var before, granted := Path, Granted;
      Tick();
      if running && !crashed {
        StaysShort(granted, Granted);
        assert Path == before + Path[|before|..];
        RefreshesGrow(before, Path[|before|..]);
        FirstIsRefresh(Path[|before|..]);
      }
    }

    /** Start: a session from before is enough, otherwise a handshake; then the loop may run. */
    method Start() returns (ok: bool)
      requires Valid() && !crashed
      modifies this
      ensures Valid() && clock >= old(clock)
      ensures ok && !old(running) && old(sessionToken) == [] ==> serverReachable && everConnected
      ensures ok && !crashed ==> running
      ensures !ok ==> running == old(running)
      ensures old(Log) <= Log && old(Granted) <= Granted && old(Path) <= Path
      ensures Path == old(Path) || Path == old(Path) + [Shook(ok)]
      ensures Path == old(Path) <==> Log == old(Log)
      ensures old(running) || (old(sessionToken) != [] && clock < old(expiresAt)) ==> ok && Path == old(Path)
      ensures !old(running) && (old(sessionToken) == [] || old(clock) >= old(expiresAt)) ==> Path == old(Path) + [Shook(ok)]
    {
      if running {
        return true;
      }
      var now := Now();
      if !(sessionToken != [] && now < expiresAt) {
        ok := Authenticate();
        if !ok || crashed {
          return;
        }
      }
      running := true;
      ok := true;
    }
  }
}
