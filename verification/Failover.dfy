/** The network monitor: which uplink the data plane uses after a stretch of failing 4G probes,
    and how often the modem may be restarted. Times are wall-clock seconds. */
module Failover {
  import opened Options

  datatype Mode = Prefer4G | Only4G | OnlyWifi

  datatype Iface = Wwan0 | Wlan0

  datatype RouteReason =
    | WifiOnly | HoldWwan | ProbeOk | Waiting | WifiFallback | FallbackLocked | DownNoWifi

  const REINIT_TIMEOUT: real := 120.0
  const REINIT_RETRY_MIN: int := 5
  const FAIL_THRESHOLD: int := 1

  // ---- Probes and the fallback rule ----

  /** A 4G probe judged under the prefer-4G policy. */
  datatype Probe = Probe(at: real, ok: bool)

  ghost predicate Ordered(ps: seq<Probe>) {
    forall i, j :: 0 <= i < j < |ps| ==> ps[i].at <= ps[j].at
  }

  /** Every probe from the `k`-th on has failed. */
  ghost predicate FailingSince(ps: seq<Probe>, k: nat) {
    k < |ps| && forall j :: k <= j < |ps| ==> !ps[j].ok
  }

  /** 4G has failed every probe since one more than `delay` seconds before `now`. */
  ghost predicate DownLongerThan(ps: seq<Probe>, now: real, delay: real) {
    exists k: nat :: FailingSince(ps, k) && now - ps[k].at > delay
  }

  /** `since` is when the current stretch of failures began, zero outside one. */
  ghost predicate StretchBegan(ps: seq<Probe>, since: real) {
    if ps == [] || ps[|ps| - 1].ok then since == 0.0
    else since > 0.0 && exists k: nat :: FailingSince(ps, k) && ps[k].at == since && (k == 0 || ps[k - 1].ok)
  }

  lemma StretchGrows(ps: seq<Probe>, since: real, p: Probe)
    requires StretchBegan(ps, since) && p.at > 0.0
    ensures p.ok ==> StretchBegan(ps + [p], 0.0)
    ensures !p.ok ==> StretchBegan(ps + [p], if since == 0.0 then p.at else since)
  {
    var qs := ps + [p];
    if !p.ok {
      if since == 0.0 {
        assert FailingSince(qs, |ps|) && qs[|ps|] == p && (|ps| == 0 || qs[|ps| - 1].ok);
      } else {
        var k: nat :| FailingSince(ps, k) && ps[k].at == since && (k == 0 || ps[k - 1].ok);
        assert FailingSince(qs, k) && qs[k].at == since && (k == 0 || qs[k - 1].ok);
      }
    }
  }

  /** Being down longer than the delay is being down longer than it since the stretch began. */
  lemma StretchDecides(ps: seq<Probe>, since: real, now: real, delay: real)
    requires Ordered(ps) && StretchBegan(ps, since) && ps != [] && !ps[|ps| - 1].ok
    ensures DownLongerThan(ps, now, delay) <==> now - since > delay
  {
    var k: nat :| FailingSince(ps, k) && ps[k].at == since && (k == 0 || ps[k - 1].ok);
    var edge := if k == 0 then ps[0] else ps[k - 1];
    forall j: nat | FailingSince(ps, j)
      ensures ps[j].at >= since
    {
    }
  }

  /** One good probe restarts the delay: what counts is only the failures after it. */
  lemma GoodProbeRestarts(ps: seq<Probe>, g: nat, now: real, delay: real)
    requires Ordered(ps) && g < |ps| && ps[g].ok
    ensures DownLongerThan(ps, now, delay) ==>
              exists k: nat :: g < k && FailingSince(ps, k) && now - ps[k].at > delay
    ensures g + 1 < |ps| && now - ps[g + 1].at <= delay ==> !DownLongerThan(ps, now, delay)
  {
    forall k: nat | FailingSince(ps, k)
      ensures g < k
    {
    }
  }

  // ---- Restarts of the modem ----

  /** A restart and whether WiFi carried the uplink; the modem back with an address; a good probe. */
  datatype Event = Restart(at: real, onWifi: bool) | Recovered | Online

  function Pow2(n: nat): (r: int)
    ensures r >= 1
  {
    if n == 0 then 1 else 2 * Pow2(n - 1)
  }

  function Min(a: int, b: int): int { if a <= b then a else b }
  function Max(a: int, b: int): int { if a >= b then a else b }

  /** Minutes to wait before the next restart, after `c` restarts since things last worked. */
  function WaitMinutes(c: nat, onWifi: bool, minWifi: int, maxWifi: int): int {
    if onWifi then Min(minWifi * Pow2(c), Max(1, maxWifi)) else Min(REINIT_RETRY_MIN * Pow2(c), 60)
  }

  /** Off WiFi the wait starts at 5 minutes, doubles with each restart and is an hour after four or
      more. */
  lemma WaitDoubles(c: nat)
    ensures WaitMinutes(0, false, 0, 0) == 5
    ensures WaitMinutes(c + 1, false, 0, 0) == Min(2 * WaitMinutes(c, false, 0, 0), 60)
    ensures WaitMinutes(c, false, 0, 0) <= WaitMinutes(c + 1, false, 0, 0)
    ensures WaitMinutes(c, false, 0, 0) == 60 <==> c >= 4
  {
    PowerOfTwo(c);
  }

  lemma {:induction false} PowerOfTwo(c: nat)
    ensures Pow2(c) >= 16 <==> c >= 4
  {
    if c > 4 {
      PowerOfTwo(c - 1);
    } else {
      assert Pow2(4) == 16 && Pow2(3) == 8 && Pow2(2) == 4 && Pow2(1) == 2;
    }
  }

  /** On WiFi it starts at the configured minimum and doubles up to the configured cap, which is
      at least a minute; it does not shrink, unless the minimum is negative. */
  lemma WifiWaitDoubles(c: nat, minWifi: int, maxWifi: int)
    ensures var cap := Max(1, maxWifi);
            && WaitMinutes(0, true, minWifi, maxWifi) == Min(minWifi, cap)
            && WaitMinutes(c + 1, true, minWifi, maxWifi) == Min(2 * WaitMinutes(c, true, minWifi, maxWifi), cap)
            && WaitMinutes(c + 1, true, minWifi, maxWifi) <= cap
            && (minWifi >= 0 <==> WaitMinutes(c, true, minWifi, maxWifi) <= WaitMinutes(c + 1, true, minWifi, maxWifi))
  {
    var p := minWifi * Pow2(c);
    assert minWifi * Pow2(c + 1) == 2 * p;
    assert p >= 0 <==> minWifi >= 0;
  }

  ghost function RestartsSinceReset(log: seq<Event>): nat {
    if log == [] || !log[|log| - 1].Restart? then 0 else 1 + RestartsSinceReset(log[..|log| - 1])
  }

  ghost function LastRestart(log: seq<Event>): Option<real> {
    if log == [] then None
    else if log[|log| - 1].Restart? then Some(log[|log| - 1].at)
    else LastRestart(log[..|log| - 1])
  }

  /** The last restart, if the modem has not come back with an address since. */
  ghost function Unresolved(log: seq<Event>): Option<real> {
    if log == [] then None
    else
      match log[|log| - 1]
      case Restart(at, _) => Some(at)
      case Recovered => None
      case Online => Unresolved(log[..|log| - 1])
  }

  /** A restart keeps its distance from the one before: the exponential wait for the restarts since
      things last worked, and the recovery timeout if the one before is unresolved. */
  ghost predicate KeepsDistance(before: seq<Event>, at: real, onWifi: bool, minWifi: int, maxWifi: int) {
    && (LastRestart(before).Some? ==>
          at - LastRestart(before).value >= 60.0 * WaitMinutes(RestartsSinceReset(before), onWifi, minWifi, maxWifi) as real)
    && (Unresolved(before).Some? ==> at - Unresolved(before).value >= REINIT_TIMEOUT)
  }

  ghost predicate Throttled(log: seq<Event>, minWifi: int, maxWifi: int) {
    log == [] ||
    var before, e := log[..|log| - 1], log[|log| - 1];
    Throttled(before, minWifi, maxWifi) && (e.Restart? ==> KeepsDistance(before, e.at, e.onWifi, minWifi, maxWifi))
  }

  lemma Appended(log: seq<Event>, e: Event, minWifi: int, maxWifi: int)
    ensures RestartsSinceReset(log + [e]) == if e.Restart? then 1 + RestartsSinceReset(log) else 0
    ensures LastRestart(log + [e]) == if e.Restart? then Some(e.at) else LastRestart(log)
    ensures Unresolved(log + [e]) == if e.Restart? then Some(e.at) else if e.Recovered? then None else Unresolved(log)
    ensures Throttled(log + [e], minWifi, maxWifi) <==>
              Throttled(log, minWifi, maxWifi) && (e.Restart? ==> KeepsDistance(log, e.at, e.onWifi, minWifi, maxWifi))
  {
    assert (log + [e])[..|log|] == log;
  }

  /** The reason given under prefer-4G. */
  predicate RightReason(reason: RouteReason, wwanOk: bool, down: bool, wlanOk: bool, allowed: bool) {
    && (reason == ProbeOk <==> wwanOk)
    && (reason == Waiting <==> !wwanOk && !down)
    && (reason == WifiFallback <==> !wwanOk && down && wlanOk && allowed)
    && (reason == FallbackLocked <==> !wwanOk && down && wlanOk && !allowed)
    && (reason == DownNoWifi <==> !wwanOk && down && !wlanOk)
  }

  class NetworkMonitor {
    const minWifi: int
    const maxWifi: int

    var failures4G: nat
    var lastReinit: real
    var reinitCount: nat
    var reinitPending: bool
    var reinitPendingT: real
    var downSince: real
    ghost var Probes: seq<Probe>
    ghost var Log: seq<Event>
    ghost var LastSeen: real  // the latest clock reading

    ghost predicate Valid()
      reads this
    {
      && LastSeen >= 0.0
      && Ordered(Probes) && (forall i :: 0 <= i < |Probes| ==> Probes[i].at <= LastSeen)
      && StretchBegan(Probes, downSince)
      && reinitCount == RestartsSinceReset(Log)
      && (if LastRestart(Log).Some? then 0.0 < lastReinit == LastRestart(Log).value <= LastSeen else lastReinit == 0.0)
      && (reinitPending ==> Unresolved(Log) == Some(reinitPendingT))
      && (!reinitPending && Unresolved(Log).Some? ==> LastSeen >= Unresolved(Log).value + REINIT_TIMEOUT)
      && Throttled(Log, minWifi, maxWifi)
    }

    constructor (minWifi: int, maxWifi: int)
      ensures Valid() && Probes == [] && Log == [] && LastSeen == 0.0
      ensures this.minWifi == minWifi && this.maxWifi == maxWifi
    {
      this.minWifi, this.maxWifi := minWifi, maxWifi;
      failures4G, lastReinit, reinitCount := 0, 0.0, 0;
      reinitPending, reinitPendingT, downSince := false, 0.0, 0.0;
      Probes, Log, LastSeen := [], [], 0.0;
    }

    /** The interface for the data plane. Under prefer-4G it is WiFi exactly when every probe since
        one more than the delay ago has failed, WiFi is up and fallback is allowed. */
    method ResolveTarget(mode: Mode, wwanOk: bool, wlanOk: bool, force4G: bool, now: real, delay: nat, allowed: bool)
      returns (target: Iface, reason: RouteReason)
      requires Valid() && now > 0.0 && now >= LastSeen
      modifies this`downSince, this`Probes, this`LastSeen
      ensures Valid() && LastSeen == now
      ensures Probes == if mode == Prefer4G && !force4G then old(Probes) + [Probe(now, wwanOk)] else old(Probes)
      ensures mode == OnlyWifi ==> target == Wlan0 && reason == WifiOnly
      ensures mode != OnlyWifi && (force4G || mode == Only4G) ==> target == Wwan0 && reason == HoldWwan
      ensures mode == Prefer4G && !force4G ==> RightReason(reason, wwanOk, DownLongerThan(Probes, now, delay as real), wlanOk, allowed)
      ensures mode == Prefer4G && !force4G ==>
                (target == Wlan0 <==> DownLongerThan(Probes, now, delay as real) && wlanOk && allowed)
    {
      LastSeen := now;
      if mode == OnlyWifi {
        return Wlan0, WifiOnly;
      }
      if force4G || mode == Only4G {
        return Wwan0, HoldWwan;
      }
      target, reason := PreferTarget(wwanOk, wlanOk, now, delay, allowed);
    }

    method PreferTarget(wwanOk: bool, wlanOk: bool, now: real, delay: nat, allowed: bool) returns (target: Iface, reason: RouteReason)
      requires Valid() && 0.0 < now == LastSeen
      modifies this`downSince, this`Probes
      ensures Valid() && Probes == old(Probes) + [Probe(now, wwanOk)]
      ensures target == Wlan0 <==> DownLongerThan(Probes, now, delay as real) && wlanOk && allowed
      ensures RightReason(reason, wwanOk, DownLongerThan(Probes, now, delay as real), wlanOk, allowed)
    {
      StretchGrows(Probes, downSince, Probe(now, wwanOk));
      Probes := Probes + [Probe(now, wwanOk)];
      if wwanOk {
        downSince := 0.0;
        assert !DownLongerThan(Probes, now, delay as real);
        return Wwan0, ProbeOk;
      }
      if downSince == 0.0 {
        downSince := now;
      }
      var elapsed := now - downSince;
      StretchDecides(Probes, downSince, now, delay as real);
      if elapsed <= delay as real {
        target, reason := Wwan0, Waiting;
      } else if wlanOk && allowed {
        target, reason := Wlan0, WifiFallback;
      } else if wlanOk && !allowed {
        target, reason := Wwan0, FallbackLocked;
      } else {
        target, reason := Wwan0, DownNoWifi;
      }
    }

    /** A restart is outstanding: the modem is back, or given up on after the timeout. */
    method PollPending(now: real, hasAddress: bool) returns (recovered: bool)
      requires Valid() && reinitPending && now == LastSeen
      modifies this`reinitCount, this`reinitPending, this`Log
      ensures Valid() && (recovered <==> hasAddress)
      ensures Log == if recovered then old(Log) + [Recovered] else old(Log)
      ensures reinitPending <==> !hasAddress && now - reinitPendingT < REINIT_TIMEOUT
    {
      var waited := now - reinitPendingT;
      if hasAddress {
        reinitPending := false;
        reinitCount := 0;
        Appended(Log, Recovered, minWifi, maxWifi);
        Log := Log + [Recovered];
        return true;
      }
      if waited >= REINIT_TIMEOUT {
        reinitPending := false;
      }
      recovered := false;
    }

    method BaseWait(wlanOk: bool) returns (minutes: int)
      ensures minutes == WaitMinutes(reinitCount, wlanOk, minWifi, maxWifi)
    {
      if wlanOk {
        minutes := minWifi * Pow2(reinitCount);
        minutes := Min(minutes, Max(1, maxWifi));
      } else {
        minutes := REINIT_RETRY_MIN * Pow2(reinitCount);
        if minutes > 60 {
          minutes := 60;
        }
      }
    }

    /** The wait since the last restart is over. */
    method IsDue(wlanOk: bool, now: real) returns (due: bool)
      requires Valid() && !reinitPending && 0.0 < now == LastSeen
      ensures due <==> KeepsDistance(Log, now, wlanOk, minWifi, maxWifi)
    {
      var minutes := BaseWait(wlanOk);
      var elapsedMin := (now - lastReinit) / 60.0;
      MinutesAndSeconds(now - lastReinit, minutes);
      due := !(lastReinit > 0.0 && elapsedMin < minutes as real);
    }

    /** No restart is outstanding: restart unless the wait is not over. */
    method RestartIfDue(wlanOk: bool, now: real)
      requires Valid() && !reinitPending && 0.0 < now == LastSeen
      modifies this`lastReinit, this`reinitCount, this`reinitPending, this`reinitPendingT, this`Log
      ensures Valid()
      ensures reinitPending <==> KeepsDistance(old(Log), now, wlanOk, minWifi, maxWifi)
      ensures Log == if reinitPending then old(Log) + [Restart(now, wlanOk)] else old(Log)
    {
      var due := IsDue(wlanOk, now);
      if due {
        RestartNow(wlanOk, now);
      }
    }

    method RestartNow(wlanOk: bool, now: real)
      requires Valid() && !reinitPending && 0.0 < now == LastSeen && KeepsDistance(Log, now, wlanOk, minWifi, maxWifi)
      modifies this`lastReinit, this`reinitCount, this`reinitPending, this`reinitPendingT, this`Log
      ensures Valid() && reinitPending && Log == old(Log) + [Restart(now, wlanOk)]
    {
      Appended(Log, Restart(now, wlanOk), minWifi, maxWifi);
      lastReinit := now;
      reinitCount := reinitCount + 1;
      reinitPending := true;
      reinitPendingT := now;
      Log := Log + [Restart(now, wlanOk)];
    }

    /** Ask for a modem restart. Nothing happens while the init unit is busy; an outstanding restart is
        looked after first. True when the modem is found back. */
    method TriggerReinit(wlanOk: bool, now: real, busy: bool, hasAddress: bool) returns (recovered: bool)
      requires Valid() && now > 0.0 && now >= LastSeen
      modifies this`lastReinit, this`reinitCount, this`reinitPending, this`reinitPendingT, this`Log, this`LastSeen
      ensures Valid() && LastSeen == now
      ensures busy ==> Log == old(Log)
      ensures recovered <==> !busy && old(reinitPending) && hasAddress
      ensures recovered ==> Log == old(Log) + [Recovered]
      ensures !busy && old(reinitPending) && !hasAddress ==> Log == old(Log)
      ensures !busy && !old(reinitPending) ==>
                Log == if KeepsDistance(old(Log), now, wlanOk, minWifi, maxWifi) then old(Log) + [Restart(now, wlanOk)] else old(Log)
    {
      LastSeen := now;
      if busy {
        return false;
      }
      if reinitPending {
        recovered := PollPending(now, hasAddress);
      } else {
        RestartIfDue(wlanOk, now);
        recovered := false;
      }
    }

    /** One monitor cycle: pick the interface, clear the backoff on a good probe, and see to a modem
        restart on a bad one. Configuration, probes and clock readings are the cycle's inputs. */
    method ApplyRoutingPolicy(c: Cycle) returns (target: Iface)
      requires Valid() && 0.0 < c.now <= c.later && LastSeen <= c.now
      modifies this
      ensures Valid() && LastSeen <= c.later
      ensures c.mode == OnlyWifi ==> Log == old(Log) && Probes == old(Probes) && target == Wlan0
      ensures c.mode != OnlyWifi && (c.force4G || c.mode == Only4G) ==> target == Wwan0 && Probes == old(Probes)
      ensures c.mode == Prefer4G && !c.force4G ==>
                && Probes == old(Probes) + [Probe(c.now, c.wwanOk)]
                && (target == Wlan0 <==> DownLongerThan(Probes, c.now, c.delay as real) && c.wlanOk && c.allowed)
      ensures c.mode != OnlyWifi && c.wwanOk ==> Log == old(Log) + [Online] && failures4G == 0
      ensures c.mode != OnlyWifi && !c.wwanOk && c.busy ==> Log == old(Log)
      ensures c.mode != OnlyWifi && !c.wwanOk && !c.busy && old(reinitPending) ==>
                Log == if c.hasAddress then old(Log) + [Recovered] else old(Log)
      ensures c.mode != OnlyWifi && !c.wwanOk && !c.busy && !old(reinitPending) ==>
                var onWifi := c.wlanOk && target == Wlan0;
                Log == if KeepsDistance(old(Log), c.later, onWifi, minWifi, maxWifi) then old(Log) + [Restart(c.later, onWifi)] else old(Log)
    {
      if c.mode == OnlyWifi {
        return Wlan0;
      }
      var reason;
      target, reason := ResolveTarget(c.mode, c.wwanOk, c.wlanOk, c.force4G, c.now, c.delay, c.allowed);
      if target == Wwan0 && c.wwanOk {
        ClearBackoff();
      }
      if !c.wwanOk {
        CountFailure(c.wlanOk && target == Wlan0, c.later, c.busy, c.hasAddress);
      }
    }

    /** A bad probe: one failure is enough to ask for a restart. */
    method CountFailure(onWifi: bool, now: real, busy: bool, hasAddress: bool)
      requires Valid() && now > 0.0 && now >= LastSeen
      modifies this`failures4G, this`lastReinit, this`reinitCount, this`reinitPending, this`reinitPendingT, this`Log, this`LastSeen
      ensures Valid() && LastSeen == now
      ensures failures4G == if !busy && old(reinitPending) && hasAddress then 0 else old(failures4G) + 1
      ensures busy ==> Log == old(Log)
      ensures !busy && old(reinitPending) ==> Log == if hasAddress then old(Log) + [Recovered] else old(Log)
      ensures !busy && !old(reinitPending) ==>
                Log == if KeepsDistance(old(Log), now, onWifi, minWifi, maxWifi) then old(Log) + [Restart(now, onWifi)] else old(Log)
    {
      failures4G := failures4G + 1;
      if failures4G >= FAIL_THRESHOLD {
        var recovered := TriggerReinit(onWifi, now, busy, hasAddress);
        if recovered {
          failures4G := 0;
        }
      }
    }

    /** 4G works again. An outstanding restart is left to the next bad probe. */
    method ClearBackoff()
      requires Valid()
      modifies this`failures4G, this`reinitCount, this`Log
      ensures Valid() && failures4G == 0 && Log == old(Log) + [Online]
    {
      failures4G := 0;
      reinitCount := 0;
      Appended(Log, Online, minWifi, maxWifi);
      Log := Log + [Online];
    }

    /** The monitor over any number of cycles: restarts stay throttled throughout. */
    method Run(cycles: seq<Cycle>)
      requires Valid()
      requires forall i :: 0 <= i < |cycles| ==> 0.0 < cycles[i].now <= cycles[i].later
      requires forall i :: 0 < i < |cycles| ==> cycles[i - 1].later <= cycles[i].now
      requires |cycles| > 0 ==> LastSeen <= cycles[0].now
      modifies this
      ensures Valid() && Throttled(Log, minWifi, maxWifi)
      ensures old(Log) <= Log && old(Probes) <= Probes
    {
      for i := 0 to |cycles|
        invariant Valid() && old(Log) <= Log && old(Probes) <= Probes
        invariant i < |cycles| ==> LastSeen <= cycles[i].now
      {
        var _ := ApplyRoutingPolicy(cycles[i]);
      }
    }
  }

  /** What one monitor cycle finds: configuration, probe results, the clock at the routing decision
      and at the restart decision, the state of the init unit and whether the modem has an address. */
  datatype Cycle = Cycle(
    mode: Mode, force4G: bool, delay: nat, allowed: bool,
    wwanOk: bool, wlanOk: bool, now: real, later: real, busy: bool, hasAddress: bool)

  lemma MinutesAndSeconds(seconds: real, minutes: int)
    ensures seconds / 60.0 < minutes as real <==> seconds < 60.0 * minutes as real
  {
  }

  // ---- What throttling means over a stretch without recovery ----

  /** Minutes the waits of restarts 1 to `n` of an outage add up to, off WiFi. */
  function TotalWait(n: nat): int {
    if n == 0 then 0 else TotalWait(n - 1) + WaitMinutes(n, false, 0, 0)
  }

  /** In an outage that stays off WiFi, restart number `n` comes no sooner after the first than the
      sum of the doubling waits. */
  lemma {:induction false} OutageBackoff(log: seq<Event>, first: nat, n: nat, minWifi: int, maxWifi: int)
    requires Throttled(log, minWifi, maxWifi) && first + n < |log|
    requires first == 0 || !log[first - 1].Restart?
    requires forall i :: first <= i <= first + n ==> log[i].Restart? && !log[i].onWifi
    ensures log[first + n].at - log[first].at >= 60.0 * TotalWait(n) as real
  {
    if n > 0 {
      OutageBackoff(log, first, n - 1, minWifi, maxWifi);
      var before := log[..first + n];
      ThrottledPrefix(log, first + n, minWifi, maxWifi);
      CountInOutage(before, first);
      assert LastRestart(before) == Some(log[first + n - 1].at);
      assert WaitMinutes(n, false, minWifi, maxWifi) == WaitMinutes(n, false, 0, 0);
    }
  }

  lemma {:induction false} ThrottledPrefix(log: seq<Event>, k: nat, minWifi: int, maxWifi: int)
    requires Throttled(log, minWifi, maxWifi) && k < |log| && log[k].Restart?
    ensures KeepsDistance(log[..k], log[k].at, log[k].onWifi, minWifi, maxWifi)
  {
    var n := |log| - 1;
    if k < n {
      ThrottledPrefix(log[..n], k, minWifi, maxWifi);
      assert log[..n][..k] == log[..k];
    }
  }

  /** In every throttled history a restart comes at least two minutes after one that is unresolved. */
  lemma UnresolvedTwoMinutes(log: seq<Event>, k: nat, minWifi: int, maxWifi: int)
    requires Throttled(log, minWifi, maxWifi) && k < |log| && log[k].Restart? && Unresolved(log[..k]).Some?
    ensures log[k].at >= Unresolved(log[..k]).value + 120.0
  {
    ThrottledPrefix(log, k, minWifi, maxWifi);
  }

  lemma {:induction false} CountInOutage(log: seq<Event>, first: nat)
    requires first < |log| && (first == 0 || !log[first - 1].Restart?)
    requires forall i :: first <= i < |log| ==> log[i].Restart?
    ensures RestartsSinceReset(log) == |log| - first
  {
    if |log| - 1 > first {
      CountInOutage(log[..|log| - 1], first);
    }
  }
}
