/** What every run of the arbiter keeps: how often links change, what the Ethernet recovery
    counter counts, when Ethernet comes back, and what the generation numbers. */
module LinkRuns {
  import opened Options
  import opened LinkStep
  import opened LinkArbiter
  import opened IntLemmas

  /** The step of a run, named so that a run is unfolded only where a proof asks for it. */
  ghost predicate Moves(cfg: Config, s: State, e: Event, s': State) {
    s' == Apply(cfg, s, e)
  }

  /** A run: locked operations in the order the lock admits them, and the states between. Only the
      results about rates use that the health checks, which one goroutine makes, are ordered in
      time (`Timed`). */
  datatype Trace = Trace(cfg: Config, t0: int, states: seq<State>, es: seq<Event>) {

    ghost predicate Started() {
      && |states| == |es| + 1
      && Initial(states[0], t0)
      && (forall k {:trigger Moves(cfg, states[k], es[k], states[k + 1])} ::
            0 <= k < |es| ==> Moves(cfg, states[k], es[k], states[k + 1]))
    }

    ghost predicate Timed() {
      && (forall i :: 0 <= i < |es| && es[i].Evaluate? ==> t0 <= es[i].now)
      && (forall i, j :: 0 <= i < j < |es| && es[i].Evaluate? && es[j].Evaluate? ==> es[i].now <= es[j].now)
    }

    ghost predicate Switches(k: nat)
      requires |states| == |es| + 1 && k < |es|
    {
      states[k].snap.active != states[k + 1].snap.active
    }

    ghost predicate Recovers(k: nat)
      requires |states| == |es| + 1 && k < |es|
    {
      Switches(k) && states[k + 1].snap.active == ETH
    }

    ghost predicate Departs(k: nat)
      requires |states| == |es| + 1 && k < |es|
    {
      Switches(k) && states[k].snap.active == ETH
    }

    /** Ethernet was left by event `d` and is not active at any point after it up to `k`. */
    ghost predicate OffSince(d: nat, k: nat)
      requires |states| == |es| + 1 && d < k <= |es|
    {
      Departs(d) && forall m :: d < m <= k ==> states[m].snap.active != ETH
    }

    /** The time of the latest health check before point `k`. */
    ghost function Clock(k: nat): int
      requires k <= |es|
    {
      if k == 0 then t0 else if es[k - 1].Evaluate? then es[k - 1].now else Clock(k - 1)
    }

    ghost function SwitchCount(k: nat): nat
      requires |states| == |es| + 1 && k <= |es|
    {
      if k == 0 then 0 else SwitchCount(k - 1) + if Switches(k - 1) then 1 else 0
    }

    /** Ethernet PX4 heartbeats among events `i` up to, not including, `k`. */
    ghost function EthBeats(i: nat, k: nat): nat
      requires i <= k <= |es|
    {
      if i == k then 0
      else EthBeats(i, k - 1) + if es[k - 1].Heartbeat? && es[k - 1].id == ETH then 1 else 0
    }

    ghost function LastRecovery(k: nat): Option<int>
      requires |states| == |es| + 1 && k <= |es|
    {
      if k == 0 then None else if Recovers(k - 1) then Some(Clock(k)) else LastRecovery(k - 1)
    }

    /** Ethernet recoveries among the first `k` events whose time lies in the window from `a` to `b`. */
    ghost function RecoveriesIn(k: nat, a: int, b: int): nat
      requires |states| == |es| + 1 && k <= |es|
    {
      if k == 0 then 0
      else RecoveriesIn(k - 1, a, b) + if Recovers(k - 1) && a <= Clock(k) <= b then 1 else 0
    }

    // ---- One event ----

    lemma {:induction false} InvAt(k: nat)
      requires Started() && k <= |es|
      ensures SnapInv(states[k].snap, cfg.loss)
    {
      if k > 0 {
        var j := k - 1;
        InvAt(j);
        assert Moves(cfg, states[j], es[j], states[j + 1]);
        ApplyKeepsInv(cfg, states[j], es[j]);
      }
    }

    /** Only a health check changes the link; it stamps the new link and counts the change. */
    lemma EventMoves(k: nat)
      requires Started() && k < |es|
      ensures Switches(k) ==> es[k].Evaluate?
      ensures states[k + 1].snap.entered == if Switches(k) then es[k].now else states[k].snap.entered
      ensures states[k + 1].gen == if Switches(k) then states[k].gen + 1 else states[k].gen
    {
      InvAt(k);
      assert Moves(cfg, states[k], es[k], states[k + 1]);
    }

    /** A link is left early only for Ethernet or because its channel is closed; Ethernet never. */
    lemma SwitchIsLate(k: nat)
      requires Started() && k < |es| && Switches(k)
      ensures es[k].Evaluate?
      ensures || es[k].now - states[k].snap.entered >= EffectiveLoss(cfg.loss)
              || (!Departs(k) && (Recovers(k) || states[k].ch[states[k].snap.active] == None))
    {
      InvAt(k);
      EventMoves(k);
      assert Moves(cfg, states[k], es[k], states[k + 1]);
      var now := es[k].now;
      LeavesLateUnlessClosed(states[k].snap, now, FreshFlags(cfg, states[k], now), OpenFlags(states[k]), cfg.loss, cfg.recoverN);
    }

    /** The link a switch enters is open, and fresh if it is Ethernet or the way back to TELEM2;
        TELEM3 is entered from Ethernet only if TELEM2 is closed. */
    lemma SwitchEntersUsable(k: nat)
      requires Started() && k < |es| && Switches(k)
      ensures es[k].Evaluate?
      ensures var (from, to) := (states[k].snap.active, states[k + 1].snap.active);
              && to != NO_LINK && Attached(k, to).Some?
              && (to == ETH || from == TELEM3 ==> HeardWithin(k, to, es[k].now))
              && (from == ETH && to == TELEM3 ==> Attached(k, TELEM2).None?)
    {
      InvAt(k + 1);
      InvAt(k);
      EventMoves(k);
      assert Moves(cfg, states[k], es[k], states[k + 1]);
      var now := es[k].now;
      FlagsExact(k, now);
      EntersOnlyUsable(states[k].snap, now, FreshFlags(cfg, states[k], now), OpenFlags(states[k]), cfg.loss, cfg.recoverN);
    }

    /** Off Ethernet, an event adds an Ethernet heartbeat to the counter up to its ceiling. */
    lemma CounterMoves(k: nat)
      requires Started() && k < |es| && states[k + 1].snap.active != ETH
      ensures Departs(k) ==> states[k + 1].snap.ethHBSinceLoss == 0
      ensures states[k].snap.active != ETH ==>
                var n := states[k].snap.ethHBSinceLoss;
                && 0 <= n <= 1000
                && states[k + 1].snap.ethHBSinceLoss ==
                     if es[k].Heartbeat? && es[k].id == ETH && n < 1000 then n + 1 else n
    {
      InvAt(k);
      assert Moves(cfg, states[k], es[k], states[k + 1]);
    }

    // ---- What the events say of the links ----

    /** When link `i` was last heard at point `k`: its latest heartbeat, or what was known at the start. */
    ghost function Heard(k: nat, i: int): Option<int>
      requires |states| == |es| + 1 && k <= |es| && 0 < i < 4
    {
      if k == 0 then states[0].lastHB[i]
      else if es[k - 1].Heartbeat? && es[k - 1].id == i then Some(es[k - 1].at)
      else Heard(k - 1, i)
    }

    /** The channel attached to link `i` at point `k`: the last one registered that belongs to the
        link, unless it has been unregistered since. */
    ghost function Attached(k: nat, i: int): Option<Channel>
      requires |states| == |es| + 1 && k <= |es| && 0 < i < 4
    {
      if k == 0 then states[0].ch[i]
      else if es[k - 1].Register? && Serves(cfg, es[k - 1].channel, i) then Some(es[k - 1].channel)
      else if es[k - 1].Unregister? && Attached(k - 1, i) == Some(es[k - 1].channel) then None
      else Attached(k - 1, i)
    }

    ghost predicate HeardWithin(k: nat, i: int, now: int)
      requires |states| == |es| + 1 && k <= |es| && 0 < i < 4
    {
      Heard(k, i).Some? && now - Heard(k, i).value < cfg.loss
    }

    lemma {:induction false} HeardExact(k: nat, i: int)
      requires Started() && k <= |es| && 0 < i < 4
      ensures states[k].lastHB[i] == Heard(k, i)
    {
      if k > 0 {
        var j := k - 1;
        HeardExact(j, i);
        assert Moves(cfg, states[j], es[j], states[j + 1]);
      }
    }

    lemma {:induction false} AttachedExact(k: nat, i: int)
      requires Started() && k <= |es| && 0 < i < 4
      ensures states[k].ch[i] == Attached(k, i)
    {
      if k > 0 {
        var j := k - 1;
        AttachedExact(j, i);
        assert Moves(cfg, states[j], es[j], states[j + 1]);
        if es[j].Register? {
          IdentifiesDevice(cfg, es[j].channel);
        }
      }
    }

    /** The flags of a health check are what the events up to it say. */
    lemma FlagsExact(k: nat, now: int)
      requires Started() && k <= |es|
      ensures forall i :: 0 < i < 4 ==> OpenFlags(states[k])[i] == Attached(k, i).Some?
      ensures forall i :: 0 < i < 4 ==> FreshFlags(cfg, states[k], now)[i] == HeardWithin(k, i, now)
    {
      forall i | 0 < i < 4
        ensures OpenFlags(states[k])[i] == Attached(k, i).Some? && FreshFlags(cfg, states[k], now)[i] == HeardWithin(k, i, now)
      {
        HeardExact(k, i);
        AttachedExact(k, i);
      }
    }

    /** Started with channels in their own places, every point of the run has them there. */
    lemma {:induction false} AttachedServes(k: nat, i: int)
      requires Started() && k <= |es| && 0 < i < 4
      requires states[0].ch[i].Some? ==> Serves(cfg, states[0].ch[i].value, i)
      ensures Attached(k, i).Some? ==> Serves(cfg, Attached(k, i).value, i)
    {
      if k > 0 {
        AttachedServes(k - 1, i);
      }
    }

    /** What a transmission would use at any point: the channel attached to the active link, which
        belongs to that link by its endpoint. */
    lemma TargetServes(k: nat)
      requires Started() && k <= |es|
      requires forall i :: 0 < i < 4 && states[0].ch[i].Some? ==> Serves(cfg, states[0].ch[i].value, i)
      ensures var (link, channel) := Target(states[k]);
              && link == states[k].snap.active != NO_LINK && channel == Attached(k, link)
              && (channel.Some? ==> Serves(cfg, channel.value, link))
    {
      InvAt(k);
      AttachedExact(k, states[k].snap.active);
      AttachedServes(k, states[k].snap.active);
    }

    // ---- Spacing of switches ----

    /** Between switches the active link and the time it was entered do not move. */
    lemma {:induction false} EnteredSince(i: nat, k: nat)
      requires Started() && i < k <= |es| && Switches(i)
      requires forall m :: i < m < k ==> !Switches(m)
      ensures es[i].Evaluate? && states[k].snap.active == states[i + 1].snap.active && states[k].snap.entered == es[i].now
    {
      EventMoves(k - 1);
      if k > i + 1 {
        EnteredSince(i, k - 1);
        assert !Switches(k - 1);
      }
    }

    lemma {:induction false} EnteredAtStart(k: nat)
      requires Started() && k <= |es|
      requires forall m :: 0 <= m < k ==> !Switches(m)
      ensures states[k].snap.active == ETH && states[k].snap.entered == t0
    {
      if k > 0 {
        EventMoves(k - 1);
        EnteredAtStart(k - 1);
        assert !Switches(k - 1);
      }
    }

    /** Consecutive switches are a loss period apart, unless the second one brings Ethernet back
        or the link it leaves has no open channel. */
    lemma SwitchSpacing(i: nat, j: nat)
      requires Started() && i < j < |es| && Switches(i) && Switches(j)
      requires forall m :: i < m < j ==> !Switches(m)
      ensures es[i].Evaluate? && es[j].Evaluate?
      ensures || es[j].now - es[i].now >= EffectiveLoss(cfg.loss)
              || Recovers(j)
              || states[j].ch[states[j].snap.active] == None
    {
      EnteredSince(i, j);
      SwitchIsLate(j);
    }

    /** The first switch of a run leaves Ethernet, a loss period or more after the start. */
    lemma FirstSwitchLate(j: nat)
      requires Started() && j < |es| && Switches(j)
      requires forall m :: 0 <= m < j ==> !Switches(m)
      ensures Departs(j) && es[j].Evaluate? && es[j].now - t0 >= EffectiveLoss(cfg.loss)
    {
      EnteredAtStart(j);
      SwitchIsLate(j);
    }

    // ---- Rate of Ethernet recoveries ----

    lemma {:induction false} ClockOrdered(k: nat)
      requires Timed() && k <= |es|
      ensures t0 <= Clock(k)
      ensures forall i :: k <= i < |es| && es[i].Evaluate? ==> Clock(k) <= es[i].now
    {
      if k > 0 {
        ClockOrdered(k - 1);
      }
    }

    /** On Ethernet again, the last recovery is when it was entered; off it, the departure came a
        loss period later still. */
    lemma {:induction false} EntryAfterRecovery(k: nat)
      requires Started() && Timed() && k <= |es|
      ensures states[k].snap.entered <= Clock(k)
      ensures LastRecovery(k).Some? ==>
                if states[k].snap.active == ETH then states[k].snap.entered == LastRecovery(k).value
                else states[k].snap.entered >= LastRecovery(k).value + EffectiveLoss(cfg.loss)
    {
      if k > 0 {
        EntryAfterRecovery(k - 1);
        ClockOrdered(k - 1);
        EventMoves(k - 1);
        if Switches(k - 1) {
          SwitchIsLate(k - 1);
        }
      }
    }

    /** Two recoveries are at least a loss period apart. */
    lemma RecoveryGap(k: nat)
      requires Started() && Timed() && k < |es| && Recovers(k)
      ensures es[k].Evaluate? && Clock(k) <= Clock(k + 1)
      ensures LastRecovery(k).Some? ==> LastRecovery(k).value + EffectiveLoss(cfg.loss) <= Clock(k + 1)
    {
      EventMoves(k);
      ClockOrdered(k);
      EntryAfterRecovery(k);
    }

    lemma {:induction false} RecoveriesSpread(k: nat, a: int, b: int)
      requires Started() && Timed() && k <= |es| && RecoveriesIn(k, a, b) > 0
      ensures LastRecovery(k).Some? && a <= LastRecovery(k).value
      ensures (RecoveriesIn(k, a, b) - 1) * EffectiveLoss(cfg.loss) <= LastRecovery(k).value - a
      ensures (RecoveriesIn(k, a, b) - 1) * EffectiveLoss(cfg.loss) <= b - a
    {
      var before := RecoveriesIn(k - 1, a, b);
      if before > 0 {
        RecoveriesSpread(k - 1, a, b);
      }
      if Recovers(k - 1) {
        RecoveryGap(k - 1);
        OneMore(before, EffectiveLoss(cfg.loss));
      }
    }

    /** Any closed window of length T holds at most 1 + floor(T / loss) Ethernet recoveries. */
    lemma RecoveryRate(a: int, b: int)
      requires Started() && Timed() && a <= b
      ensures RecoveriesIn(|es|, a, b) <= 1 + (b - a) / EffectiveLoss(cfg.loss)
    {
      var n := RecoveriesIn(|es|, a, b);
      if n > 0 {
        RecoveriesSpread(|es|, a, b);
      }
      AtMostQuotient(n, b - a, EffectiveLoss(cfg.loss));
    }

    // ---- The recovery counter and the return to Ethernet ----

    /** Whenever Ethernet is not active, some departure led there and it has been off since. */
    lemma {:induction false} OffHasDeparture(k: nat) returns (d: nat)
      requires Started() && k <= |es| && states[k].snap.active != ETH
      ensures d < k && OffSince(d, k)
      ensures states[k].snap.ethLost
    {
      InvAt(k);
      if states[k - 1].snap.active == ETH {
        d := k - 1;
      } else {
        d := OffHasDeparture(k - 1);
      }
    }

    /** The recovery counter is the number of Ethernet heartbeats since the departure, up to 1000. */
    lemma {:induction false} CounterExact(d: nat, k: nat)
      requires Started() && d < k <= |es| && OffSince(d, k)
      ensures states[k].snap.ethHBSinceLoss == if EthBeats(d + 1, k) < 1000 then EthBeats(d + 1, k) else 1000
    {
      CounterMoves(k - 1);
      if k > d + 1 {
        CounterExact(d, k - 1);
      }
    }

    lemma CounterZeroOnEthernet(k: nat)
      requires Started() && k <= |es| && states[k].snap.active == ETH
      ensures states[k].snap.ethHBSinceLoss == 0
    {
      InvAt(k);
    }

    /** A health check off Ethernet brings it back exactly when enough heartbeats came since the
        departure, the threshold is one the saturating counter can reach, and the link is fresh and
        open; no hold window delays it. */
    lemma RecoveryExact(d: nat, k: nat)
      requires Started() && d < k < |es| && OffSince(d, k) && es[k].Evaluate?
      ensures Recovers(k) <==>
                && EthBeats(d + 1, k) >= EffectiveRecoverN(cfg.recoverN)
                && EffectiveRecoverN(cfg.recoverN) <= 1000
                && HeardWithin(k, ETH, es[k].now)
                && Attached(k, ETH).Some?
    {
      FlagsExact(k, es[k].now);
      InvAt(k);
      CounterExact(d, k);
      assert Moves(cfg, states[k], es[k], states[k + 1]);
      ReturnsExactlyWhen(states[k].snap, es[k].now, FreshFlags(cfg, states[k], es[k].now), OpenFlags(states[k]), cfg.loss, cfg.recoverN);
    }

    /** A health check on Ethernet leaves it exactly when it is stale, a loss period has passed since
        it was entered and a UART is open; TELEM2 is preferred. */
    lemma DepartureExact(k: nat)
      requires Started() && k < |es| && es[k].Evaluate? && states[k].snap.active == ETH
      ensures Departs(k) <==>
                && !HeardWithin(k, ETH, es[k].now)
                && es[k].now - states[k].snap.entered >= EffectiveLoss(cfg.loss)
                && (Attached(k, TELEM2).Some? || Attached(k, TELEM3).Some?)
      ensures Departs(k) ==> states[k + 1].snap.active == if Attached(k, TELEM2).Some? then TELEM2 else TELEM3
    {
      FlagsExact(k, es[k].now);
      InvAt(k);
      assert Moves(cfg, states[k], es[k], states[k + 1]);
    }

    /** On TELEM2, a health check that does not regain Ethernet goes to TELEM3 exactly when that is
        open and TELEM2 is closed, or stale after its hold of one loss period. */
    lemma Telem2Exact(k: nat)
      requires Started() && k < |es| && es[k].Evaluate? && states[k].snap.active == TELEM2 && !Recovers(k)
      ensures Switches(k) <==>
                && Attached(k, TELEM3).Some?
                && (Attached(k, TELEM2).None?
                    || (!HeardWithin(k, TELEM2, es[k].now) && es[k].now - states[k].snap.entered >= EffectiveLoss(cfg.loss)))
      ensures Switches(k) ==> states[k + 1].snap.active == TELEM3
    {
      FlagsExact(k, es[k].now);
      InvAt(k);
      assert Moves(cfg, states[k], es[k], states[k + 1]);
    }

    /** On TELEM3, a health check that does not regain Ethernet goes back to TELEM2 exactly when that
        is fresh and open and TELEM3 is closed or past its hold. */
    lemma Telem3Exact(k: nat)
      requires Started() && k < |es| && es[k].Evaluate? && states[k].snap.active == TELEM3 && !Recovers(k)
      ensures Switches(k) <==>
                && Attached(k, TELEM2).Some? && HeardWithin(k, TELEM2, es[k].now)
                && (Attached(k, TELEM3).None? || es[k].now - states[k].snap.entered >= EffectiveLoss(cfg.loss))
      ensures Switches(k) ==> states[k + 1].snap.active == TELEM2
    {
      FlagsExact(k, es[k].now);
      InvAt(k);
      assert Moves(cfg, states[k], es[k], states[k + 1]);
    }

    /** Configured above the counter's ceiling, no run ever comes back to Ethernet. */
    lemma NoReturnAboveCeiling(k: nat)
      requires Started() && k < |es| && EffectiveRecoverN(cfg.recoverN) > 1000
      ensures !Recovers(k)
    {
      if Recovers(k) {
        EventMoves(k);
        var d := OffHasDeparture(k);
        RecoveryExact(d, k);
      }
    }

    /** Ethernet counts as lost: a health check found it stale a loss period after it was entered, and
        it has not been regained since. */
    ghost predicate Lost(k: nat)
      requires |states| == |es| + 1 && k <= |es|
    {
      k > 0 && !Recovers(k - 1) && (Lost(k - 1) || FoundStale(k - 1))
    }

    ghost predicate FoundStale(k: nat)
      requires |states| == |es| + 1 && k < |es|
    {
      && es[k].Evaluate? && states[k].snap.active == ETH && !HeardWithin(k, ETH, es[k].now)
      && es[k].now - states[k].snap.entered >= EffectiveLoss(cfg.loss)
    }

    lemma {:induction false} LostExact(k: nat)
      requires Started() && k <= |es|
      ensures states[k].snap.ethLost <==> Lost(k)
    {
      if k > 0 {
        var j := k - 1;
        LostExact(j);
        InvAt(j);
        assert Moves(cfg, states[j], es[j], states[j + 1]);
        if es[j].Evaluate? {
          FlagsExact(j, es[j].now);
        }
      }
    }

    // ---- Generations ----

    /** The generation is the number of changes of the active link so far. */
    lemma {:induction false} GenerationCounts(k: nat)
      requires Started() && k <= |es|
      ensures states[k].gen == SwitchCount(k)
    {
      if k > 0 {
        EventMoves(k - 1);
        GenerationCounts(k - 1);
      }
    }

    /** Equal generations at two points mean the link never changed between them. */
    lemma {:induction false} SameGenerationSameLink(i: nat, k: nat)
      requires Started() && i <= k <= |es|
      ensures states[i].gen <= states[k].gen
      ensures states[i].gen == states[k].gen ==> forall m :: i <= m <= k ==> states[m].snap.active == states[i].snap.active
    {
      if i < k {
        SameGenerationSameLink(i, k - 1);
        EventMoves(k - 1);
      }
    }
  }

  /** The states a run passes through from `start`. */
  ghost function StatesOf(cfg: Config, start: State, es: seq<Event>): (r: seq<State>)
    ensures |r| == |es| + 1 && r[0] == start
  {
    if es == [] then [start]
    else
      var before := StatesOf(cfg, start, es[..|es| - 1]);
      before + [Apply(cfg, before[|es| - 1], es[|es| - 1])]
  }

  /** Every list of operations from a starting state is a run. */
  lemma {:induction false} EveryListRuns(cfg: Config, start: State, t0: int, es: seq<Event>)
    requires Initial(start, t0)
    ensures Trace(cfg, t0, StatesOf(cfg, start, es), es).Started()
  {
    if es != [] {
      var n := |es| - 1;
      EveryListRuns(cfg, start, t0, es[..n]);
      var before, all := StatesOf(cfg, start, es[..n]), StatesOf(cfg, start, es);
      forall k | 0 <= k < |es|
        ensures Moves(cfg, all[k], es[k], all[k + 1])
      {
        if k < n {
          assert Moves(cfg, before[k], es[..n][k], before[k + 1]);
        }
      }
    }
  }

  lemma AtMostQuotient(n: nat, t: int, d: int)
    requires d > 0 && t >= 0 && (n == 0 || (n - 1) * d <= t)
    ensures n <= 1 + t / d
  {
    if n > 0 {
      QuotientBound(n - 1, t, d);
    } else {
      QuotientBound(0, t, d);
    }
  }
}
