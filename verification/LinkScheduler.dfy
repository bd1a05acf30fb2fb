/** The supervisor's two deadlines: health checks and GCS heartbeats, one action per tick. */
module LinkScheduler {
  import opened LinkStep
  import opened IntLemmas

  const HEALTH_PERIOD: int := 500 * MS
  const HEARTBEAT_PERIOD: int := 1000 * MS
  const HEALTH_OFFSET: int := 250 * MS
  const DEFERRAL: int := 200 * MS

  datatype Phase = NoPhase | HealthPhase | HeartbeatPhase

  datatype Deadlines = Deadlines(health: int, hb: int)

  /** The first of `due + period`, `due + 2 * period`, ... strictly after `now`. */
  function NextDeadline(due: int, period: int, now: int): (r: int)
    requires period > 0
    ensures r > now && r >= due + period
    ensures r == due + period || r - period <= now
    ensures due <= now ==> r <= now + period
  {
    if due + period > now then due + period else due + Periods(due, period, now) * period
  }

  function Periods(due: int, period: int, now: int): (k: int)
    requires period > 0 && due + period <= now
    ensures k >= 1 && due + (k - 1) * period <= now < due + k * period
  {
    var q := (now - due) / period;
    assert now - due == q * period + (now - due) % period;
    assert (q + 1) * period == q * period + period;
    q + 1
  }

  lemma SamePeriods(j: int, k: int, period: int, gap: int)
    requires period > 0
    requires (j - 1) * period <= gap < j * period
    requires (k - 1) * period <= gap < k * period
    ensures j == k
  {
    FactorLess(j - 1, k, period);
    FactorLess(k - 1, j, period);
  }

  method AdvanceDeadline(due: int, period: int, now: int) returns (next: int)
    requires period > 0
    ensures next == NextDeadline(due, period, now)
  {
    next := due + period;
    ghost var k := 1;
    while next <= now
      invariant k >= 1 && next == due + k * period
      invariant k > 1 ==> due + period <= now && next - period <= now
      decreases now - next
    {
      assert (k + 1) * period == k * period + period;
      next := next + period;
      k := k + 1;
    }
    if k > 1 {
      assert (k - 1) * period == k * period - period;
      SamePeriods(k, Periods(due, period, now), period, now - due);
    }
  }

  /** The single action due at `now` and the deadlines after it. */
  function NextPhase(now: int, d: Deadlines): (r: (Phase, Deadlines)) {
    var healthDue := d.health <= now;
    var hbDue := d.hb <= now;
    if healthDue && hbDue then
      (HealthPhase, Deadlines(NextDeadline(d.health, HEALTH_PERIOD, now), now + DEFERRAL))
    else if hbDue then
      (HeartbeatPhase, d.(hb := NextDeadline(d.hb, HEARTBEAT_PERIOD, now)))
    else if healthDue then
      (HealthPhase, d.(health := NextDeadline(d.health, HEALTH_PERIOD, now)))
    else
      (NoPhase, d)
  }

  /** `next` is the first point of the grid of `due`, by nanoseconds, that lies after now. */
  ghost predicate NextOnGrid(next: int, due: int, period: int, now: int) {
    exists k :: k >= 1 && next == due + k * period && now < next && (k == 1 || next - period <= now)
  }

  lemma DeadlineOnGrid(due: int, period: int, now: int)
    requires period > 0
    ensures NextOnGrid(NextDeadline(due, period, now), due, period, now)
  {
    if due + period > now {
      assert NextDeadline(due, period, now) == due + 1 * period;
    } else {
      var k := Periods(due, period, now);
      assert NextDeadline(due, period, now) == due + k * period;
      assert (k - 1) * period == k * period - period;
    }
  }

  /** One turn at any time, however late: which action it runs, and that each deadline it moves goes
      to the next point of its own grid, half a second for health and a second for heartbeats, unless
      both were due, when the heartbeat is put off by 200 ms. */
  lemma TurnExact(now: int, d: Deadlines)
    ensures var (phase, next) := NextPhase(now, d);
            && (phase == HealthPhase <==> d.health <= now)
            && (phase == HeartbeatPhase <==> d.hb <= now < d.health)
            && (if d.health <= now then NextOnGrid(next.health, d.health, 500_000_000, now) else next.health == d.health)
            && (if d.hb > now then next.hb == d.hb
                else if d.health <= now then next.hb == now + 200_000_000
                else NextOnGrid(next.hb, d.hb, 1_000_000_000, now))
  {
    DeadlineOnGrid(d.health, HEALTH_PERIOD, now);
    DeadlineOnGrid(d.hb, HEARTBEAT_PERIOD, now);
  }

  /** Turns of the supervisor loop: the deadlines before the first tick, and the tick times. */
  datatype Turns = Turns(first: Deadlines, ticks: seq<int>) {

    ghost function Before(k: nat): Deadlines
      requires k <= |ticks|
    {
      if k == 0 then first else NextPhase(ticks[k - 1], Before(k - 1)).1
    }

    ghost function PhaseAt(k: nat): Phase
      requires k < |ticks|
    {
      NextPhase(ticks[k], Before(k)).0
    }

    /** Both deadlines are due, so the heartbeat is pushed back. */
    ghost predicate Deferred(k: nat)
      requires k < |ticks|
    {
      Before(k).health <= ticks[k] && Before(k).hb <= ticks[k]
    }

    ghost predicate GapsAtMost(g: int) {
      forall i :: 0 < i < |ticks| ==> ticks[i - 1] <= ticks[i] <= ticks[i - 1] + g
    }

    ghost function Count(p: Phase, k: nat): nat
      requires k <= |ticks|
    {
      if k == 0 then 0 else Count(p, k - 1) + if PhaseAt(k - 1) == p then 1 else 0
    }

    ghost predicate StartedAt(start: int) {
      && first == Deadlines(start + HEALTH_OFFSET, start + HEARTBEAT_PERIOD)
      && (|ticks| > 0 ==> start <= ticks[0] <= start + HEALTH_OFFSET)
      && GapsAtMost(HEALTH_OFFSET)
    }

    /** Started with the quarter-second offset and ticked at least four times a second, the phases
        never meet, each keeps its grid, and each has run exactly once per grid point passed: by
        the k-th tick a heartbeat for every full second and a health check for every half second. */
    lemma {:induction false} PhasesKeepGrid(start: int, k: nat)
      requires StartedAt(start) && k < |ticks|
      ensures !Deferred(k)
      ensures Before(k + 1).hb == start + (Count(HeartbeatPhase, k + 1) + 1) * HEARTBEAT_PERIOD
      ensures Before(k + 1).health == start + HEALTH_OFFSET + Count(HealthPhase, k + 1) * HEALTH_PERIOD
      ensures ticks[k] < Before(k + 1).hb <= ticks[k] + HEARTBEAT_PERIOD
      ensures ticks[k] < Before(k + 1).health <= ticks[k] + HEALTH_PERIOD
    {
      if k > 0 {
        PhasesKeepGrid(start, k - 1);
        assert ticks[k - 1] <= ticks[k] <= ticks[k - 1] + HEALTH_OFFSET;
      }
      GridTurn(start, ticks[k], Before(k), Count(HeartbeatPhase, k), Count(HealthPhase, k));
    }

    /** After a deferral at tick `k` and while its 200 ms run, the heartbeat keeps its new deadline
        and health runs at most once. */
    lemma {:induction false} WhileDeferred(k: nat, i: nat, g: int)
      requires g <= 300 * MS && GapsAtMost(g)
      requires k < i < |ticks| && Deferred(k)
      requires i == k + 1 || ticks[i - 1] < ticks[k] + DEFERRAL
      ensures Before(i).hb == ticks[k] + DEFERRAL
      ensures ticks[k] < Before(k + 1).health <= ticks[k] + HEALTH_PERIOD
      ensures ticks[k] <= ticks[i - 1] < Before(i).health
      ensures Before(i).health == Before(k + 1).health || Before(i).health > ticks[k] + HEALTH_PERIOD
    {
      if i > k + 1 {
        assert ticks[i - 2] <= ticks[i - 1];
        WhileDeferred(k, i - 1, g);
      }
    }

    /** How far the next health check lies ahead right after tick `k`. */
    ghost function Slack(k: nat): int
      requires k < |ticks|
    {
      Before(k + 1).health - ticks[k]
    }

    /** Deferred again at the first tick past the 200 ms, the heartbeat has more slack than before. */
    lemma SlackGrows(k: nat, j: nat, g: int)
      requires 0 <= g <= 300 * MS && GapsAtMost(g)
      requires k < j < |ticks| && Deferred(k) && Deferred(j)
      requires ticks[k] + DEFERRAL <= ticks[j] && (j == k + 1 || ticks[j - 1] < ticks[k] + DEFERRAL)
      ensures Slack(k) < Slack(j) <= HEALTH_PERIOD && Slack(j) > HEALTH_PERIOD - g && Slack(k) <= ticks[j] - ticks[k]
    {
      WhileDeferred(k, j, g);
      assert ticks[j - 1] <= ticks[j] <= ticks[j - 1] + g;
      assert Slack(j) == NextDeadline(Before(j).health, HEALTH_PERIOD, ticks[j]) - ticks[j];
    }

    /** The first tick past the 200 ms either sends the heartbeat or defers it again. */
    lemma NextAttempt(k: nat, g: int) returns (j: nat)
      requires 0 <= g <= 300 * MS && GapsAtMost(g)
      requires k < |ticks| && Deferred(k) && ticks[|ticks| - 1] >= ticks[k] + DEFERRAL
      ensures k < j < |ticks| && ticks[k] + DEFERRAL <= ticks[j] < ticks[k] + DEFERRAL + g
      ensures j == k + 1 || ticks[j - 1] < ticks[k] + DEFERRAL
      ensures forall i :: k < i < j ==> PhaseAt(i) != HeartbeatPhase && !Deferred(i)
      ensures PhaseAt(j) == HeartbeatPhase || Deferred(j)
    {
      j := FirstTickFrom(k + 1, ticks[k] + DEFERRAL);
      assert ticks[j - 1] <= ticks[j] <= ticks[j - 1] + g;
      forall i | k < i < j
        ensures PhaseAt(i) != HeartbeatPhase && !Deferred(i)
      {
        WhileDeferred(k, i, g);
      }
      WhileDeferred(k, j, g);
    }

    lemma FirstTickFrom(i: nat, t: int) returns (j: nat)
      requires i < |ticks| && ticks[|ticks| - 1] >= t
      ensures i <= j < |ticks| && ticks[j] >= t && forall m :: i <= m < j ==> ticks[m] < t
    {
      j := i;
      while ticks[j] < t
        invariant i <= j < |ticks| && forall m :: i <= m < j ==> ticks[m] < t
        decreases |ticks| - j
      {
        j := j + 1;
      }
    }

    /** Ticked at gaps of at most 300 ms, a deferred heartbeat is always sent in the end. */
    lemma {:induction false} HeartbeatFollows(k: nat, g: int) returns (j: nat)
      requires 0 <= g <= 300 * MS && GapsAtMost(g)
      requires k < |ticks| && Deferred(k)
      requires ticks[|ticks| - 1] >= ticks[k] + (HEALTH_PERIOD - Slack(k) + 1) * HEALTH_PERIOD
      ensures k < j < |ticks| && PhaseAt(j) == HeartbeatPhase
      decreases HEALTH_PERIOD - Slack(k)
    {
      assert 0 < Slack(k) <= HEALTH_PERIOD;
      assert HEALTH_PERIOD <= (HEALTH_PERIOD - Slack(k) + 1) * HEALTH_PERIOD;
      j := NextAttempt(k, g);
      if Deferred(j) {
        SlackGrows(k, j, g);
        assert HEALTH_PERIOD - Slack(j) + 1 <= HEALTH_PERIOD - Slack(k);
        j := HeartbeatFollows(j, g);
      }
    }

    /** At gaps of at most 150 ms a heartbeat is deferred at most twice in a row, and goes out
        less than 700 ms after the first deferral, whatever the deadlines were before it. */
    lemma DeferredAtMostTwice(k: nat) returns (j: nat)
      requires GapsAtMost(150 * MS) && k < |ticks| && Deferred(k)
      requires ticks[|ticks| - 1] >= ticks[k] + 700 * MS
      ensures k < j < |ticks| && PhaseAt(j) == HeartbeatPhase && ticks[j] < ticks[k] + 700 * MS
      ensures forall i :: k < i < j ==> PhaseAt(i) != HeartbeatPhase
      ensures forall a, b :: k < a < j && k < b < j && Deferred(a) && Deferred(b) ==> a == b
    {
      j := NextAttempt(k, 150 * MS);
      if Deferred(j) {
        var second := j;
        SlackGrows(k, second, 150 * MS);
        j := NextAttempt(second, 150 * MS);
        if Deferred(j) {
          SlackGrows(second, j, 150 * MS);
        }
      }
    }

    /** Ticks that come half a second apart or later starve the heartbeat for ever. */
    lemma {:induction false} SlowTicksStarve(k: nat)
      requires |ticks| > 0 && Deferred(0) && k < |ticks|
      requires forall i :: 0 < i < |ticks| ==> ticks[i] - ticks[i - 1] >= HEALTH_PERIOD
      ensures Deferred(k) && PhaseAt(k) == HealthPhase
    {
      if k > 0 {
        SlowTicksStarve(k - 1);
      }
    }
  }

  /** Health deadlines are odd multiples of 250 ms from the start, heartbeat deadlines multiples of
      1000 ms: they are never less than 250 ms apart. */
  lemma OffGrid(start: int, d: Deadlines, beats: nat, checks: nat)
    requires d.hb == start + (beats + 1) * HEARTBEAT_PERIOD
    requires d.health == start + HEALTH_OFFSET + checks * HEALTH_PERIOD
    ensures d.hb - d.health >= HEALTH_OFFSET || d.health - d.hb >= HEALTH_OFFSET
  {
    var u := 2 * checks - 4 * beats - 3;
    assert d.health - d.hb == u * HEALTH_OFFSET;
    assert u != 0;
  }

  /** A turn less than 250 ms late runs one phase and moves its deadline by one period. */
  lemma GridTurn(start: int, now: int, d: Deadlines, beats: nat, checks: nat)
    requires d.hb == start + (beats + 1) * HEARTBEAT_PERIOD
    requires d.health == start + HEALTH_OFFSET + checks * HEALTH_PERIOD
    requires now < d.hb + HEALTH_OFFSET && now < d.health + HEALTH_OFFSET
    ensures !(d.health <= now && d.hb <= now)
    ensures NextPhase(now, d).1 == Deadlines(
              if d.health <= now then start + HEALTH_OFFSET + (checks + 1) * HEALTH_PERIOD else d.health,
              if d.hb <= now then start + (beats + 2) * HEARTBEAT_PERIOD else d.hb)
  {
    OffGrid(start, d, beats, checks);
    OneMore(checks + 1, HEALTH_PERIOD);
    OneMore(beats + 2, HEARTBEAT_PERIOD);
  }

  /** With tick gaps up to `g`, every run of at least `b` after a deferral sends a heartbeat. */
  ghost predicate SendsWithin(g: int, b: int) {
    forall r: Turns ::
      |r.ticks| > 0 && r.GapsAtMost(g) && r.Deferred(0) && r.ticks[|r.ticks| - 1] >= r.ticks[0] + b
      ==> exists j :: 0 < j < |r.ticks| && r.PhaseAt(j) == HeartbeatPhase
  }

  /** A run that defers every heartbeat: from each deferral, one tick just before the 200 ms are
      over and the next 300 ms and one nanosecond later. */
  ghost function Starving(n: nat): Turns {
    Turns(Deadlines(0, 0), seq(2 * n + 1, i => StarvingTick(i)))
  }

  function StarvingTick(i: int): int {
    i / 2 * HEALTH_PERIOD + if i % 2 == 0 then 0 else DEFERRAL - 1
  }

  lemma StarvingGap(i: int)
    ensures StarvingTick(i) <= StarvingTick(i + 1) <= StarvingTick(i) + 300 * MS + 1
  {
    OneMore((i + 1) / 2, HEALTH_PERIOD);
  }

  lemma {:induction false} StarvingDefers(n: nat, k: nat)
    requires k <= 2 * n
    ensures Starving(n).PhaseAt(k) != HeartbeatPhase && (k % 2 == 0 ==> Starving(n).Deferred(k))
    ensures Starving(n).Before(k + 1) == Deadlines((k / 2 + 1) * HEALTH_PERIOD, k / 2 * HEALTH_PERIOD + DEFERRAL)
  {
    if k > 0 {
      StarvingDefers(n, k - 1);
    }
  }

  const BOUND: int := (HEALTH_PERIOD + 1) * HEALTH_PERIOD

  lemma SentWithinBound(r: Turns, g: int)
    requires 0 <= g <= 300 * MS
    requires |r.ticks| > 0 && r.GapsAtMost(g) && r.Deferred(0) && r.ticks[|r.ticks| - 1] >= r.ticks[0] + BOUND
    ensures exists j :: 0 < j < |r.ticks| && r.PhaseAt(j) == HeartbeatPhase
  {
    assert r.Slack(0) > 0;
    assert (HEALTH_PERIOD - r.Slack(0) + 1) * HEALTH_PERIOD <= BOUND;
    var j := r.HeartbeatFollows(0, g);
  }

  lemma StarvingGaps(n: nat, g: int)
    requires g > 300 * MS
    ensures Starving(n).GapsAtMost(g)
  {
    var r := Starving(n);
    forall i | 0 < i < |r.ticks|
      ensures r.ticks[i - 1] <= r.ticks[i] <= r.ticks[i - 1] + g
    {
      StarvingGap(i - 1);
    }
  }

  lemma StarvingEnd(n: nat)
    ensures |Starving(n).ticks| == 2 * n + 1 && Starving(n).ticks[0] == 0 && Starving(n).ticks[2 * n] >= n
  {
    assert Starving(n).ticks[2 * n] == StarvingTick(2 * n) == n * HEALTH_PERIOD;
  }

  lemma StarvingNeverSends(n: nat)
    ensures Starving(n).Deferred(0)
    ensures forall j :: 0 < j < |Starving(n).ticks| ==> Starving(n).PhaseAt(j) != HeartbeatPhase
  {
    StarvingDefers(n, 0);
    forall j | 0 < j < |Starving(n).ticks|
      ensures Starving(n).PhaseAt(j) != HeartbeatPhase
    {
      StarvingDefers(n, j);
    }
  }

  /** From the deferral at the first tick the run lasts `b` or longer and sends no heartbeat. */
  ghost predicate Starved(r: Turns, g: int, b: int) {
    && |r.ticks| > 0 && r.GapsAtMost(g) && r.Deferred(0) && r.ticks[|r.ticks| - 1] >= r.ticks[0] + b
    && forall j :: 0 < j < |r.ticks| ==> r.PhaseAt(j) != HeartbeatPhase
  }

  lemma OneStarved(r: Turns, g: int, b: int)
    requires Starved(r, g, b)
    ensures !SendsWithin(g, b)
  {
  }

  lemma StarvesAbove(g: int, b: int)
    requires g > 300 * MS
    ensures !SendsWithin(g, b)
  {
    var n: nat := if b < 0 then 0 else b;
    StarvingEnd(n);
    StarvingNeverSends(n);
    StarvingGaps(n, g);
    OneStarved(Starving(n), g, b);
  }

  /** The heartbeat cannot starve exactly when ticks are never more than 300 ms apart. */
  lemma StarvationThreshold(g: int)
    requires g >= 0
    ensures (exists b :: SendsWithin(g, b)) <==> g <= 300 * MS
  {
    if g <= 300 * MS {
      forall r: Turns | |r.ticks| > 0 && r.GapsAtMost(g) && r.Deferred(0) && r.ticks[|r.ticks| - 1] >= r.ticks[0] + BOUND
        ensures exists j :: 0 < j < |r.ticks| && r.PhaseAt(j) == HeartbeatPhase
      {
        SentWithinBound(r, g);
      }
      assert SendsWithin(g, BOUND);
    } else {
      forall b
        ensures !SendsWithin(g, b)
      {
        StarvesAbove(g, b);
      }
    }
  }
}
