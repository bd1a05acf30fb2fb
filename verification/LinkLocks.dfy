/** The two locks of the arbiter at the grain of single lock operations and shared accesses, for
    any number of threads. `txMu` is taken before `mu`; a transmission keeps `txMu` only. */
module LinkLocks {
  import opened Options
  import opened LinkStep
  import opened LinkArbiter
  import opened LinkRuns

  type Thread = nat

  datatype Op =
    | Note(event: Event)   // register, unregister, heartbeat: `mu` only
    | Health(now: int)     // evaluate: `txMu`, then `mu`
    | Transmit             // write or sendHeartbeat: `txMu`, then `mu` for the read
    | Ask                  // the locked read that ends observe: `mu` only
  {
    predicate NeedsTx() { Health? || Transmit? }
    predicate WellFormed() { Note? ==> !event.Evaluate? }
  }

  datatype PC =
    | Idle
    | WantTx(op: Op)
    | WantMu(op: Op)
    | InMu(op: Op)
    | Loaded(op: Op, seen: State)
    | Stored(op: Op, link: LinkID, channel: Option<Channel>, gen: nat, point: nat)
    | Sending(link: LinkID, over: Channel, gen: nat, point: nat)
    | Finishing
  {
    predicate HoldsMu() { InMu? || Loaded? || Stored? }

    predicate HoldsTx() {
      || Sending? || Finishing?
      || ((WantMu? || InMu? || Loaded? || Stored?) && op.NeedsTx())
    }
  }

  /** A completed transmission: the link, channel and generation it began with, how many operations
      had been committed by then, and the link and generation at its end. */
  datatype Sent = Sent(link: LinkID, channel: Channel, gen: nat, point: nat, endLink: LinkID, endGen: nat)

  /** What a reader was told, and how many operations had been committed by then. */
  datatype Answer = Answer(link: LinkID, gen: nat, point: nat)

  /** `log` and `past` record the operations committed so far and the shared states around them. */
  datatype Machine = Machine(
    cfg: Config,
    t0: int,
    shared: State,
    tx: Option<Thread>,
    mu: Option<Thread>,
    pcs: map<Thread, PC>,
    log: seq<Event>,
    past: seq<State>,
    sent: seq<Sent>,
    answers: seq<Answer>)
  {
    function Pc(t: Thread): PC {
      if t in pcs then pcs[t] else Idle
    }

    function Goto(t: Thread, pc: PC): Machine {
      this.(pcs := pcs[t := pc])
    }

    ghost function Committed(): Trace {
      Trace(cfg, t0, past + [shared], log)
    }
  }

  ghost predicate Init(m: Machine) {
    && Initial(m.shared, m.t0)
    && m.tx == None && m.mu == None && m.pcs == map[] && m.log == [] && m.past == [] && m.sent == [] && m.answers == []
  }

  /** Thread `t` can move: it is inside an operation and not waiting for a lock that is taken. */
  predicate Enabled(m: Machine, t: Thread) {
    var pc := m.Pc(t);
    !pc.Idle? && (pc.WantTx? ==> m.tx == None) && (pc.WantMu? ==> m.mu == None)
  }

  /** One step of thread `t`; an idle thread begins `begin`. */
  function Step(m: Machine, t: Thread, begin: Op): Machine
    requires m.Pc(t).Idle? || Enabled(m, t)
  {
    match m.Pc(t)
    case Idle => m.Goto(t, if begin.NeedsTx() then WantTx(begin) else WantMu(begin))
    case WantTx(op) => m.(tx := Some(t)).Goto(t, WantMu(op))
    case WantMu(op) => m.(mu := Some(t)).Goto(t, InMu(op))
    case InMu(op) => m.Goto(t, Loaded(op, m.shared))
    case Loaded(op, seen) => Store(m, op, seen).Goto(t, Stored(op, Target(seen).0, Target(seen).1, seen.gen, |m.log|))
    case Stored(op, link, channel, gen, point) =>
      m.(mu := None).Goto(t, if !op.NeedsTx() then Idle
                             else if op.Transmit? && channel.Some? then Sending(link, channel.value, gen, point)
                             else Finishing)
    case Sending(link, channel, gen, point) =>
      m.(sent := m.sent + [Sent(link, channel, gen, point, m.shared.snap.active, m.shared.gen)]).Goto(t, Finishing)
    case Finishing => m.(tx := None).Goto(t, Idle)
  }

  /** The write half of a critical section, computed from what was read on entering it. */
  function Store(m: Machine, op: Op, seen: State): Machine {
    match op
    case Note(e) => Commit(m, seen, e)
    case Health(now) => Commit(m, seen, Evaluate(now))
    case Transmit => m
    case Ask => m.(answers := m.answers + [Answer(seen.snap.active, seen.gen, |m.log|)])
  }

  function Commit(m: Machine, seen: State, e: Event): Machine {
    m.(shared := Apply(m.cfg, seen, e), log := m.log + [e], past := m.past + [m.shared])
  }

  predicate StepsBy(m: Machine, m': Machine, t: Thread, begin: Op) {
    begin.WellFormed() && (m.Pc(t).Idle? || Enabled(m, t)) && m' == Step(m, t, begin)
  }

  ghost predicate Next(m: Machine, m': Machine) {
    exists t: Thread, begin: Op :: StepsBy(m, m', t, begin)
  }

  ghost predicate Behaviour(b: seq<Machine>) {
    |b| > 0 && Init(b[0]) && forall i :: 0 < i < |b| ==> Next(b[i - 1], b[i])
  }

  /** Each lock is held by exactly the thread whose program point says so. */
  ghost predicate Owners(m: Machine) {
    forall t: Thread :: OwnsRightly(m, t)
  }

  predicate OwnsRightly(m: Machine, t: Thread) {
    && (m.Pc(t).HoldsTx() <==> m.tx == Some(t))
    && (m.Pc(t).HoldsMu() <==> m.mu == Some(t))
    && (m.Pc(t).WantTx? ==> m.Pc(t).op.NeedsTx())
    && (!m.Pc(t).Idle? && !m.Pc(t).Sending? && !m.Pc(t).Finishing? ==> m.Pc(t).op.WellFormed())
  }

  /** What a thread read is still so: the whole state under `mu`, the active link under `txMu`. */
  ghost predicate Frozen(m: Machine) {
    forall t: Thread ::
      match m.Pc(t)
      case Loaded(_, seen) => seen == m.shared
      case Stored(op, link, _, gen, _) => op.Transmit? ==> link == m.shared.snap.active && gen == m.shared.gen
      case Sending(link, _, gen, _) => link == m.shared.snap.active && gen == m.shared.gen
      case _ => true
  }

  /** The shared state is that of the sequential run of the committed operations. */
  ghost predicate Linearised(m: Machine) {
    m.Committed().Started()
  }

  ghost predicate SentInEpochs(m: Machine) {
    && (forall i :: 0 <= i < |m.sent| ==>
          && m.sent[i].link == m.sent[i].endLink && m.sent[i].gen == m.sent[i].endGen
          && m.sent[i].gen <= m.shared.gen
          && (m.sent[i].gen == m.shared.gen ==> m.sent[i].link == m.shared.snap.active))
    && (forall i, j :: 0 <= i < j < |m.sent| ==>
          && m.sent[i].gen <= m.sent[j].gen
          && (m.sent[i].gen == m.sent[j].gen ==> m.sent[i].link == m.sent[j].link))
  }

  lemma CommitLinearised(m: Machine, e: Event)
    requires Linearised(m)
    ensures Linearised(Commit(m, m.shared, e)) && SnapInv(m.shared.snap, m.cfg.loss)
  {
    var tr, tr' := m.Committed(), Commit(m, m.shared, e).Committed();
    tr.InvAt(|m.log|);
    forall k | 0 <= k < |tr'.es|
      ensures Moves(m.cfg, tr'.states[k], tr'.es[k], tr'.states[k + 1])
    {
      if k < |tr.es| {
        assert Moves(m.cfg, tr.states[k], tr.es[k], tr.states[k + 1]);
      }
    }
  }

  lemma StepOwners(m: Machine, t: Thread, begin: Op)
    requires Owners(m) && begin.WellFormed() && (m.Pc(t).Idle? || Enabled(m, t))
    ensures Owners(Step(m, t, begin))
  {
    var m' := Step(m, t, begin);
    forall u: Thread
      ensures OwnsRightly(m', u)
    {
      assert OwnsRightly(m, u) && OwnsRightly(m, t);
      assert u != t ==> m'.Pc(u) == m.Pc(u);
    }
  }

  /** A critical section moves the active link only while it holds both locks. */
  lemma StoreKeepsLink(m: Machine, t: Thread)
    requires Owners(m) && Frozen(m) && Linearised(m) && m.Pc(t).Loaded?
    ensures var m' := Store(m, m.Pc(t).op, m.Pc(t).seen);
            && Linearised(m')
            && m.shared.gen <= m'.shared.gen
            && (m'.shared.gen == m.shared.gen <==> m'.shared.snap.active == m.shared.snap.active)
            && (m'.shared.gen != m.shared.gen ==> m.Pc(t).op.Health?)
  {
    assert OwnsRightly(m, t);
    match m.Pc(t).op {
      case Note(e) =>
        CommitLinearised(m, e);
        ApplyMovesBoth(m.cfg, m.shared, e);
      case Health(now) =>
        CommitLinearised(m, Evaluate(now));
        ApplyMovesBoth(m.cfg, m.shared, Evaluate(now));
      case Transmit =>
      case Ask =>
    }
  }

  lemma StepFrozen(m: Machine, t: Thread, begin: Op)
    requires Owners(m) && Frozen(m) && Linearised(m)
    requires m.Pc(t).Idle? || Enabled(m, t)
    ensures Frozen(Step(m, t, begin))
  {
    var m' := Step(m, t, begin);
    if m.Pc(t).Loaded? {
      StoreKeepsLink(m, t);
    }
    forall u: Thread
      ensures match m'.Pc(u)
              case Loaded(_, seen) => seen == m'.shared
              case Stored(op, link, _, gen, _) => op.Transmit? ==> link == m'.shared.snap.active && gen == m'.shared.gen
              case Sending(link, _, gen, _) => link == m'.shared.snap.active && gen == m'.shared.gen
              case _ => true
    {
      assert u != t ==> m'.Pc(u) == m.Pc(u);
      assert OwnsRightly(m, u) && OwnsRightly(m, t);
    }
  }

  lemma StepKeepsHistory(m: Machine, t: Thread, begin: Op)
    requires Owners(m) && Frozen(m) && Linearised(m) && SentInEpochs(m)
    requires m.Pc(t).Idle? || Enabled(m, t)
    ensures Linearised(Step(m, t, begin)) && SentInEpochs(Step(m, t, begin))
  {
    if m.Pc(t).Loaded? {
      StoreKeepsLink(m, t);
    }
  }

  lemma {:induction false} Invariant(b: seq<Machine>, i: nat)
    requires Behaviour(b) && i < |b|
    ensures Owners(b[i]) && Frozen(b[i]) && Linearised(b[i]) && SentInEpochs(b[i])
  {
    if i > 0 {
      Invariant(b, i - 1);
      var t: Thread, begin: Op :| StepsBy(b[i - 1], b[i], t, begin);
      StepOwners(b[i - 1], t, begin);
      StepFrozen(b[i - 1], t, begin);
      StepKeepsHistory(b[i - 1], t, begin);
    }
  }

  /** However threads interleave, the operations committed so far form a run of the arbiter that
      ends in the shared state: all that holds of runs holds under the locks. */
  lemma InterleavingsAreRuns(b: seq<Machine>, i: nat)
    requires Behaviour(b) && i < |b|
    ensures b[i].Committed().Started() && b[i].Committed().states[|b[i].log|] == b[i].shared
  {
    Invariant(b, i);
  }

  // ---- One supervisor makes the health checks ----

  /** A health check that has begun and is not committed yet. */
  predicate Pending(pc: PC) {
    (pc.WantTx? || pc.WantMu? || pc.InMu? || pc.Loaded?) && pc.op.Health?
  }

  /** Only thread `h` makes health checks, and it stamps one begun now with `stamp`. */
  ghost predicate SupervisedNext(m: Machine, m': Machine, h: Thread, stamp: int) {
    exists t: Thread, begin: Op ::
      StepsBy(m, m', t, begin) && (m.Pc(t).Idle? && begin.Health? ==> t == h && begin.now == stamp)
  }

  /** A behaviour whose health checks all come from thread `h`, stamped by a ticker that does not
      go back: `stamps[i]` is its time at the `i`-th step. */
  ghost predicate Supervised(b: seq<Machine>, h: Thread, stamps: seq<int>) {
    && |b| > 0 && Init(b[0]) && |stamps| == |b|
    && b[0].t0 <= stamps[0]
    && (forall i :: 0 < i < |b| ==> stamps[i - 1] <= stamps[i] && SupervisedNext(b[i - 1], b[i], h, stamps[i]))
  }

  /** Times of health checks in `log` lie between `lo` and `hi`. */
  ghost predicate StampedWithin(log: seq<Event>, lo: int, hi: int) {
    forall i :: 0 <= i < |log| && log[i].Evaluate? ==> lo <= log[i].now <= hi
  }

  ghost predicate StampsOrdered(log: seq<Event>) {
    forall i, j :: 0 <= i < j < |log| && log[i].Evaluate? && log[j].Evaluate? ==> log[i].now <= log[j].now
  }

  /** The committed checks are in order up to now, and a pending one comes after them. */
  ghost predicate Ordered(m: Machine, h: Thread, now: int) {
    && StampedWithin(m.log, m.t0, now) && StampsOrdered(m.log)
    && (forall t: Thread :: Pending(m.Pc(t)) ==>
          t == h && m.t0 <= m.Pc(t).op.now <= now && StampedWithin(m.log, m.t0, m.Pc(t).op.now))
  }

  /** A step that commits no health check and begins none. */
  lemma OrderKept(m: Machine, m': Machine, t: Thread, h: Thread, now: int, stamp: int)
    requires Ordered(m, h, now) && now <= stamp && m'.t0 == m.t0
    requires forall u: Thread :: u != t ==> m'.Pc(u) == m.Pc(u)
    requires m'.log == m.log || (exists e: Event :: !e.Evaluate? && m'.log == m.log + [e])
    requires Pending(m'.Pc(t)) ==> Pending(m.Pc(t)) && m'.Pc(t).op == m.Pc(t).op
    ensures Ordered(m', h, stamp)
  {
    forall u: Thread | Pending(m'.Pc(u))
      ensures u == h && m'.t0 <= m'.Pc(u).op.now <= stamp && StampedWithin(m'.log, m'.t0, m'.Pc(u).op.now)
    {
      assert Pending(m.Pc(u));
    }
  }

  /** The health check of `h` is committed. */
  lemma CheckCommitted(m: Machine, m': Machine, h: Thread, now: int, stamp: int)
    requires Ordered(m, h, now) && now <= stamp && m'.t0 == m.t0 && Pending(m.Pc(h)) && !Pending(m'.Pc(h))
    requires forall u: Thread :: u != h ==> m'.Pc(u) == m.Pc(u)
    requires m'.log == m.log + [Evaluate(m.Pc(h).op.now)]
    ensures Ordered(m', h, stamp)
  {
    forall u: Thread
      ensures !Pending(m'.Pc(u))
    {
      assert u != h ==> !Pending(m.Pc(u));
    }
  }

  /** A health check is begun by `h`, which had none pending. */
  lemma CheckBegun(m: Machine, m': Machine, h: Thread, now: int, stamp: int)
    requires Ordered(m, h, now) && m.t0 <= now <= stamp && m'.t0 == m.t0 && m'.log == m.log
    requires forall u: Thread :: u != h ==> m'.Pc(u) == m.Pc(u)
    requires Pending(m'.Pc(h)) && m'.Pc(h).op.now == stamp
    ensures Ordered(m', h, stamp)
  {
    forall u: Thread | Pending(m'.Pc(u))
      ensures u == h
    {
      assert u != h ==> Pending(m.Pc(u));
    }
  }

  lemma StepOrdered(m: Machine, t: Thread, begin: Op, h: Thread, now: int, stamp: int)
    requires Ordered(m, h, now) && m.t0 <= now <= stamp && Owners(m)
    requires m.Pc(t).Idle? || Enabled(m, t)
    requires m.Pc(t).Idle? && begin.Health? ==> t == h && begin.now == stamp
    ensures Ordered(Step(m, t, begin), h, stamp)
  {
    var m' := Step(m, t, begin);
    if m.Pc(t).Idle? && begin.Health? {
      CheckBegun(m, m', h, now, stamp);
    } else if m.Pc(t).Loaded? && m.Pc(t).op.Health? {
      assert Pending(m.Pc(t));
      CheckCommitted(m, m', h, now, stamp);
    } else {
      assert OwnsRightly(m, t);
      OrderKept(m, m', t, h, now, stamp);
    }
  }

  lemma NextOrdered(m: Machine, m': Machine, h: Thread, now: int, stamp: int)
    requires SupervisedNext(m, m', h, stamp) && Ordered(m, h, now) && m.t0 <= now <= stamp && Owners(m)
    ensures Next(m, m') && m'.t0 == m.t0 && Ordered(m', h, stamp)
  {
    var t: Thread, begin: Op :|
      StepsBy(m, m', t, begin) && (m.Pc(t).Idle? && begin.Health? ==> t == h && begin.now == stamp);
    StepOrdered(m, t, begin, h, now, stamp);
  }

  lemma SupervisedBehaves(b: seq<Machine>, h: Thread, stamps: seq<int>)
    requires Supervised(b, h, stamps)
    ensures Behaviour(b)
  {
    forall i | 0 < i < |b|
      ensures Next(b[i - 1], b[i])
    {
      assert SupervisedNext(b[i - 1], b[i], h, stamps[i]);
    }
  }

  lemma {:induction false} SupervisedOrdered(b: seq<Machine>, h: Thread, stamps: seq<int>, i: nat)
    requires Supervised(b, h, stamps) && i < |b|
    ensures b[i].t0 <= stamps[i] && Ordered(b[i], h, stamps[i])
  {
    if i > 0 {
      SupervisedOrdered(b, h, stamps, i - 1);
      SupervisedBehaves(b, h, stamps);
      Invariant(b, i - 1);
      NextOrdered(b[i - 1], b[i], h, stamps[i - 1], stamps[i]);
    }
  }

  /** Under the locks, with one supervisor, the committed operations form a run with its health
      checks in order of time. */
  lemma InterleavingsAreTimed(b: seq<Machine>, h: Thread, stamps: seq<int>, i: nat)
    requires Supervised(b, h, stamps) && i < |b|
    ensures b[i].Committed().Started() && b[i].Committed().Timed()
  {
    SupervisedOrdered(b, h, stamps, i);
    SupervisedBehaves(b, h, stamps);
    Invariant(b, i);
  }

  /** However the threads interleave, a window of length T holds at most 1 + floor(T / loss)
      Ethernet recoveries. */
  lemma RecoveryRateUnderLocks(b: seq<Machine>, h: Thread, stamps: seq<int>, i: nat, from: int, to: int)
    requires Supervised(b, h, stamps) && i < |b| && from <= to
    ensures b[i].Committed().Started() && |b[i].past| == |b[i].log|
    ensures b[i].Committed().RecoveriesIn(|b[i].log|, from, to) <= 1 + (to - from) / EffectiveLoss(b[i].cfg.loss)
  {
    InterleavingsAreTimed(b, h, stamps, i);
    b[i].Committed().RecoveryRate(from, to);
  }

  // ---- An operation that is not disturbed ----

  /** Thread `t` steps on its own until it is idle again; `n` steps are enough. */
  function Finish(m: Machine, t: Thread, n: nat): Machine
    decreases n
  {
    if n == 0 || !Enabled(m, t) then m else Finish(Step(m, t, Ask), t, n - 1)
  }

  /** What an operation does when no other thread comes between: a transmission sends over the
      channel of the active link if there is one, an event or a health check is applied, a reader is
      told the active link and the generation; and every lock is given back. */
  lemma AloneCompletes(m: Machine, t: Thread, op: Op)
    requires m.Pc(t).Idle? && m.tx == None && m.mu == None
    ensures var m' := Finish(Step(m, t, op), t, 7);
            && m'.Pc(t).Idle? && m'.tx == None && m'.mu == None
            && m'.shared == (match op
                             case Note(e) => Apply(m.cfg, m.shared, e)
                             case Health(now) => Apply(m.cfg, m.shared, Evaluate(now))
                             case _ => m.shared)
            && var (link, channel) := Target(m.shared);
            && m'.sent == (if op.Transmit? && channel.Some?
                           then m.sent + [Sent(link, channel.value, m.shared.gen, |m.log|, link, m.shared.gen)] else m.sent)
            && m'.answers == (if op.Ask? then m.answers + [Answer(link, m.shared.gen, |m.log|)] else m.answers)
  {
    var m1 := Step(m, t, op);
    if op.NeedsTx() {
      FinishOne(m1, t, 7);
      AloneUnderTx(Step(m1, t, Ask), t, op);
    } else {
      AloneUnderMu(m1, t, op, 7);
    }
  }

  lemma FinishOne(m: Machine, t: Thread, n: nat)
    requires n > 0 && Enabled(m, t)
    ensures Finish(m, t, n) == Finish(Step(m, t, Ask), t, n - 1)
  {
  }

  lemma GotoTwice(m: Machine, t: Thread, a: PC, b: PC)
    ensures m.Goto(t, a).Goto(t, b) == m.Goto(t, b) && m.Goto(t, a).Pc(t) == a
  {
    assert m.pcs[t := a][t := b] == m.pcs[t := b];
  }

  /** Taking `mu` and reading. */
  lemma LoadsUnderMu(m: Machine, t: Thread, op: Op, n: nat)
    requires m.Pc(t) == WantMu(op) && m.mu == None && n >= 2
    ensures Finish(m, t, n) == Finish(m.(mu := Some(t)).Goto(t, Loaded(op, m.shared)), t, n - 2)
  {
    FinishOne(m, t, n);
    var m1 := Step(m, t, Ask);
    FinishOne(m1, t, n - 1);
    GotoTwice(m.(mu := Some(t)), t, InMu(op), Loaded(op, m.shared));
  }

  function StoredPC(m: Machine, op: Op): PC {
    Stored(op, Target(m.shared).0, Target(m.shared).1, m.shared.gen, |m.log|)
  }

  /** Writing and giving `mu` back. */
  lemma StoresUnderMu(m: Machine, t: Thread, op: Op, n: nat)
    requires m.Pc(t) == Loaded(op, m.shared) && n >= 2
    ensures Finish(m, t, n) == Finish(Step(Store(m, op, m.shared).Goto(t, StoredPC(m, op)), t, Ask), t, n - 2)
  {
    FinishOne(m, t, n);
    FinishOne(Step(m, t, Ask), t, n - 1);
  }

  /** The section under `mu`, from waiting for it to having given it back. */
  lemma ThroughMu(m: Machine, t: Thread, op: Op, n: nat)
    requires m.Pc(t) == WantMu(op) && m.mu == None && n >= 4
    ensures Finish(m, t, n) == Finish(Step(Store(m, op, m.shared).(mu := Some(t)).Goto(t, StoredPC(m, op)), t, Ask), t, n - 4)
  {
    LoadsUnderMu(m, t, op, n);
    var m2 := m.(mu := Some(t)).Goto(t, Loaded(op, m.shared));
    StoresUnderMu(m2, t, op, n - 2);
    StoreMoves(m, t, op);
  }

  /** What is stored does not depend on the locks or on where the thread is. */
  lemma StoreMoves(m: Machine, t: Thread, op: Op)
    ensures var m2 := m.(mu := Some(t)).Goto(t, Loaded(op, m.shared));
            Store(m2, op, m.shared).Goto(t, StoredPC(m2, op)) == Store(m, op, m.shared).(mu := Some(t)).Goto(t, StoredPC(m, op))
  {
    GotoTwice(Store(m, op, m.shared).(mu := Some(t)), t, Loaded(op, m.shared), StoredPC(m, op));
  }

  lemma AloneUnderMu(m: Machine, t: Thread, op: Op, n: nat)
    requires m.Pc(t) == WantMu(op) && m.mu == None && m.tx == None && !op.NeedsTx() && n >= 4
    ensures var m' := Finish(m, t, n);
            && m'.Pc(t).Idle? && m'.tx == None && m'.mu == None && m'.sent == m.sent
            && m'.shared == (if op.Note? then Apply(m.cfg, m.shared, op.event) else m.shared)
            && m'.answers == (if op.Ask? then m.answers + [Answer(Target(m.shared).0, m.shared.gen, |m.log|)] else m.answers)
  {
    ThroughMu(m, t, op, n);
  }

  lemma AloneUnderTx(m: Machine, t: Thread, op: Op)
    requires m.Pc(t) == WantMu(op) && m.mu == None && m.tx == Some(t) && op.NeedsTx()
    ensures var m' := Finish(m, t, 6);
            && m'.Pc(t).Idle? && m'.tx == None && m'.mu == None && m'.answers == m.answers
            && m'.shared == (if op.Health? then Apply(m.cfg, m.shared, Evaluate(op.now)) else m.shared)
            && var (link, channel) := Target(m.shared);
            m'.sent == (if op.Transmit? && channel.Some?
                        then m.sent + [Sent(link, channel.value, m.shared.gen, |m.log|, link, m.shared.gen)] else m.sent)
  {
    ThroughMu(m, t, op, 6);
    var after := Store(m, op, m.shared).(mu := Some(t));
    var m1 := Step(after.Goto(t, StoredPC(m, op)), t, Ask);
    ReleasesMu(after, t, StoredPC(m, op));
    if m1.Pc(t).Sending? {
      SendsAlone(m1, t);
    } else {
      EndsAlone(m1, t);
    }
  }

  lemma ReleasesMu(m: Machine, t: Thread, pc: PC)
    requires pc.Stored? && pc.op.NeedsTx()
    ensures var m' := Step(m.Goto(t, pc), t, Ask);
            && m'.mu == None && m'.tx == m.tx && m'.shared == m.shared && m'.sent == m.sent && m'.answers == m.answers
            && m'.Pc(t) == if pc.op.Transmit? && pc.channel.Some? then Sending(pc.link, pc.channel.value, pc.gen, pc.point) else Finishing
  {
    GotoTwice(m.(mu := None), t, pc, Finishing);
  }

  lemma EndsAlone(m: Machine, t: Thread)
    requires m.Pc(t).Finishing? && m.tx == Some(t)
    ensures var m' := Finish(m, t, 2);
            && m'.Pc(t).Idle? && m'.tx == None && m'.mu == m.mu && m'.shared == m.shared && m'.answers == m.answers && m'.sent == m.sent
  {
    FinishOne(m, t, 2);
  }

  lemma SendsAlone(m: Machine, t: Thread)
    requires m.Pc(t).Sending? && m.tx == Some(t)
    ensures var (m', pc) := (Finish(m, t, 2), m.Pc(t));
            && m'.Pc(t).Idle? && m'.tx == None && m'.mu == m.mu && m'.shared == m.shared && m'.answers == m.answers
            && m'.sent == m.sent + [Sent(pc.link, pc.over, pc.gen, pc.point, m.shared.snap.active, m.shared.gen)]
  {
    FinishOne(m, t, 2);
    FinishOne(Step(m, t, Ask), t, 1);
  }

  // ---- What readers are told ----

  /** Every answer is that of the point of the run it was given at, and they come in order. */
  ghost predicate AnswersOfRun(m: Machine) {
    && |m.past| == |m.log|
    && (forall i :: 0 <= i < |m.answers| ==> AnswerOf(m, m.answers[i]))
    && (forall i, j :: 0 <= i < j < |m.answers| ==> m.answers[i].point <= m.answers[j].point)
  }

  ghost predicate AnswerOf(m: Machine, a: Answer)
    requires |m.past| == |m.log|
  {
    var states := m.past + [m.shared];
    a.point <= |m.log| && states[a.point].snap.active == a.link && states[a.point].gen == a.gen
  }

  lemma StepAnswers(m: Machine, t: Thread, begin: Op)
    requires Frozen(m) && AnswersOfRun(m) && (m.Pc(t).Idle? || Enabled(m, t))
    ensures AnswersOfRun(Step(m, t, begin))
  {
    var m' := Step(m, t, begin);
    StepExtends(m, t, begin);
    forall i | 0 <= i < |m.answers|
      ensures AnswerOf(m', m.answers[i])
    {
      AnswerKept(m, m', m.answers[i]);
    }
  }

  /** A step adds at most one state to the run so far. */
  lemma StepExtends(m: Machine, t: Thread, begin: Op)
    requires Frozen(m) && |m.past| == |m.log| && (m.Pc(t).Idle? || Enabled(m, t))
    ensures var m' := Step(m, t, begin);
            |m'.past| == |m'.log| && m.past + [m.shared] <= m'.past + [m'.shared]
  {
  }

  lemma AnswerKept(m: Machine, m': Machine, a: Answer)
    requires |m.past| == |m.log| && |m'.past| == |m'.log| && m.past + [m.shared] <= m'.past + [m'.shared]
    requires AnswerOf(m, a)
    ensures AnswerOf(m', a)
  {
    assert (m.past + [m.shared])[a.point] == (m'.past + [m'.shared])[a.point];
  }

  lemma {:induction false} AnswersAlong(b: seq<Machine>, i: nat)
    requires Behaviour(b) && i < |b|
    ensures AnswersOfRun(b[i])
  {
    if i > 0 {
      AnswersAlong(b, i - 1);
      Invariant(b, i - 1);
      var t: Thread, begin: Op :| StepsBy(b[i - 1], b[i], t, begin);
      StepAnswers(b[i - 1], t, begin);
    }
  }

  /** However threads interleave, a reader's answer is the active link and generation at one point
      of the run, and later answers are of later points. */
  lemma AnswersArePoints(b: seq<Machine>, n: nat, i: nat, j: nat)
    requires Behaviour(b) && n < |b| && i <= j < |b[n].answers|
    ensures var (run, a) := (b[n].Committed(), b[n].answers[i]);
            && run.Started() && a.point < |run.states|
            && run.states[a.point].snap.active == a.link && run.states[a.point].gen == a.gen
    ensures b[n].answers[i].point <= b[n].answers[j].point
  {
    AnswersAlong(b, n);
    Invariant(b, n);
    assert AnswerOf(b[n], b[n].answers[i]);
  }

  // ---- Which channel a transmission uses ----

  /** At that point of the run, a transmission's link was active and the channel its channel. */
  ghost predicate TargetAt(m: Machine, point: nat, link: LinkID, channel: Channel)
    requires |m.past| == |m.log|
  {
    point <= |m.log| && Target((m.past + [m.shared])[point]) == (link, Some(channel))
  }

  /** So it is of every transmission that has been read, is under way or is complete. */
  ghost predicate TargetsOfRun(m: Machine) {
    && |m.past| == |m.log|
    && (forall i :: 0 <= i < |m.sent| ==> TargetAt(m, m.sent[i].point, m.sent[i].link, m.sent[i].channel))
    && (forall t: Thread :: TargetHeld(m, t))
  }

  ghost predicate TargetHeld(m: Machine, t: Thread)
    requires |m.past| == |m.log|
  {
    match m.Pc(t)
    case Stored(op, link, channel, _, point) => op.Transmit? && channel.Some? ==> TargetAt(m, point, link, channel.value)
    case Sending(link, channel, _, point) => TargetAt(m, point, link, channel)
    case _ => true
  }

  lemma TargetKept(m: Machine, m': Machine, point: nat, link: LinkID, channel: Channel)
    requires |m.past| == |m.log| && |m'.past| == |m'.log| && m.past + [m.shared] <= m'.past + [m'.shared]
    requires TargetAt(m, point, link, channel)
    ensures TargetAt(m', point, link, channel)
  {
    assert (m.past + [m.shared])[point] == (m'.past + [m'.shared])[point];
  }

  lemma HeldKept(m: Machine, m': Machine, u: Thread)
    requires |m.past| == |m.log| && |m'.past| == |m'.log| && m.past + [m.shared] <= m'.past + [m'.shared]
    requires TargetHeld(m, u) && m'.Pc(u) == m.Pc(u)
    ensures TargetHeld(m', u)
  {
    match m.Pc(u)
    case Stored(op, link, channel, _, point) =>
      if op.Transmit? && channel.Some? {
        TargetKept(m, m', point, link, channel.value);
      }
    case Sending(link, channel, _, point) => TargetKept(m, m', point, link, channel);
    case _ =>
  }

  lemma MoverHeld(m: Machine, t: Thread, begin: Op)
    requires Frozen(m) && TargetsOfRun(m) && (m.Pc(t).Idle? || Enabled(m, t))
    ensures |Step(m, t, begin).past| == |Step(m, t, begin).log| && TargetHeld(Step(m, t, begin), t)
  {
    var m' := Step(m, t, begin);
    StepExtends(m, t, begin);
    assert TargetHeld(m, t);
    if m.Pc(t).Stored? && m'.Pc(t).Sending? {
      TargetKept(m, m', m.Pc(t).point, m.Pc(t).link, m.Pc(t).channel.value);
    }
  }

  lemma StepTargets(m: Machine, t: Thread, begin: Op)
    requires Frozen(m) && TargetsOfRun(m) && (m.Pc(t).Idle? || Enabled(m, t))
    ensures TargetsOfRun(Step(m, t, begin))
  {
    var m' := Step(m, t, begin);
    StepExtends(m, t, begin);
    MoverHeld(m, t, begin);
    forall u: Thread
      ensures TargetHeld(m', u)
    {
      if u != t {
        HeldKept(m, m', u);
      }
    }
    forall i | 0 <= i < |m'.sent|
      ensures TargetAt(m', m'.sent[i].point, m'.sent[i].link, m'.sent[i].channel)
    {
      if i == |m.sent| {
        assert TargetHeld(m, t);
      }
      TargetKept(m, m', m'.sent[i].point, m'.sent[i].link, m'.sent[i].channel);
    }
  }

  lemma {:induction false} TargetsAlong(b: seq<Machine>, i: nat)
    requires Behaviour(b) && i < |b|
    ensures TargetsOfRun(b[i])
  {
    if i > 0 {
      TargetsAlong(b, i - 1);
      Invariant(b, i - 1);
      var t: Thread, begin: Op :| StepsBy(b[i - 1], b[i], t, begin);
      StepTargets(b[i - 1], t, begin);
    }
  }

  /** However threads interleave, a completed transmission went out on the channel that was attached
      to the active link when it read it, and that channel belongs to the link by its endpoint. */
  lemma SentOnOwnChannel(b: seq<Machine>, n: nat, i: nat)
    requires Behaviour(b) && n < |b| && i < |b[n].sent|
    ensures var (run, s) := (b[n].Committed(), b[n].sent[i]);
            && run.Started() && s.point <= |run.es| && s.link != NO_LINK
            && s.link == run.states[s.point].snap.active && run.Attached(s.point, s.link) == Some(s.channel)
            && ((forall j :: 0 < j < 4 && run.states[0].ch[j].Some? ==> Serves(run.cfg, run.states[0].ch[j].value, j))
                ==> Serves(run.cfg, s.channel, s.link))
  {
    TargetsAlong(b, n);
    Invariant(b, n);
    var run, s := b[n].Committed(), b[n].sent[i];
    assert TargetAt(b[n], s.point, s.link, s.channel);
    run.InvAt(s.point);
    run.AttachedExact(s.point, s.link);
    if forall j :: 0 < j < 4 && run.states[0].ch[j].Some? ==> Serves(run.cfg, run.states[0].ch[j].value, j) {
      run.TargetServes(s.point);
    }
  }

  /** A transmission in progress is on the link that is active now. */
  lemma SendsOnActiveLink(b: seq<Machine>, n: nat, t: Thread)
    requires Behaviour(b) && n < |b| && b[n].Pc(t).Sending?
    ensures b[n].Pc(t).link == b[n].shared.snap.active && b[n].Pc(t).gen == b[n].shared.gen
  {
    Invariant(b, n);
  }

  /** A completed transmission ended in the generation and on the link it began with; switches cut
      the transmissions into epochs, in order, and within one epoch they all use one link. */
  lemma OneLinkPerEpoch(b: seq<Machine>, n: nat, i: nat, j: nat)
    requires Behaviour(b) && n < |b| && i <= j < |b[n].sent|
    ensures b[n].sent[i].endLink == b[n].sent[i].link && b[n].sent[i].endGen == b[n].sent[i].gen
    ensures b[n].sent[i].gen <= b[n].sent[j].gen
    ensures b[n].sent[i].link != b[n].sent[j].link ==> b[n].sent[i].gen < b[n].sent[j].gen
  {
    Invariant(b, n);
  }

  /** While any thread is inside an operation, some thread can move. */
  lemma NoDeadlock(b: seq<Machine>, i: nat, t: Thread) returns (mover: Thread)
    requires Behaviour(b) && i < |b| && !b[i].Pc(t).Idle?
    ensures Enabled(b[i], mover)
  {
    Invariant(b, i);
    mover := if b[i].mu.Some? then b[i].mu.value else if b[i].tx.Some? then b[i].tx.value else t;
    assert OwnsRightly(b[i], mover) && OwnsRightly(b[i], t);
  }
}
