/** The uplink runs are those of the locks: whatever the threads do, the operations committed on the
    arbiter and the answers its readers get form a run of arbiter and reader together. */
module UplinkLocks {
  import opened LinkStep
  import opened LinkArbiter
  import opened UplinkReader
  import LinkLocks

  /** The frame a reader asks about, and what it finds around it. */
  datatype Query = Query(f: Frame, env: Env)

  /** What the arbiter answered in the first `k` steps of a run. */
  ghost function Told(u: Uplink, k: nat): seq<(LinkID, nat)>
    requires |u.states| == |u.steps| + 1 && k <= |u.steps|
  {
    if k == 0 then []
    else if u.steps[k - 1].Arbiter? then Told(u, k - 1)
    else Told(u, k - 1) + [(u.states[k - 1].arb.snap.active, u.states[k - 1].arb.gen)]
  }

  /** The arbiter events of the first `k` steps. */
  ghost function Events(u: Uplink, k: nat): seq<Event>
    requires k <= |u.steps|
  {
    if k == 0 then []
    else if u.steps[k - 1].Arbiter? then Events(u, k - 1) + [u.steps[k - 1].e]
    else Events(u, k - 1)
  }

  /** The frames that arrived in the first `k` steps. */
  ghost function Asked(u: Uplink, k: nat): seq<Query>
    requires k <= |u.steps|
  {
    if k == 0 then []
    else if u.steps[k - 1].Arbiter? then Asked(u, k - 1)
    else Asked(u, k - 1) + [Query(u.steps[k - 1].f, u.steps[k - 1].env)]
  }

  ghost function First(queries: nat -> Query, n: nat): seq<Query> {
    if n == 0 then [] else First(queries, n - 1) + [queries(n - 1)]
  }

  ghost function Answered(answers: seq<LinkLocks.Answer>): (r: seq<(LinkID, nat)>)
    ensures |r| == |answers|
  {
    seq(|answers|, i requires 0 <= i < |answers| => (answers[i].link, answers[i].gen))
  }

  /** The run has the machine's arbiter, its committed operations, and its answers to these queries,
      in order. */
  ghost predicate Mirrors(u: Uplink, m: LinkLocks.Machine, queries: nat -> Query) {
    && u.Started() && u.cfg == m.cfg && u.t0 == m.t0
    && u.states[|u.steps|].arb == m.shared
    && Events(u, |u.steps|) == m.log
    && Told(u, |u.steps|) == Answered(m.answers)
    && Asked(u, |u.steps|) == First(queries, |m.answers|)
  }

  ghost function Extended(u: Uplink, step: Step): Uplink
    requires |u.states| == |u.steps| + 1
  {
    u.(states := u.states + [Next(u.cfg, u.states[|u.steps|], step)], steps := u.steps + [step])
  }

  lemma ExtendedStarts(u: Uplink, step: Step)
    requires u.Started()
    ensures Extended(u, step).Started()
  {
    var v := Extended(u, step);
    forall k | 0 <= k < |v.steps|
      ensures Goes(v.cfg, v.states[k], v.steps[k], v.states[k + 1])
    {
      if k < |u.steps| {
        assert Goes(u.cfg, u.states[k], u.steps[k], u.states[k + 1]);
      }
    }
  }

  lemma {:induction false} ExtendedKeeps(u: Uplink, step: Step, k: nat)
    requires |u.states| == |u.steps| + 1 && k <= |u.steps|
    ensures Told(Extended(u, step), k) == Told(u, k) && Events(Extended(u, step), k) == Events(u, k)
    ensures Asked(Extended(u, step), k) == Asked(u, k)
  {
    if k > 0 {
      ExtendedKeeps(u, step, k - 1);
    }
  }

  /** An operation committed under the lock is a step of the run. */
  lemma CommitMirrored(u: Uplink, m: LinkLocks.Machine, queries: nat -> Query, e: Event)
    requires Mirrors(u, m, queries)
    ensures Mirrors(Extended(u, Step.Arbiter(e)), LinkLocks.Commit(m, m.shared, e), queries)
  {
    ExtendedStarts(u, Step.Arbiter(e));
    ExtendedKeeps(u, Step.Arbiter(e), |u.steps|);
  }

  /** A reader's locked read is the arrival of its frame. */
  lemma AskMirrored(u: Uplink, m: LinkLocks.Machine, queries: nat -> Query)
    requires Mirrors(u, m, queries)
    ensures var q := queries(|m.answers|);
            Mirrors(Extended(u, Arrive(q.f, q.env)), LinkLocks.Store(m, LinkLocks.Ask, m.shared), queries)
  {
    var q := queries(|m.answers|);
    ExtendedStarts(u, Arrive(q.f, q.env));
    ExtendedKeeps(u, Arrive(q.f, q.env), |u.steps|);
    var a := LinkLocks.Answer(m.shared.snap.active, m.shared.gen, |m.log|);
    assert Answered(m.answers + [a]) == Answered(m.answers) + [(a.link, a.gen)];
  }

  lemma StepMirrored(u: Uplink, m: LinkLocks.Machine, queries: nat -> Query, t: LinkLocks.Thread, begin: LinkLocks.Op) returns (v: Uplink)
    requires LinkLocks.Frozen(m) && Mirrors(u, m, queries) && (m.Pc(t).Idle? || LinkLocks.Enabled(m, t))
    ensures Mirrors(v, LinkLocks.Step(m, t, begin), queries)
  {
    v := u;
    if m.Pc(t).Loaded? {
      match m.Pc(t).op {
        case Note(e) =>
          CommitMirrored(u, m, queries, e);
          v := Extended(u, Step.Arbiter(e));
        case Health(now) =>
          CommitMirrored(u, m, queries, Evaluate(now));
          v := Extended(u, Step.Arbiter(Evaluate(now)));
        case Ask =>
          var q := queries(|m.answers|);
          AskMirrored(u, m, queries);
          v := Extended(u, Arrive(q.f, q.env));
        case Transmit =>
      }
    }
  }

  /** However the threads interleave and whatever frames the reader asks about, there is a run of
      arbiter and reader with the same operations, the same answers and the same arbiter at the end:
      all that holds of uplink runs holds under the locks. `queries` are the frames, in order. */
  lemma {:induction false} InterleavingsAreUplinks(b: seq<LinkLocks.Machine>, queries: nat -> Query, n: nat) returns (u: Uplink)
    requires LinkLocks.Behaviour(b) && n < |b|
    ensures Mirrors(u, b[n], queries)
  {
    if n == 0 {
      var start := System(b[0].shared, ReaderState(0, map[], false));
      u := Uplink(b[0].cfg, b[0].t0, [start], []);
    } else {
      u := InterleavingsAreUplinks(b, queries, n - 1);
      LinkLocks.Invariant(b, n - 1);
      var m := b[n - 1];
      var t: LinkLocks.Thread, begin: LinkLocks.Op :| LinkLocks.StepsBy(m, b[n], t, begin);
      u := StepMirrored(u, m, queries, t, begin);
    }
  }
}
