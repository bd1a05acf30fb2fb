/** The uplink reader: one goroutine takes frames, asks the arbiter, deduplicates per sender and
    decides each frame's fate. The duplicate table is dropped when the arbiter's generation moves. */
module UplinkReader {
  import opened LinkStep
  import opened LinkArbiter
  import opened SeqHistory
  import opened PacketLedger
  import opened PacketTally

  type U8 = x: int | 0 <= x < 256

  const MSG_HEARTBEAT: nat := 0
  const MSG_GPS_RAW_INT: nat := 24
  const GCS_SYSID: U8 := 255

  datatype Key = Key(sysID: U8, compID: U8)

  /** A frame with the link its channel was identified as. */
  datatype Frame = Frame(link: LinkID, key: Key, number: SeqNum, msgID: nat)

  /** What the reader finds around it while it handles a frame. */
  datatype Env = Env(healthy: bool, vpnEnabled: bool, vpnReady: bool, forwardGps: bool, sendOk: bool)

  datatype ReaderState = ReaderState(linkGen: nat, table: map<Key, seq<SeqNum>>, connected: bool)

  function HistoryOf(table: map<Key, seq<SeqNum>>, key: Key): seq<SeqNum> {
    if key in table then table[key] else []
  }

  /** The fate of a frame that passed the duplicate check. */
  function Fate(connected: bool, msgID: nat, env: Env): (v: Verdict)
    ensures v.Passed()
  {
    if !connected then NoPixhawk
    else if env.vpnEnabled && !env.vpnReady then VPNNotReady
    else if !env.healthy then Unhealthy
    else if msgID == MSG_GPS_RAW_INT && !env.forwardGps then Withheld
    else if env.sendOk then Forwarded
    else SendError
  }

  /** The table the reader goes on with once it knows the generation. */
  function Current(r: ReaderState, gen: nat): ReaderState {
    if gen != r.linkGen then r.(linkGen := gen, table := map[]) else r
  }

  function Handle(r: ReaderState, f: Frame, forward: bool, gen: nat, env: Env): (ReaderState, Verdict) {
    if forward then Admit(Current(r, gen), f, env) else (Current(r, gen), NotForwardable)
  }

  function Admit(r: ReaderState, f: Frame, env: Env): (ReaderState, Verdict) {
    if f.key.sysID == GCS_SYSID then (r, FromGCS) else Judge(r, f, env)
  }

  /** The duplicate check, and the fate of a frame that passes it. */
  function Judge(r: ReaderState, f: Frame, env: Env): (ReaderState, Verdict) {
    var history := HistoryOf(r.table, f.key);
    var table := r.table[f.key := Remember(history, f.number)];
    if f.number in history then (r.(table := table), Duplicate)
    else
      var connected := r.connected || f.msgID == MSG_HEARTBEAT;
      (r.(table := table, connected := connected), Fate(connected, f.msgID, env))
  }

  lemma UpdatedTwice<K, V>(m: map<K, V>, k: K, a: V, b: V)
    ensures m[k := a][k := b] == m[k := b]
  {
  }

  /** One ring per sender. `Contents` is each sender's history. */
  class DedupTable {
    var rings: map<Key, SeqHist>
    ghost var Contents: map<Key, seq<SeqNum>>
    ghost var Repr: set<object>

    ghost predicate Valid()
      reads this, Repr
    {
      && this in Repr && Contents.Keys == rings.Keys
      && (forall k :: k in rings ==>
            && rings[k] in Repr && rings[k].buf in Repr && rings[k] as object != this && rings[k].buf as object != this
            && rings[k].Valid() && rings[k].Recent() == Contents[k])
      && (forall j, k :: j in rings && k in rings && rings[j].buf == rings[k].buf ==> j == k)
    }

    constructor ()
      ensures Valid() && fresh(Repr) && Contents == map[]
    {
      rings := map[];
      Contents := map[];
      Repr := {this};
    }

    /** The table a new generation starts with. */
    method Reset()
      requires Valid()
      modifies this
      ensures Valid() && Repr <= old(Repr) && Contents == map[]
    {
      rings := map[];
      Contents := map[];
      Repr := {this};
    }

    /** The sender's ring is there, created empty on first sight. */
    method EnsureRing(key: Key)
      requires Valid()
      modifies this
      ensures Valid() && fresh(Repr - old(Repr)) && key in rings
      ensures Contents == old(Contents)[key := HistoryOf(old(Contents), key)]
    {
      if key !in rings {
        var ring := new SeqHist();
        rings := rings[key := ring];
        Contents := Contents[key := []];
        Repr := Repr + {ring, ring.buf};
      }
    }

    method FeedRing(key: Key, number: SeqNum) returns (dup: bool)
      requires Valid() && key in rings
      modifies this`Contents, rings[key], rings[key].buf
      ensures Valid() && Repr == old(Repr) && (dup <==> number in old(Contents)[key])
      ensures Contents == old(Contents)[key := Remember(old(Contents)[key], number)]
    {
      dup := rings[key].Duplicate(number);
      Contents := Contents[key := Remember(Contents[key], number)];
    }

    method CheckDuplicate(key: Key, number: SeqNum) returns (dup: bool)
      requires Valid()
      modifies Repr
      ensures Valid() && fresh(Repr - old(Repr))
      ensures dup <==> number in HistoryOf(old(Contents), key)
      ensures Contents == old(Contents)[key := Remember(HistoryOf(old(Contents), key), number)]
    {
      ghost var before := HistoryOf(Contents, key);
      EnsureRing(key);
      dup := FeedRing(key, number);
      UpdatedTwice(old(Contents), key, before, Remember(before, number));
    }
  }

  class Reader {
    var linkGen: nat
    const lastSeqNum: DedupTable
    var connected: bool
    const ledger: Ledger

    ghost predicate Valid()
      reads this, lastSeqNum, lastSeqNum.Repr, ledger
    {
      ledger.Valid() && lastSeqNum.Valid() && this !in lastSeqNum.Repr && ledger !in lastSeqNum.Repr
    }

    ghost function View(): ReaderState
      reads this, lastSeqNum
    {
      ReaderState(linkGen, lastSeqNum.Contents, connected)
    }

    constructor ()
      ensures Valid() && fresh(ledger) && fresh(lastSeqNum.Repr) && View() == ReaderState(0, map[], false)
      ensures ledger.Trail == []
    {
      linkGen := 0;
      lastSeqNum := new DedupTable();
      connected := false;
      ledger := new Ledger();
    }

    /** A new generation starts with an empty table. */
    method SeeGeneration(gen: nat)
      requires Valid()
      modifies this, lastSeqNum
      ensures Valid() && lastSeqNum.Repr <= old(lastSeqNum.Repr) && View() == Current(old(View()), gen)
    {
      if gen != linkGen {
        linkGen := gen;
        lastSeqNum.Reset();
      }
    }

    /** The fate of a frame that passed the duplicate check. */
    method Settle(msgID: nat, env: Env) returns (v: Verdict)
      requires ledger.Valid()
      modifies this`connected, ledger
      ensures connected == (old(connected) || msgID == MSG_HEARTBEAT)
      ensures v == Fate(connected, msgID, env)
      ensures v == Forwarded <==>
                && connected && (env.vpnEnabled ==> env.vpnReady) && env.healthy
                && (msgID == 24 ==> env.forwardGps) && env.sendOk
      ensures ledger.Valid() && ledger.Trail == old(ledger.Trail) + Bumps(v)[2..]
    {
      if msgID == MSG_HEARTBEAT {
        connected := true;
      }
      if !connected {
        ledger.Inc(DropNoPixhawk);
        v := NoPixhawk;
      } else if env.vpnEnabled && !env.vpnReady {
        ledger.Inc(DropVPNNotReady);
        v := VPNNotReady;
      } else if !env.healthy {
        ledger.Inc(DropUnhealthy);
        v := Unhealthy;
      } else if msgID == MSG_GPS_RAW_INT && !env.forwardGps {
        v := Withheld;
      } else if env.sendOk {
        ledger.Inc(OutForward);
        v := Forwarded;
      } else {
        ledger.Inc(DropSendError);
        v := SendError;
      }
    }

    method Accept(msgID: nat, env: Env) returns (v: Verdict)
      requires ledger.Valid()
      modifies this`connected, ledger
      ensures connected == (old(connected) || msgID == MSG_HEARTBEAT)
      ensures v == Fate(connected, msgID, env)
      ensures ledger.Valid() && ledger.Trail == old(ledger.Trail) + Bumps(v)[1..]
    {
      ledger.Inc(AcceptedIn);
      v := Settle(msgID, env);
      PassedBumps(v);
      AppendOne(old(ledger.Trail), AcceptedIn, Bumps(v)[2..]);
    }

    method Count(dup: bool, msgID: nat, env: Env) returns (v: Verdict)
      requires ledger.Valid()
      modifies this`connected, ledger
      ensures connected == (old(connected) || (!dup && msgID == MSG_HEARTBEAT))
      ensures v == if dup then Duplicate else Fate(connected, msgID, env)
      ensures ledger.Valid() && ledger.Trail == old(ledger.Trail) + Bumps(v)[1..]
    {
      if dup {
        ledger.Inc(DropDuplicate);
        v := Duplicate;
      } else {
        v := Accept(msgID, env);
      }
    }

    method JudgeFrame(f: Frame, env: Env) returns (v: Verdict)
      requires Valid()
      modifies this`connected, lastSeqNum.Repr, ledger
      ensures Valid() && fresh(lastSeqNum.Repr - old(lastSeqNum.Repr))
      ensures (View(), v) == Judge(old(View()), f, env)
      ensures v == Duplicate || v.Passed()
      ensures ledger.Trail == old(ledger.Trail) + Bumps(v)[1..]
    {
      var dup := lastSeqNum.CheckDuplicate(f.key, f.number);
      v := Count(dup, f.msgID, env);
    }

    method AdmitFrame(f: Frame, env: Env) returns (v: Verdict)
      requires Valid()
      modifies this`connected, lastSeqNum.Repr, ledger
      ensures Valid() && fresh(lastSeqNum.Repr - old(lastSeqNum.Repr))
      ensures (View(), v) == Admit(old(View()), f, env)
      ensures ledger.Trail == old(ledger.Trail) + Bumps(v)
    {
      ledger.Inc(Raw);
      if f.key.sysID == GCS_SYSID {
        ledger.Inc(DropSysID255);
        return FromGCS;
      }
      v := JudgeFrame(f, env);
      JudgedBumps(v);
      AppendOne(old(ledger.Trail), Raw, Bumps(v)[1..]);
    }

    /** One frame: the view moves as `Handle` says and the verdict's counters are bumped in order. */
    method HandleFrame(f: Frame, forward: bool, gen: nat, env: Env) returns (v: Verdict)
      requires Valid()
      modifies this, lastSeqNum.Repr, ledger
      ensures Valid() && fresh(lastSeqNum.Repr - old(lastSeqNum.Repr))
      ensures (View(), v) == Handle(old(View()), f, forward, gen, env)
      ensures ledger.Trail == old(ledger.Trail) + Bumps(v)
    {
      SeeGeneration(gen);
      if forward {
        v := AdmitFrame(f, env);
      } else {
        v := NotForwardable;
      }
    }

    /** Perhaps a packet generated elsewhere is counted. */
    method CountGenerated(ghost verdicts: seq<Verdict>)
      requires Valid() && CountsFrames(ledger.total, verdicts)
      modifies ledger
      ensures Valid() && CountsFrames(ledger.total, verdicts)
    {
      var generated: bool := *;
      if generated {
        SumOfParts(ledger.Trail, [OutGenerated]);
        ledger.Inc(OutGenerated);
      }
    }

    method HandleCounted(a: Arrival, ghost verdicts: seq<Verdict>) returns (v: Verdict)
      requires Valid() && CountsFrames(ledger.total, verdicts)
      modifies this, lastSeqNum.Repr, ledger
      ensures Valid() && fresh(lastSeqNum.Repr - old(lastSeqNum.Repr)) && CountsFrames(ledger.total, verdicts + [v])
      ensures (View(), v) == Handle(old(View()), a.f, a.forward, a.gen, a.env)
    {
      ghost var before := ledger.Trail;
      v := HandleFrame(a.f, a.forward, a.gen, a.env);
      OneMoreFrame(multiset(before), verdicts, v);
      SumOfParts(before, Bumps(v));
    }

    /** The receive loop over any list of frames, with packets generated elsewhere in between: each
        counter but theirs has counted exactly the verdicts that bump it. Both balances follow, a
        withheld frame being the only one that is accepted and hits no further counter. */
    method ReceiveAndForward(arrivals: seq<Arrival>) returns (verdicts: seq<Verdict>)
      requires Valid() && ledger.Trail == []
      modifies this, lastSeqNum.Repr, ledger
      ensures Valid() && (View(), verdicts) == HandleAll(old(View()), arrivals)
      ensures forall c :: c != OutGenerated ==> ledger.total[c] == Tally(verdicts, c)
      ensures ledger.total[Raw] == ledger.total[DropSysID255] + ledger.total[DropDuplicate] + ledger.total[AcceptedIn]
      ensures ledger.total[AcceptedIn] ==
                ledger.total[DropNoPixhawk] + ledger.total[DropVPNNotReady] + ledger.total[DropUnhealthy]
                + ledger.total[DropSendError] + ledger.total[OutForward] + multiset(verdicts)[Withheld]
    {
      verdicts := [];
      for i := 0 to |arrivals|
        invariant Valid() && fresh(lastSeqNum.Repr - old(lastSeqNum.Repr)) && CountsFrames(ledger.total, verdicts)
        invariant (View(), verdicts) == HandleAll(old(View()), arrivals[..i])
      {
        CountGenerated(verdicts);
        HandleAllOne(old(View()), arrivals, i);
        var v := HandleCounted(arrivals[i], verdicts);
        verdicts := verdicts + [v];
      }
      assert arrivals[..|arrivals|] == arrivals;
      CountedBalances(ledger.total, verdicts);
      forall c: Counter {
        CountersExact(verdicts, c);
      }
    }
  }

  /** An event of the receive loop, with what the reader finds around it. */
  datatype Arrival = Arrival(f: Frame, forward: bool, gen: nat, env: Env)

  /** The reader after a list of arrivals, and the verdict on each. */
  function HandleAll(r: ReaderState, arrivals: seq<Arrival>): (ReaderState, seq<Verdict>) {
    if arrivals == [] then (r, [])
    else
      var (before, vs) := HandleAll(r, arrivals[..|arrivals| - 1]);
      var a := arrivals[|arrivals| - 1];
      var (after, v) := Handle(before, a.f, a.forward, a.gen, a.env);
      (after, vs + [v])
  }

  lemma HandleAllOne(r: ReaderState, arrivals: seq<Arrival>, i: nat)
    requires i < |arrivals|
    ensures var (before, vs) := HandleAll(r, arrivals[..i]);
            var a := arrivals[i];
            var (after, v) := Handle(before, a.f, a.forward, a.gen, a.env);
            HandleAll(r, arrivals[..i + 1]) == (after, vs + [v])
  {
    assert arrivals[..i + 1][..i] == arrivals[..i];
  }

  lemma PassedBumps(v: Verdict)
    requires v.Passed()
    ensures |Bumps(v)| >= 2 && Bumps(v)[1..] == [AcceptedIn] + Bumps(v)[2..]
  {
  }

  lemma JudgedBumps(v: Verdict)
    requires v == Duplicate || v.Passed()
    ensures |Bumps(v)| >= 1 && Bumps(v) == [Raw] + Bumps(v)[1..]
  {
  }

  lemma AppendOne<T>(s: seq<T>, a: T, t: seq<T>)
    ensures s + [a] + t == s + ([a] + t)
  {
  }

  // ---- Runs of the arbiter and the reader together ----

  /** A locked operation on the arbiter, or a frame the reader handles: the arbiter answers for the
      frame in one locked read, and nothing but the reader touches its table. */
  datatype Step = Arbiter(e: Event) | Arrive(f: Frame, env: Env)

  datatype System = System(arb: State, reader: ReaderState)

  function Answer(s: State, f: Frame): bool {
    f.link != NO_LINK && f.link == s.snap.active
  }

  function Next(cfg: Config, s: System, step: Step): System {
    match step
    case Arbiter(e) => s.(arb := Apply(cfg, s.arb, e))
    case Arrive(f, env) => s.(reader := Handle(s.reader, f, Answer(s.arb, f), s.arb.gen, env).0)
  }

  /** The step of a run, named so that a run is unfolded only where a proof asks for it. */
  ghost predicate Goes(cfg: Config, s: System, step: Step, s': System) {
    s' == Next(cfg, s, step)
  }

  /** A frame feeds only its own sender's history, and only if it gets as far as the duplicate check. */
  lemma HandledHistory(r: ReaderState, f: Frame, forward: bool, gen: nat, env: Env, key: Key)
    ensures var (after, v) := Handle(r, f, forward, gen, env);
            var before := HistoryOf(Current(r, gen).table, key);
            && after.linkGen == gen
            && HistoryOf(after.table, key) ==
                 (if v !in {NotForwardable, FromGCS} && f.key == key then Remember(before, f.number) else before)
            && (v == Duplicate ==> f.number in HistoryOf(Current(r, gen).table, f.key))
            && (v.Passed() ==> f.number !in HistoryOf(Current(r, gen).table, f.key))
            && (v !in {NotForwardable, FromGCS} ==> forward && (v == Duplicate || v.Passed()))
  {
  }

  /** The fate of a frame that passed, by what the reader finds: whether a heartbeat has been seen, the
      surroundings, and whether the frame is GPS_RAW_INT. */
  predicate RightFate(v: Verdict, e: Env, seen: bool, gps: bool) {
    var tunnel := e.vpnEnabled ==> e.vpnReady;
    && (v == NoPixhawk <==> !seen)
    && (v == VPNNotReady <==> seen && !tunnel)
    && (v == Unhealthy <==> seen && tunnel && !e.healthy)
    && (v == Withheld <==> seen && tunnel && e.healthy && gps && !e.forwardGps)
    && (v == SendError <==> seen && tunnel && e.healthy && (gps ==> e.forwardGps) && !e.sendOk)
    && (v == Forwarded <==> seen && tunnel && e.healthy && (gps ==> e.forwardGps) && e.sendOk)
  }

  lemma ConnectedByFrame(r: ReaderState, f: Frame, forward: bool, gen: nat, env: Env)
    ensures var (after, v) := Handle(r, f, forward, gen, env);
            after.connected <==> r.connected || (v.Passed() && f.msgID == 0)
  {
  }

  lemma FateByFrame(r: ReaderState, f: Frame, forward: bool, gen: nat, env: Env)
    ensures var (after, v) := Handle(r, f, forward, gen, env);
            v.Passed() ==> v == Fate(after.connected, f.msgID, env)
  {
  }

  lemma VerdictByFrame(r: ReaderState, f: Frame, forward: bool, gen: nat, env: Env)
    ensures var v := Handle(r, f, forward, gen, env).1;
            var known := f.number in HistoryOf(if gen != r.linkGen then map[] else r.table, f.key);
            && (v == NotForwardable <==> !forward)
            && (v == FromGCS <==> forward && f.key.sysID == 255)
            && (v == Duplicate <==> forward && f.key.sysID != 255 && known)
            && (v.Passed() <==> forward && f.key.sysID != 255 && !known)
  {
  }

  lemma RingAppend(ns: seq<SeqNum>, n: SeqNum)
    ensures Ring(ns + [n]) == Remember(Ring(ns), n)
  {
    assert (ns + [n])[..|ns|] == ns;
  }

  /** The numbers of the steps before `k` that `keep` selects, since the last that `restarts`. */
  ghost function Selected(k: nat, keep: nat -> bool, restarts: nat -> bool, id: nat -> nat): seq<nat> {
    if k == 0 then []
    else
      var before := if restarts(k - 1) then [] else Selected(k - 1, keep, restarts, id);
      if keep(k - 1) then before + [id(k - 1)] else before
  }

  /** Of the frames judged, exactly those with a number new to the ring pass. */
  ghost predicate RingDecides(j: nat, judged: nat -> bool, passed: nat -> bool, restarts: nat -> bool, id: nat -> nat) {
    var before := if restarts(j) then [] else Selected(j, judged, restarts, id);
    passed(j) <==> judged(j) && id(j) % 256 !in Ring(Numbers(before))
  }

  /** If exactly the numbers new to the ring pass, those passed are those accepted. */
  lemma {:induction false} SelectedAccepted(k: nat, judged: nat -> bool, passed: nat -> bool, restarts: nat -> bool, id: nat -> nat)
    requires forall j: nat :: j < k ==> RingDecides(j, judged, passed, restarts, id)
    ensures Selected(k, passed, restarts, id) == Accepted(Selected(k, judged, restarts, id))
  {
    if k > 0 {
      SelectedAccepted(k - 1, judged, passed, restarts, id);
      assert RingDecides(k - 1, judged, passed, restarts, id);
      AcceptedAppend(if restarts(k - 1) then [] else Selected(k - 1, judged, restarts, id), id(k - 1));
    }
  }

  lemma AcceptedAppend(frames: seq<nat>, f: nat)
    ensures Accepted(frames + [f]) == if f % 256 in Ring(Numbers(frames)) then Accepted(frames) else Accepted(frames) + [f]
  {
    assert (frames + [f])[..|frames|] == frames;
  }

  datatype Uplink = Uplink(cfg: Config, t0: int, states: seq<System>, steps: seq<Step>) {

    ghost predicate Started() {
      && |states| == |steps| + 1
      && Initial(states[0].arb, t0) && states[0].reader == ReaderState(0, map[], false)
      && (forall k {:trigger Goes(cfg, states[k], steps[k], states[k + 1])} ::
            0 <= k < |steps| ==> Goes(cfg, states[k], steps[k], states[k + 1]))
    }

    ghost function VerdictAt(k: nat): Verdict
      requires |states| == |steps| + 1 && k < |steps| && steps[k].Arrive?
    {
      Handle(states[k].reader, steps[k].f, Answer(states[k].arb, steps[k].f), states[k].arb.gen, steps[k].env).1
    }

    /** Frame `j` passed the duplicate check in generation `gen`. */
    ghost predicate PassedIn(j: nat, gen: nat)
      requires |states| == |steps| + 1
    {
      j < |steps| && steps[j].Arrive? && VerdictAt(j).Passed() && states[j].arb.gen == gen
    }

    lemma {:induction false} ArbiterInv(k: nat)
      requires Started() && k <= |steps|
      ensures SnapInv(states[k].arb.snap, cfg.loss)
    {
      if k > 0 {
        var j := k - 1;
        ArbiterInv(j);
        assert Goes(cfg, states[j], steps[j], states[j + 1]);
        if steps[j].Arbiter? {
          ApplyKeepsInv(cfg, states[j].arb, steps[j].e);
        }
      }
    }

    lemma ArbiterMoves(k: nat)
      requires Started() && k < |steps|
      ensures states[k].arb.gen <= states[k + 1].arb.gen
      ensures states[k].arb.gen == states[k + 1].arb.gen ==> states[k].arb.snap.active == states[k + 1].arb.snap.active
    {
      ArbiterInv(k);
      assert Goes(cfg, states[k], steps[k], states[k + 1]);
      if steps[k].Arbiter? {
        ApplyMovesBoth(cfg, states[k].arb, steps[k].e);
      }
    }

    lemma {:induction false} OneLinkPerGeneration(j: nat, k: nat)
      requires Started() && j <= k <= |steps|
      ensures states[j].arb.gen <= states[k].arb.gen
      ensures states[j].arb.gen == states[k].arb.gen ==> states[j].arb.snap.active == states[k].arb.snap.active
    {
      if j < k {
        OneLinkPerGeneration(j, k - 1);
        ArbiterMoves(k - 1);
      }
    }

    /** What a step does to the reader. */
    lemma ReaderMoves(k: nat, key: Key)
      requires Started() && k < |steps|
      ensures steps[k].Arbiter? ==> states[k + 1].reader == states[k].reader
      ensures steps[k].Arrive? ==>
                var before := HistoryOf(Current(states[k].reader, states[k].arb.gen).table, key);
                && states[k + 1].reader.linkGen == states[k].arb.gen
                && HistoryOf(states[k + 1].reader.table, key) ==
                     if VerdictAt(k) !in {NotForwardable, FromGCS} && steps[k].f.key == key
                     then Remember(before, steps[k].f.number) else before
    {
      assert Goes(cfg, states[k], steps[k], states[k + 1]);
      if steps[k].Arrive? {
        HandledHistory(states[k].reader, steps[k].f, Answer(states[k].arb, steps[k].f), states[k].arb.gen, steps[k].env, key);
      }
    }

    /** A number in the table is that of a frame the reader passed in the generation it last saw. */
    lemma {:induction false} TableComesFrom(k: nat, key: Key, number: SeqNum) returns (j: nat)
      requires Started() && k <= |steps| && number in HistoryOf(states[k].reader.table, key)
      ensures j < k && PassedIn(j, states[k].reader.linkGen) && steps[j].f.key == key && steps[j].f.number == number
    {
      j := k - 1;
      ReaderMoves(j, key);
      var r, gen := states[j].reader, states[j].arb.gen;
      if steps[j].Arbiter? || number in HistoryOf(Current(r, gen).table, key) {
        j := TableComesFrom(j, key, number);
      } else {
        HandledHistory(r, steps[j].f, Answer(states[j].arb, steps[j].f), gen, steps[j].env, key);
      }
    }

    /** A frame is dropped as a duplicate only because of an earlier frame with its sender and
        number that came over the same link, passed, and was followed by no change of link. */
    lemma DuplicateHasTwin(k: nat) returns (j: nat)
      requires Started() && k < |steps| && steps[k].Arrive? && VerdictAt(k) == Duplicate
      ensures j < k && PassedIn(j, states[k].arb.gen)
      ensures steps[j].f.key == steps[k].f.key && steps[j].f.number == steps[k].f.number
      ensures steps[j].f.link == steps[k].f.link
      ensures forall m :: j <= m <= k ==> states[m].arb.snap.active == steps[k].f.link
    {
      var f, r, gen := steps[k].f, states[k].reader, states[k].arb.gen;
      HandledHistory(r, f, Answer(states[k].arb, f), gen, steps[k].env, f.key);
      j := TableComesFrom(k, f.key, f.number);
      HandledHistory(states[j].reader, steps[j].f, Answer(states[j].arb, steps[j].f), gen, steps[j].env, f.key);
      forall m | j <= m <= k
        ensures states[m].arb.snap.active == steps[k].f.link
      {
        OneLinkPerGeneration(j, m);
        OneLinkPerGeneration(m, k);
      }
    }

    /** The numbers, in order, of the sender's frames the reader has judged in its generation. */
    ghost function Judged(k: nat, key: Key): seq<SeqNum>
      requires |states| == |steps| + 1 && k <= |steps|
    {
      if k == 0 then []
      else if steps[k - 1].Arbiter? then Judged(k - 1, key)
      else
        var sofar := if states[k - 1].arb.gen == states[k - 1].reader.linkGen then Judged(k - 1, key) else [];
        if VerdictAt(k - 1) !in {NotForwardable, FromGCS} && steps[k - 1].f.key == key
        then sofar + [steps[k - 1].f.number] else sofar
    }

    /** Each sender's history is that of one ring fed the sender's frames of this generation, so
        what holds of one deduplicated stream holds of every sender between two switches. */
    lemma {:induction false} HistoryIsRing(k: nat, key: Key)
      requires Started() && k <= |steps|
      ensures HistoryOf(states[k].reader.table, key) == Ring(Judged(k, key))
    {
      if k > 0 {
        var j := k - 1;
        HistoryIsRing(j, key);
        ReaderMoves(j, key);
        if steps[j].Arrive? {
          RingAppend(if states[j].arb.gen == states[j].reader.linkGen then Judged(j, key) else [], steps[j].f.number);
        }
      }
    }

    /** `id` numbers the frames of a sender without bound; a frame carries its number modulo 256. */
    ghost predicate Numbering(id: nat -> nat, key: Key)
    {
      forall j: nat :: j < |steps| && steps[j].Arrive? && steps[j].f.key == key ==> id(j) % 256 == steps[j].f.number
    }

    /** Step `j` brings a frame of the sender as far as the duplicate check. */
    ghost predicate JudgesAt(j: nat, key: Key) {
      && |states| == |steps| + 1 && j < |steps| && steps[j].Arrive?
      && steps[j].f.key == key && VerdictAt(j) !in {NotForwardable, FromGCS}
    }

    ghost predicate PassesAt(j: nat, key: Key) {
      JudgesAt(j, key) && VerdictAt(j).Passed()
    }

    /** The frame of step `j` is the first in a new generation. */
    ghost predicate Restarts(j: nat) {
      |states| == |steps| + 1 && j < |steps| && steps[j].Arrive? && states[j].arb.gen != states[j].reader.linkGen
    }

    ghost function Judging(key: Key): nat -> bool {
      (j: nat) => JudgesAt(j, key)
    }

    ghost function Passing(key: Key): nat -> bool {
      (j: nat) => PassesAt(j, key)
    }

    ghost function Restarting(): nat -> bool {
      (j: nat) => Restarts(j)
    }

    /** The sender's frames judged in the reader's generation, by number, in order of arrival. */
    ghost function JudgedFrames(k: nat, key: Key, id: nat -> nat): seq<nat> {
      Selected(k, Judging(key), Restarting(), id)
    }

    /** Those of them that passed the duplicate check. */
    ghost function PassedFrames(k: nat, key: Key, id: nat -> nat): seq<nat> {
      Selected(k, Passing(key), Restarting(), id)
    }

    lemma {:induction false} JudgedNumbers(k: nat, key: Key, id: nat -> nat)
      requires Started() && k <= |steps| && Numbering(id, key)
      ensures Numbers(JudgedFrames(k, key, id)) == Judged(k, key)
    {
      if k > 0 {
        JudgedNumbers(k - 1, key, id);
        NumbersAppend(JudgedFrames(k - 1, key, id), id(k - 1));
        NumbersAppend([], id(k - 1));
      }
    }

    lemma PassesIfNew(j: nat, key: Key, id: nat -> nat)
      requires Started() && j < |steps| && Numbering(id, key) && JudgesAt(j, key)
      ensures PassesAt(j, key) <==> id(j) % 256 !in Ring(Numbers(if Restarts(j) then [] else JudgedFrames(j, key, id)))
    {
      var f := steps[j].f;
      HandledHistory(states[j].reader, f, Answer(states[j].arb, f), states[j].arb.gen, steps[j].env, key);
      HistoryIsRing(j, key);
      JudgedNumbers(j, key, id);
    }

    /** The frames passed are those one ring would accept of the frames judged. */
    lemma PassedAreAccepted(k: nat, key: Key, id: nat -> nat)
      requires Started() && k <= |steps| && Numbering(id, key)
      ensures PassedFrames(k, key, id) == Accepted(JudgedFrames(k, key, id))
    {
      var judged, passed, restarts := Judging(key), Passing(key), Restarting();
      forall j: nat | j < k
        ensures RingDecides(j, judged, passed, restarts, id)
      {
        if judged(j) {
          PassesIfNew(j, key, id);
        }
      }
      SelectedAccepted(k, judged, passed, restarts, id);
    }

    /** Within one generation, orderly frames of a sender each pass exactly once, however they are
        reordered, duplicated and mixed with those of other senders and with arbiter events. */
    lemma SenderExactlyOnce(k: nat, key: Key, id: nat -> nat, f: nat)
      requires Started() && k <= |steps| && Numbering(id, key)
      requires Each(JudgedFrames(k, key, id), Orderly) && f in JudgedFrames(k, key, id)
      ensures multiset(PassedFrames(k, key, id))[f] == 1
    {
      PassedAreAccepted(k, key, id);
      ExactlyOnce(JudgedFrames(k, key, id), f);
    }

    /** Once a heartbeat has passed, no frame is dropped for want of a flight controller. */
    lemma {:induction false} ConnectedFromHeartbeat(j: nat, k: nat)
      requires Started() && j < k <= |steps| && steps[j].Arrive? && VerdictAt(j).Passed() && steps[j].f.msgID == MSG_HEARTBEAT
      ensures states[k].reader.connected
      ensures k < |steps| && steps[k].Arrive? ==> VerdictAt(k) != NoPixhawk
    {
      var i := k - 1;
      assert Goes(cfg, states[i], steps[i], states[i + 1]);
      if i > j {
        ConnectedFromHeartbeat(j, i);
      }
    }

    /** A HEARTBEAT (message 0) has passed the duplicate check in the first `k` steps. */
    ghost predicate HeartbeatPassed(k: nat)
      requires |states| == |steps| + 1 && k <= |steps|
    {
      exists j :: 0 <= j < k && steps[j].Arrive? && VerdictAt(j).Passed() && steps[j].f.msgID == 0
    }

    lemma {:induction false} ConnectedExactly(k: nat)
      requires Started() && k <= |steps|
      ensures states[k].reader.connected <==> HeartbeatPassed(k)
    {
      if k > 0 {
        var j := k - 1;
        ConnectedExactly(j);
        assert Goes(cfg, states[j], steps[j], states[j + 1]);
        if HeartbeatPassed(j) {
          var h :| 0 <= h < j && steps[h].Arrive? && VerdictAt(h).Passed() && steps[h].f.msgID == 0;
          assert h < k;
        }
        if steps[j].Arrive? {
          ConnectedByFrame(states[j].reader, steps[j].f, Answer(states[j].arb, steps[j].f), states[j].arb.gen, steps[j].env);
        }
      }
    }

    /** What becomes of a frame that passed the duplicate check, exactly, in the order of the tests. */
    lemma FateExact(k: nat)
      requires Started() && k < |steps| && steps[k].Arrive? && VerdictAt(k).Passed()
      ensures RightFate(VerdictAt(k), steps[k].env, HeartbeatPassed(k + 1), steps[k].f.msgID == 24)
    {
      ConnectedExactly(k + 1);
      assert Goes(cfg, states[k], steps[k], states[k + 1]);
      FateByFrame(states[k].reader, steps[k].f, Answer(states[k].arb, steps[k].f), states[k].arb.gen, steps[k].env);
    }

    /** How far a frame gets, exactly: it must come over the active link, not from a ground station
        (system 255), and with a number its sender's ring of this generation does not hold. */
    lemma VerdictExact(k: nat)
      requires Started() && k < |steps| && steps[k].Arrive?
      ensures var (v, f) := (VerdictAt(k), steps[k].f);
              var known := f.number in Ring(if Restarts(k) then [] else Judged(k, f.key));
              var active := f.link != NO_LINK && f.link == states[k].arb.snap.active;
              && (v == NotForwardable <==> !active)
              && (v == FromGCS <==> active && f.key.sysID == 255)
              && (v == Duplicate <==> active && f.key.sysID != 255 && known)
              && (v.Passed() <==> active && f.key.sysID != 255 && !known)
    {
      var f := steps[k].f;
      HistoryIsRing(k, f.key);
      VerdictByFrame(states[k].reader, f, Answer(states[k].arb, f), states[k].arb.gen, steps[k].env);
    }
  }
}
