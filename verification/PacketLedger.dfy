/** The uplink packet counters: cumulative and per-second, bumped one at a time while a reporter
    may take snapshots in between. A set of counters is a multiset: a counter's value is its
    multiplicity. */
module PacketLedger {
  datatype Counter =
    | Raw | AcceptedIn | OutForward | OutGenerated
    | DropSysID255 | DropDuplicate | DropNoPixhawk | DropVPNNotReady | DropUnhealthy | DropSendError

  type Counts = multiset<Counter>

  /** What became of a frame the reader took from a channel. */
  datatype Verdict =
    | NotForwardable | FromGCS | Duplicate
    | NoPixhawk | VPNNotReady | Unhealthy | Withheld | SendError | Forwarded
  {
    /** The frame passed the duplicate check. */
    predicate Passed() { !NotForwardable? && !FromGCS? && !Duplicate? }
  }

  /** The counters a frame bumps, in the order the reader bumps them. */
  function Bumps(v: Verdict): seq<Counter> {
    match v
    case NotForwardable => []
    case FromGCS => [Raw, DropSysID255]
    case Duplicate => [Raw, DropDuplicate]
    case NoPixhawk => [Raw, AcceptedIn, DropNoPixhawk]
    case VPNNotReady => [Raw, AcceptedIn, DropVPNNotReady]
    case Unhealthy => [Raw, AcceptedIn, DropUnhealthy]
    case Withheld => [Raw, AcceptedIn]
    case SendError => [Raw, AcceptedIn, DropSendError]
    case Forwarded => [Raw, AcceptedIn, OutForward]
  }

  /** `Trail` is every bump so far, in order; `Mark` is how much of it the last snapshot had seen. */
  class Ledger {
    var total: Counts
    var sec: Counts
    ghost var Trail: seq<Counter>
    ghost var Mark: nat

    ghost predicate Valid()
      reads this
    {
      Mark <= |Trail| && total == multiset(Trail) && sec == multiset(Trail[Mark..])
    }

    constructor ()
      ensures Valid() && Trail == [] && Mark == 0
    {
      total, sec := multiset{}, multiset{};
      Trail, Mark := [], 0;
    }

    method Inc(c: Counter)
      requires Valid()
      modifies this
      ensures Valid() && Trail == old(Trail) + [c] && Mark == old(Mark)
    {
      total := total + multiset{c};
      sec := sec + multiset{c};
      assert (Trail + [c])[Mark..] == Trail[Mark..] + [c];
      Trail := Trail + [c];
    }

    method TakeSnapshot() returns (second: Counts, totals: Counts)
      requires Valid()
      modifies this
      ensures Valid() && Trail == old(Trail) && Mark == |Trail|
      ensures second == multiset(Trail[old(Mark)..]) && totals == multiset(Trail)
    {
      second, totals := sec, total;
      sec := multiset{};
      Mark := |Trail|;
    }
  }

  // ---- Interleavings with the reporter and with generated packets ----

  /** The reader between two bumps: the verdict on its frame and how many of its counters are done. */
  datatype Progress = Progress(
    total: Counts, sec: Counts, snapshots: seq<Counts>,
    verdict: Verdict, done: nat, withheld: nat)
  {
    predicate Between() { done >= |Bumps(verdict)| }
  }

  datatype Action = TakeFrame(v: Verdict) | BumpNext | Generate | Snapshot

  /** An action that is not possible now does nothing. A frame withheld from the server is known
      as such once its last counter is bumped. */
  function Do(p: Progress, a: Action): Progress {
    match a
    case TakeFrame(v) => if p.Between() then p.(verdict := v, done := 0) else p
    case BumpNext => if p.Between() then p else BumpOne(p, Bumps(p.verdict)[p.done])
    case Generate => p.(total := p.total + multiset{OutGenerated}, sec := p.sec + multiset{OutGenerated})
    case Snapshot => p.(snapshots := p.snapshots + [p.sec], sec := multiset{})
  }

  function BumpOne(p: Progress, c: Counter): Progress {
    p.(total := p.total + multiset{c}, sec := p.sec + multiset{c}, done := p.done + 1,
       withheld := if p.verdict == Withheld && p.done == 1 then p.withheld + 1 else p.withheld)
  }

  ghost function After(acts: seq<Action>): Progress {
    if acts == [] then Progress(multiset{}, multiset{}, [], NotForwardable, 0, 0)
    else Do(After(acts[..|acts| - 1]), acts[|acts| - 1])
  }

  function Sum(cs: seq<Counts>): Counts {
    if cs == [] then multiset{} else Sum(cs[..|cs| - 1]) + cs[|cs| - 1]
  }

  function Sorted(c: Counts): nat {
    c[DropSysID255] + c[DropDuplicate] + c[AcceptedIn]
  }

  function Settled(c: Counts, withheld: nat): nat {
    c[DropNoPixhawk] + c[DropVPNNotReady] + c[DropUnhealthy] + c[DropSendError] + c[OutForward] + withheld
  }

  /** The frame in flight is counted as raw but not sorted, or as accepted but not settled. */
  function Unsorted(p: Progress): nat {
    if p.verdict != NotForwardable && p.done == 1 then 1 else 0
  }

  function Unsettled(p: Progress): nat {
    if p.verdict.Passed() && p.verdict != Withheld && p.done == 2 then 1 else 0
  }

  ghost predicate Balanced(p: Progress) {
    && p.done <= |Bumps(p.verdict)|
    && p.total[Raw] == Sorted(p.total) + Unsorted(p)
    && p.total[AcceptedIn] == Settled(p.total, p.withheld) + Unsettled(p)
  }

  ghost predicate Conserved(p: Progress) {
    p.total == Sum(p.snapshots) + p.sec
  }

  /** First every frame is raw; then it is sorted; last, if it passed, its fate is counted. */
  lemma BumpOrder(v: Verdict, i: nat)
    requires i < |Bumps(v)|
    ensures i == 0 ==> Bumps(v)[i] == Raw
    ensures i == 1 ==> Bumps(v)[i] == if v == FromGCS then DropSysID255 else if v == Duplicate then DropDuplicate else AcceptedIn
    ensures i > 1 ==> i == 2 && v.Passed() && v != Withheld
                      && Bumps(v)[i] in {DropNoPixhawk, DropVPNNotReady, DropUnhealthy, DropSendError, OutForward}
  {
  }

  lemma BumpBalanced(p: Progress, c: Counter)
    requires Balanced(p) && !p.Between() && c == Bumps(p.verdict)[p.done]
    ensures Balanced(BumpOne(p, c))
  {
    BumpOrder(p.verdict, p.done);
    BumpedCounts(p.total, c);
  }

  lemma BumpedCounts(m: Counts, c: Counter)
    ensures forall x :: (m + multiset{c})[x] == m[x] + if x == c then 1 else 0
  {
  }

  lemma StepBalanced(p: Progress, a: Action)
    requires Balanced(p)
    ensures Balanced(Do(p, a))
  {
    if a.BumpNext? && !p.Between() {
      BumpBalanced(p, Bumps(p.verdict)[p.done]);
    }
  }

  lemma StepConserved(p: Progress, a: Action)
    requires Conserved(p)
    ensures Conserved(Do(p, a))
  {
    if a.Snapshot? {
      assert (p.snapshots + [p.sec])[..|p.snapshots|] == p.snapshots;
    }
  }

  lemma {:induction false} BalancedAfter(acts: seq<Action>)
    ensures Balanced(After(acts)) && Conserved(After(acts))
  {
    if acts != [] {
      BalancedAfter(acts[..|acts| - 1]);
      StepBalanced(After(acts[..|acts| - 1]), acts[|acts| - 1]);
      StepConserved(After(acts[..|acts| - 1]), acts[|acts| - 1]);
    }
  }

  /** In every interleaving the totals balance up to the one frame in flight, exactly between
      frames, and are the snapshots taken plus what the next one will hold. */
  lemma LedgerBalances(acts: seq<Action>)
    ensures var p := After(acts);
            && p.total[Raw] == Sorted(p.total) + Unsorted(p)
            && p.total[AcceptedIn] == Settled(p.total, p.withheld) + Unsettled(p)
            && Unsorted(p) + Unsettled(p) <= 1
            && (p.Between() ==> Unsorted(p) == Unsettled(p) == 0)
            && p.total == Sum(p.snapshots) + p.sec
  {
    BalancedAfter(acts);
  }

  // ---- The same for the ledger object ----

  /** The counters bumped by a list of actions, in order. */
  ghost function TrailAfter(acts: seq<Action>): seq<Counter> {
    if acts == [] then []
    else
      var before, p := TrailAfter(acts[..|acts| - 1]), After(acts[..|acts| - 1]);
      match acts[|acts| - 1]
      case BumpNext => if p.Between() then before else before + [Bumps(p.verdict)[p.done]]
      case Generate => before + [OutGenerated]
      case _ => before
  }

  /** How much of the trail the last snapshot has seen. */
  ghost function MarkAfter(acts: seq<Action>): (m: nat)
    ensures m <= |TrailAfter(acts)|
  {
    if acts == [] then 0
    else if acts[|acts| - 1].Snapshot? then |TrailAfter(acts)|
    else MarkAfter(acts[..|acts| - 1])
  }

  lemma TailAppend<T>(s: seq<T>, m: nat, x: T)
    requires m <= |s|
    ensures (s + [x])[m..] == s[m..] + [x]
  {
  }

  lemma {:induction false} CountsAreTrail(acts: seq<Action>)
    ensures After(acts).total == multiset(TrailAfter(acts))
    ensures After(acts).sec == multiset(TrailAfter(acts)[MarkAfter(acts)..])
  {
    if acts != [] {
      var before := acts[..|acts| - 1];
      CountsAreTrail(before);
      var p := After(before);
      if acts[|acts| - 1].Generate? {
        TailAppend(TrailAfter(before), MarkAfter(before), OutGenerated);
      } else if acts[|acts| - 1].BumpNext? && !p.Between() {
        TailAppend(TrailAfter(before), MarkAfter(before), Bumps(p.verdict)[p.done]);
      }
    }
  }

  /** A ledger that went through these actions balances as they do, and its totals are the snapshots
      taken from it plus what the next one will hold. */
  lemma ObjectBalances(l: Ledger, acts: seq<Action>)
    requires l.Valid() && l.Trail == TrailAfter(acts)
    ensures var p := After(acts);
            && l.total[Raw] == Sorted(l.total) + Unsorted(p)
            && l.total[AcceptedIn] == Settled(l.total, p.withheld) + Unsettled(p)
            && Unsorted(p) + Unsettled(p) <= 1
            && (p.Between() ==> Unsorted(p) == Unsettled(p) == 0)
            && (l.Mark == MarkAfter(acts) ==> l.total == Sum(p.snapshots) + l.sec)
  {
    CountsAreTrail(acts);
    LedgerBalances(acts);
  }

  // ---- Whole frames ----

  /** Both balances are exact: no frame is in flight. */
  ghost predicate Exact(c: Counts, withheld: nat) {
    c[Raw] == Sorted(c) && c[AcceptedIn] == Settled(c, withheld)
  }

  /** A frame counted in full keeps the balances, whatever its verdict. */
  lemma ExactFrame(c: Counts, withheld: nat, v: Verdict)
    requires Exact(c, withheld)
    ensures Exact(c + multiset(Bumps(v)), withheld + if v == Withheld then 1 else 0)
  {
  }

  /** The bumps of a list of verdicts, in order. */
  function AllBumps(vs: seq<Verdict>): seq<Counter> {
    if vs == [] then [] else AllBumps(vs[..|vs| - 1]) + Bumps(vs[|vs| - 1])
  }

  /** Apart from generated packets, the counters count exactly these verdicts. */
  ghost predicate CountsFrames(c: Counts, vs: seq<Verdict>) {
    forall x :: x != OutGenerated ==> c[x] == multiset(AllBumps(vs))[x]
  }

  lemma OneMoreFrame(c: Counts, vs: seq<Verdict>, v: Verdict)
    requires CountsFrames(c, vs)
    ensures CountsFrames(c + multiset(Bumps(v)), vs + [v])
  {
    assert (vs + [v])[..|vs|] == vs;
    SumOfParts(AllBumps(vs), Bumps(v));
  }

  lemma SumOfParts<T>(s: seq<T>, t: seq<T>)
    ensures multiset(s + t) == multiset(s) + multiset(t)
  {
  }

  lemma ExactOneMore(vs: seq<Verdict>, v: Verdict)
    ensures Exact(multiset(AllBumps(vs)), multiset(vs)[Withheld]) ==>
              Exact(multiset(AllBumps(vs) + Bumps(v)), multiset(vs + [v])[Withheld])
  {
    if Exact(multiset(AllBumps(vs)), multiset(vs)[Withheld]) {
      ExactFrame(multiset(AllBumps(vs)), multiset(vs)[Withheld], v);
    }
    SumOfParts(AllBumps(vs), Bumps(v));
    SumOfParts(vs, [v]);
  }

  lemma LastApart<T>(s: seq<T>)
    requires s != []
    ensures s == s[..|s| - 1] + [s[|s| - 1]]
  {
  }

  lemma {:induction false} AllBumpsExact(vs: seq<Verdict>)
    ensures Exact(multiset(AllBumps(vs)), multiset(vs)[Withheld])
  {
    if vs != [] {
      AllBumpsExact(vs[..|vs| - 1]);
      ExactOneMore(vs[..|vs| - 1], vs[|vs| - 1]);
      LastApart(vs);
    }
  }

  /** Counters that count frames balance. */
  lemma CountedBalances(c: Counts, vs: seq<Verdict>)
    requires CountsFrames(c, vs)
    ensures Exact(c, multiset(vs)[Withheld])
  {
    AllBumpsExact(vs);
  }
}
