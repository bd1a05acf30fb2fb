/** What each uplink counter counts. */
module PacketTally {
  import opened PacketLedger

  /** The verdicts a counter is for. */
  predicate CountedBy(c: Counter, v: Verdict) {
    match c
    case Raw => v != NotForwardable
    case AcceptedIn => v.Passed()
    case DropSysID255 => v == FromGCS
    case DropDuplicate => v == Duplicate
    case DropNoPixhawk => v == NoPixhawk
    case DropVPNNotReady => v == VPNNotReady
    case DropUnhealthy => v == Unhealthy
    case DropSendError => v == SendError
    case OutForward => v == Forwarded
    case OutGenerated => false
  }

  function Tally(vs: seq<Verdict>, c: Counter): nat {
    if vs == [] then 0 else Tally(vs[..|vs| - 1], c) + if CountedBy(c, vs[|vs| - 1]) then 1 else 0
  }

  lemma BumpsItsOwn(c: Counter, v: Verdict)
    ensures multiset(Bumps(v))[c] == if CountedBy(c, v) then 1 else 0
  {
  }

  /** Every counter counts the frames whose verdict it is for, and no others. */
  lemma {:induction false} CountersExact(vs: seq<Verdict>, c: Counter)
    ensures multiset(AllBumps(vs))[c] == Tally(vs, c)
  {
    if vs != [] {
      CountersExact(vs[..|vs| - 1], c);
      BumpsItsOwn(c, vs[|vs| - 1]);
      SumOfParts(AllBumps(vs[..|vs| - 1]), Bumps(vs[|vs| - 1]));
    }
  }
}
