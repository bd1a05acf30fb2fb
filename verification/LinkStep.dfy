/** The link decision of the PX4 arbiter: one timed step over three physical links.
    Times and durations are integers in nanoseconds; a zero `time.Time` is `None`. */
module LinkStep {
  import opened Options

  type LinkID = i: int | 0 <= i < 4

  const NO_LINK: LinkID := 0
  const ETH: LinkID := 1
  const TELEM2: LinkID := 2
  const TELEM3: LinkID := 3

  const MS: int := 1_000_000
  const SECOND: int := 1000 * MS

  /** One flag per link, indexed by link. */
  type Flags = s: seq<bool> | |s| == 4 witness [false, false, false, false]

  datatype Snap = Snap(
    active: LinkID,
    entered: int,
    holdUntil: Option<int>,
    ethLost: bool,
    ethHBSinceLoss: int)

  datatype Reason =
    | Unchanged
    | EthRecovered
    | EthLost
    | EthLostTelem2Absent
    | Telem2Lost
    | Telem2Restored

  /** The configured values as the step uses them: non-positive ones fall back to defaults. */
  function EffectiveLoss(loss: int): (r: int)
    ensures r > 0 && (loss <= 0 ==> r == 2_000_000_000)
  {
    if loss <= 0 then 2 * SECOND else loss
  }

  function EffectiveRecoverN(recoverN: int): (r: int)
    ensures r >= 1 && (recoverN < 1 ==> r == 2)
  {
    if recoverN < 1 then 2 else recoverN
  }

  /** The reason that goes with a change of link. */
  function ReasonFor(from: LinkID, to: LinkID): Reason {
    if from == to then Unchanged
    else if to == ETH then EthRecovered
    else if from == ETH then (if to == TELEM2 then EthLost else EthLostTelem2Absent)
    else if to == TELEM3 then Telem2Lost
    else Telem2Restored
  }

  /** Ethernet recovery is decided first; then the hold window; then the loss of the active link. */
  function StepLink(snap: Snap, now: int, live: Flags, open: Flags, loss: int, recoverN: int): (r: (Snap, Reason))
    ensures r.0.active != NO_LINK
    ensures snap.active != NO_LINK ==> (r.1 == Unchanged <==> r.0.active == snap.active)
    ensures snap.active != NO_LINK ==> r.1 == ReasonFor(snap.active, r.0.active)
  {
    var s := if snap.active == NO_LINK then snap.(active := ETH) else snap;
    var n := EffectiveRecoverN(recoverN);
    var l := EffectiveLoss(loss);
    if s.active != ETH && s.ethLost && s.ethHBSinceLoss >= n && live[ETH] && open[ETH] then
      (Snap(ETH, now, None, false, 0), EthRecovered)
    else if s.holdUntil.Some? && now < s.holdUntil.value && open[s.active] then
      (s, Unchanged)
    else if s.active == ETH then
      if live[ETH] || now - s.entered < l then
        (s, Unchanged)
      else
        var lost := s.(ethLost := true, ethHBSinceLoss := 0);
        if open[TELEM2] then
          (Enter(lost, TELEM2, now, l), EthLost)
        else if open[TELEM3] then
          (Enter(lost, TELEM3, now, l), EthLostTelem2Absent)
        else
          (lost, Unchanged)
    else if s.active == TELEM2 then
      if live[TELEM2] && open[TELEM2] then
        (s, Unchanged)
      else if open[TELEM3] then
        (Enter(s, TELEM3, now, l), Telem2Lost)
      else
        (s, Unchanged)
    else
      if live[TELEM2] && open[TELEM2] then
        (Enter(s, TELEM2, now, l), Telem2Restored)
      else
        (s, Unchanged)
  }

  /** Entering a UART opens a hold window of one loss period. */
  function Enter(s: Snap, id: LinkID, now: int, loss: int): Snap {
    s.(active := id, entered := now, holdUntil := Some(now + loss))
  }

  /** What every reachable snapshot satisfies. */
  ghost predicate SnapInv(s: Snap, loss: int) {
    && s.active != NO_LINK
    && 0 <= s.ethHBSinceLoss <= 1000
    && (s.active == ETH ==> s.holdUntil == None && s.ethHBSinceLoss == 0)
    && (s.active != ETH ==> s.ethLost && s.holdUntil == Some(s.entered + EffectiveLoss(loss)))
  }

  /** A step keeps the invariant; it stamps `entered` exactly when it changes the link. */
  lemma StepKeepsInv(s: Snap, now: int, live: Flags, open: Flags, loss: int, recoverN: int)
    requires SnapInv(s, loss)
    ensures SnapInv(StepLink(s, now, live, open, loss, recoverN).0, loss)
    ensures var t := StepLink(s, now, live, open, loss, recoverN).0;
            t.entered == if t.active == s.active then s.entered else now
  {
  }

  /** A link is left before one loss period only for Ethernet, or because its own channel is gone. */
  lemma LeavesLateUnlessClosed(s: Snap, now: int, live: Flags, open: Flags, loss: int, recoverN: int)
    requires SnapInv(s, loss)
    requires StepLink(s, now, live, open, loss, recoverN).0.active != s.active
    ensures || now - s.entered >= EffectiveLoss(loss)
            || (s.active != ETH && (StepLink(s, now, live, open, loss, recoverN).0.active == ETH || !open[s.active]))
  {
  }

  /** Off Ethernet, the step returns to it exactly on enough counted heartbeats over a fresh, open link. */
  lemma ReturnsExactlyWhen(s: Snap, now: int, live: Flags, open: Flags, loss: int, recoverN: int)
    requires SnapInv(s, loss) && s.active != ETH
    ensures StepLink(s, now, live, open, loss, recoverN).0.active == ETH
            <==> s.ethHBSinceLoss >= EffectiveRecoverN(recoverN) && live[ETH] && open[ETH]
  {
  }

  /** The link chosen is usable: a UART is entered only when its channel is open, TELEM3 from
      Ethernet only when TELEM2 is closed, and TELEM2 from TELEM3 only when it is fresh as well. */
  lemma EntersOnlyUsable(s: Snap, now: int, live: Flags, open: Flags, loss: int, recoverN: int)
    requires SnapInv(s, loss)
    requires StepLink(s, now, live, open, loss, recoverN).0.active != s.active
    ensures var t := StepLink(s, now, live, open, loss, recoverN).0.active;
            && open[t]
            && (t == ETH || (s.active == TELEM3 && t == TELEM2) ==> live[t])
            && (s.active == ETH && t == TELEM3 ==> !open[TELEM2])
            && (s.active == ETH ==> !live[ETH])
            && (s.active == TELEM2 && t == TELEM3 ==> !(live[TELEM2] && open[TELEM2]))
  {
  }
}
