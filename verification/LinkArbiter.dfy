/** The arbiter object around the link step: open channels, last heartbeats, the snapshot and the
    generation. `State` is its value and `Apply` what one locked operation does to that value. */
module LinkArbiter {
  import opened Options
  import opened LinkStep

  datatype Endpoint = Serial(device: string) | Custom | OtherEndpoint

  /** A MAVLink channel; two channels are the same exactly when their handles are. */
  datatype Channel = Channel(handle: nat, endpoint: Endpoint)

  datatype Config = Config(telem2Dev: string, telem3Dev: string, loss: int, recoverN: int)

  datatype RawState = State(
    ch: seq<Option<Channel>>,
    lastHB: seq<Option<int>>,
    snap: Snap,
    gen: nat)
  {
    ghost predicate Shaped() { |ch| == 4 && |lastHB| == 4 }
  }

  type State = s: RawState | s.Shaped()
    witness State([None, None, None, None], [None, None, None, None], Snap(1, 0, None, false, 0), 0)

  datatype Event =
    | Register(channel: Channel)
    | Unregister(channel: Channel)
    | Heartbeat(id: LinkID, at: int)
    | Evaluate(now: int)

  function Identify(cfg: Config, channel: Channel): LinkID {
    match channel.endpoint
    case Serial(device) =>
      if device == cfg.telem2Dev then TELEM2 else if device == cfg.telem3Dev then TELEM3 else NO_LINK
    case Custom => ETH
    case OtherEndpoint => NO_LINK
  }

  /** The channel belongs to link `i`: Ethernet is the custom endpoint, TELEM2 the serial device
      configured for it, TELEM3 the other device configured, and nothing else is any link. */
  predicate Serves(cfg: Config, channel: Channel, i: int) {
    match channel.endpoint
    case Custom => i == 1
    case Serial(device) => (i == 2 && device == cfg.telem2Dev) || (i == 3 && device == cfg.telem3Dev && device != cfg.telem2Dev)
    case OtherEndpoint => false
  }

  /** A channel is identified as the one link it belongs to, or as none. */
  lemma IdentifiesDevice(cfg: Config, channel: Channel)
    ensures forall i :: 0 < i < 4 ==> (Identify(cfg, channel) == i <==> Serves(cfg, channel, i))
    ensures Identify(cfg, channel) == NO_LINK <==> !(exists i :: 0 < i < 4 && Serves(cfg, channel, i))
  {
    assert Identify(cfg, channel) != NO_LINK ==> Serves(cfg, channel, Identify(cfg, channel));
  }

  function OpenFlags(s: State): (r: Flags)
    ensures forall i :: 0 < i < 4 ==> r[i] == s.ch[i].Some?
  {
    [false] + seq(3, i requires 0 <= i < 3 => s.ch[i + 1].Some?)
  }

  function FreshFlags(cfg: Config, s: State, now: int): (r: Flags)
    ensures forall i :: 0 < i < 4 ==> r[i] == (s.lastHB[i].Some? && now - s.lastHB[i].value < cfg.loss)
  {
    [false] + seq(3, i requires 0 <= i < 3 => s.lastHB[i + 1].Some? && now - s.lastHB[i + 1].value < cfg.loss)
  }

  function Apply(cfg: Config, s: State, e: Event): State {
    match e
    case Register(c) =>
      var id := Identify(cfg, c);
      if id == NO_LINK then s else s.(ch := s.ch[id := Some(c)])
    case Unregister(c) =>
      s.(ch := seq(4, i requires 0 <= i < 4 => if s.ch[i] == Some(c) then None else s.ch[i]))
    case Heartbeat(id, at) =>
      if id == NO_LINK then s
      else
        var counts := id == ETH && s.snap.ethLost && s.snap.active != ETH && s.snap.ethHBSinceLoss < 1000;
        s.(lastHB := s.lastHB[id := Some(at)],
           snap := if counts then s.snap.(ethHBSinceLoss := s.snap.ethHBSinceLoss + 1) else s.snap)
    case Evaluate(now) =>
      var (next, reason) := StepLink(s.snap, now, FreshFlags(cfg, s, now), OpenFlags(s), cfg.loss, cfg.recoverN);
      s.(snap := next, gen := if reason != Unchanged && next.active != s.snap.active then s.gen + 1 else s.gen)
  }

  /** What a transmission reads under the lock. */
  function Target(s: State): (LinkID, Option<Channel>) {
    (s.snap.active, s.ch[s.snap.active])
  }

  /** The state the supervisor starts from: Ethernet, entered at `t0`, generation zero. Channels
      and heartbeats seen earlier may be anything. */
  ghost predicate Initial(s: State, t0: int) {
    s.snap == Snap(ETH, t0, None, false, 0) && s.gen == 0
  }

  lemma ApplyKeepsInv(cfg: Config, s: State, e: Event)
    requires SnapInv(s.snap, cfg.loss)
    ensures SnapInv(Apply(cfg, s, e).snap, cfg.loss)
  {
    if e.Evaluate? {
      StepKeepsInv(s.snap, e.now, FreshFlags(cfg, s, e.now), OpenFlags(s), cfg.loss, cfg.recoverN);
    }
  }

  /** Only a health check moves the active link, and it moves the generation with it. */
  lemma ApplyMovesBoth(cfg: Config, s: State, e: Event)
    requires SnapInv(s.snap, cfg.loss)
    ensures var s' := Apply(cfg, s, e);
            if s'.snap.active == s.snap.active then s'.gen == s.gen else e.Evaluate? && s'.gen == s.gen + 1
  {
  }

  function ApplyAll(cfg: Config, s: State, es: seq<Event>): State {
    if es == [] then s else Apply(cfg, ApplyAll(cfg, s, es[..|es| - 1]), es[|es| - 1])
  }

  lemma {:induction false} AllInTurn(cfg: Config, s: State, es: seq<Event>, fs: seq<Event>)
    ensures ApplyAll(cfg, s, es + fs) == ApplyAll(cfg, ApplyAll(cfg, s, es), fs)
  {
    if fs == [] {
      assert es + fs == es;
    } else {
      assert (es + fs)[..|es + fs| - 1] == es + fs[..|fs| - 1];
      AllInTurn(cfg, s, es, fs[..|fs| - 1]);
    }
  }

  class Arbiter {
    const cfg: Config
    const ch: array<Option<Channel>>
    const lastHB: array<Option<int>>
    var snap: Snap
    var gen: nat

    ghost predicate Valid() {
      ch.Length == 4 && lastHB.Length == 4
    }

    ghost function View(): State
      requires Valid()
      reads this, ch, lastHB
    {
      State(ch[..], lastHB[..], snap, gen)
    }

    /** The arbiter as the supervisor leaves it at `t0`, with no channel seen yet. */
    constructor (cfg: Config, t0: int)
      ensures Valid() && fresh(ch) && fresh(lastHB) && this.cfg == cfg
      ensures Initial(View(), t0) && View().ch == [None, None, None, None]
    {
      this.cfg := cfg;
      ch := new Option<Channel>[4](_ => None);
      lastHB := new Option<int>[4](_ => None);
      snap := Snap(ETH, t0, None, false, 0);
      gen := 0;
    }

    method RegisterChannel(channel: Channel)
      requires Valid()
      modifies ch
      ensures View() == Apply(cfg, old(View()), Register(channel))
      ensures forall i :: 0 < i < 4 ==> ch[i] == if Serves(cfg, channel, i) then Some(channel) else old(ch[i])
    {
      IdentifiesDevice(cfg, channel);
      var id := Identify(cfg, channel);
      if id == NO_LINK {
        return;
      }
      ch[id] := Some(channel);
    }

    method UnregisterChannel(channel: Channel)
      requires Valid()
      modifies ch
      ensures View() == Apply(cfg, old(View()), Unregister(channel))
    {
      var id := 0;
      while id < ch.Length
        invariant 0 <= id <= 4
        invariant forall i :: 0 <= i < id ==> ch[i] == if old(ch[i]) == Some(channel) then None else old(ch[i])
        invariant forall i :: id <= i < 4 ==> ch[i] == old(ch[i])
      {
        if ch[id] == Some(channel) {
          ch[id] := None;
        }
        id := id + 1;
      }
      assert ch[..] == Apply(cfg, old(View()), Unregister(channel)).ch;
    }

    method NoteHeartbeat(id: LinkID, now: int)
      requires Valid()
      modifies this, lastHB
      ensures View() == Apply(cfg, old(View()), Heartbeat(id, now))
      ensures forall i :: 0 < i < 4 ==> lastHB[i] == if i == id then Some(now) else old(lastHB[i])
    {
      if id == NO_LINK {
        return;
      }
      lastHB[id] := Some(now);
      if id == ETH && snap.ethLost && snap.active != ETH && snap.ethHBSinceLoss < 1000 {
        snap := snap.(ethHBSinceLoss := snap.ethHBSinceLoss + 1);
      }
    }

    /** Operations of other goroutines, in the order the lock admits them. */
    method Perform(events: seq<Event>)
      requires Valid()
      modifies this, ch, lastHB
      ensures View() == ApplyAll(cfg, old(View()), events)
    {
      for i := 0 to |events|
        invariant View() == ApplyAll(cfg, old(View()), events[..i])
      {
        assert events[..i + 1][..i] == events[..i];
        match events[i] {
          case Register(c) => RegisterChannel(c);
          case Unregister(c) => UnregisterChannel(c);
          case Heartbeat(id, at) => NoteHeartbeat(id, at);
          case Evaluate(now) => var _ := EvaluateAt(now);
        }
      }
      assert events[..|events|] == events;
    }

    /** A frame's channel is (re)registered and a PX4 heartbeat counted; then, in one locked read,
        whether the frame may be forwarded and the generation that verdict belongs to. The lock is
        let go in between: `afterRegister` and `beforeAnswer` are what others do meanwhile. The
        answer is that of the state the read finds. */
    method Observe(channel: Channel, px4Heartbeat: bool, now: int, afterRegister: seq<Event>, beforeAnswer: seq<Event>)
      returns (forward: bool, generation: nat)
      requires Valid()
      modifies this, ch, lastHB
      ensures var id := Identify(cfg, channel);
              var heard := if px4Heartbeat then [Heartbeat(id, now)] else [];
              View() == ApplyAll(cfg, old(View()), [Register(channel)] + afterRegister + heard + beforeAnswer)
      ensures forward <==> View().snap.active != NO_LINK && Serves(cfg, channel, View().snap.active)
      ensures generation == View().gen
    {
      var id := Identify(cfg, channel);
      IdentifiesDevice(cfg, channel);
      ghost var start := View();
      RegisterChannel(channel);
      ghost var done := [Register(channel)];
      assert View() == ApplyAll(cfg, start, done) by { assert done[..0] == []; }
      Perform(afterRegister);
      AllInTurn(cfg, start, done, afterRegister);
      done := done + afterRegister;
      if px4Heartbeat {
        ghost var before := View();
        NoteHeartbeat(id, now);
        assert View() == ApplyAll(cfg, before, [Heartbeat(id, now)]) by { assert [Heartbeat(id, now)][..0] == []; }
        AllInTurn(cfg, start, done, [Heartbeat(id, now)]);
        done := done + [Heartbeat(id, now)];
      } else {
        assert done + [] == done;
      }
      Perform(beforeAnswer);
      AllInTurn(cfg, start, done, beforeAnswer);
      forward := id != NO_LINK && id == snap.active;
      generation := gen;
    }

    method EvaluateAt(now: int) returns (reason: Reason)
      requires Valid()
      modifies this
      ensures View() == Apply(cfg, old(View()), Evaluate(now))
      ensures old(snap.active) != NO_LINK ==> reason == ReasonFor(old(snap.active), snap.active)
    {
      var live: Flags := [false, false, false, false];
      var open: Flags := [false, false, false, false];
      var id := ETH as int;
      while id <= TELEM3
        invariant ETH <= id <= TELEM3 + 1
        invariant !live[0] && !open[0]
        invariant forall i :: 0 < i < id ==> open[i] == ch[i].Some?
        invariant forall i :: 0 < i < id ==> live[i] == (lastHB[i].Some? && now - lastHB[i].value < cfg.loss)
      {
        open := open[id := ch[id].Some?];
        live := live[id := lastHB[id].Some? && now - lastHB[id].value < cfg.loss];
        id := id + 1;
      }
      assert open == OpenFlags(View());
      assert live == FreshFlags(cfg, View(), now);
      var (next, why) := StepLink(snap, now, live, open, cfg.loss, cfg.recoverN);
      if why != Unchanged && next.active != snap.active {
        gen := gen + 1;
      }
      snap := next;
      reason := why;
    }

    /** The link and channel a command or a GCS heartbeat goes out on; no channel, no transmission. */
    method TransmitTarget() returns (id: LinkID, channel: Option<Channel>)
      requires Valid()
      ensures (id, channel) == Target(View())
    {
      id := snap.active;
      channel := ch[id];
    }
  }
}
