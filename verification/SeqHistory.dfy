/** The 32-entry ring of recent MAVLink sequence numbers, and what deduplicating with it means. */
module SeqHistory {
  type SeqNum = x: int | 0 <= x < 256

  const HIST_LEN: nat := 32

  /** The last 32 entries of a list. */
  function Window<T>(s: seq<T>): (r: seq<T>)
    ensures |r| <= HIST_LEN
  {
    if |s| <= HIST_LEN then s else s[|s| - HIST_LEN..]
  }

  /** What the history holds after one more number: a known number changes nothing. */
  function Remember(recent: seq<SeqNum>, s: SeqNum): seq<SeqNum> {
    if s in recent then recent else Window(recent + [s])
  }

  ghost predicate Distinct<T(!new)>(s: seq<T>) {
    forall i, j :: 0 <= i < j < |s| ==> s[i] != s[j]
  }

  /** The slot of the `i`-th oldest of `n` entries, when slot `pos` is written next. */
  function Slot(i: nat, n: nat, pos: nat): nat {
    if n < HIST_LEN then i else (pos + i) % HIST_LEN
  }

  /** The entries of a ring with `n` used slots that writes slot `pos` next, oldest first. */
  ghost function Held<T>(ring: seq<T>, n: nat, pos: nat): seq<T>
    requires n <= |ring| == HIST_LEN && pos < HIST_LEN
  {
    seq(n, i requires 0 <= i < n => ring[Slot(i, n, pos)])
  }

  class SeqHist {
    const buf: array<SeqNum>
    var n: nat
    var pos: nat

    ghost predicate Valid()
      reads this
    {
      buf.Length == HIST_LEN && n <= HIST_LEN && pos < HIST_LEN && (n < HIST_LEN ==> pos == n)
    }

    /** The numbers held, oldest first. */
    ghost function Recent(): seq<SeqNum>
      requires Valid()
      reads this, buf
    {
      Held(buf[..], n, pos)
    }

    constructor ()
      ensures Valid() && fresh(buf) && Recent() == []
    {
      buf := new SeqNum[HIST_LEN](_ => 0);
      n := 0;
      pos := 0;
    }

    /** The search of `Duplicate`. */
    method Search(s: SeqNum) returns (found: bool)
      requires Valid()
      ensures found <==> s in Recent()
    {
      var count := if n > HIST_LEN then HIST_LEN else n;
      HeldSomewhere(buf[..], n, pos, s);
      for i := 0 to count
        invariant forall k :: 0 <= k < i ==> buf[k] != s
      {
        if buf[i] == s {
          assert s == buf[..][..n][i];
          return true;
        }
      }
      assert s !in buf[..][..n];
      found := false;
    }

    /** The insertion of `Duplicate`. */
    method Push(s: SeqNum)
      requires Valid()
      modifies this, buf
      ensures Valid() && Recent() == Window(old(Recent()) + [s])
    {
      Pushed(buf[..], n, pos, s);
      buf[pos] := s;
      assert buf[..] == old(buf[..])[pos := s];
      pos := (pos + 1) % HIST_LEN;
      if n < HIST_LEN {
        n := n + 1;
      }
    }

    method Duplicate(s: SeqNum) returns (dup: bool)
      requires Valid()
      modifies this, buf
      ensures Valid()
      ensures dup <==> s in old(Recent())
      ensures Recent() == Remember(old(Recent()), s)
    {
      dup := Search(s);
      if !dup {
        Push(s);
      }
    }
  }

  lemma HeldSomewhere<T>(ring: seq<T>, n: nat, pos: nat, x: T)
    requires n <= |ring| == HIST_LEN && pos < HIST_LEN
    ensures x in Held(ring, n, pos) <==> x in ring[..n]
  {
    var held := Held(ring, n, pos);
    forall j | 0 <= j < n
      ensures ring[j] in held
    {
      var i := if n < HIST_LEN then j else (j - pos + HIST_LEN) % HIST_LEN;
      assert held[i] == ring[j];
    }
    forall i | 0 <= i < n
      ensures held[i] in ring[..n]
    {
      assert ring[..n][Slot(i, n, pos)] == held[i];
    }
  }

  /** Writing a free slot appends. */
  lemma PushedNew<T>(ring: seq<T>, n: nat, x: T)
    requires n < |ring| == HIST_LEN
    ensures Held(ring[n := x], n + 1, (n + 1) % HIST_LEN) == Held(ring, n, n) + [x]
  {
  }

  /** Overwriting the oldest slot and moving on appends and drops the oldest. */
  lemma PushedOver<T>(ring: seq<T>, pos: nat, x: T)
    requires pos < |ring| == HIST_LEN
    ensures Held(ring[pos := x], HIST_LEN, (pos + 1) % HIST_LEN) == Window(Held(ring, HIST_LEN, pos) + [x])
  {
    var held := Held(ring, HIST_LEN, pos);
    var next := Held(ring[pos := x], HIST_LEN, (pos + 1) % HIST_LEN);
    forall i | 0 <= i < HIST_LEN
      ensures next[i] == (held + [x])[i + 1]
    {
    }
    assert next == (held + [x])[1..];
  }

  /** Writing the next slot appends to what is held, within 32 entries. */
  lemma Pushed<T>(ring: seq<T>, n: nat, pos: nat, x: T)
    requires n <= |ring| == HIST_LEN && pos < HIST_LEN && (n < HIST_LEN ==> pos == n)
    ensures Held(ring[pos := x], if n < HIST_LEN then n + 1 else n, (pos + 1) % HIST_LEN) == Window(Held(ring, n, pos) + [x])
  {
    if n < HIST_LEN {
      PushedNew(ring, n, x);
    } else {
      PushedOver(ring, pos, x);
    }
  }

  lemma RememberKeepsDistinct(recent: seq<SeqNum>, s: SeqNum)
    requires Distinct(recent)
    ensures Distinct(Remember(recent, s))
  {
  }

  // ---- Streams of frames ----

  /** The history after a stream of sequence numbers. */
  function Ring(ns: seq<SeqNum>): seq<SeqNum> {
    if ns == [] then [] else Remember(Ring(ns[..|ns| - 1]), ns[|ns| - 1])
  }

  lemma {:induction false} RingDistinct(ns: seq<SeqNum>)
    ensures Distinct(Ring(ns)) && |Ring(ns)| <= HIST_LEN
  {
    if ns != [] {
      RingDistinct(ns[..|ns| - 1]);
      RememberKeepsDistinct(Ring(ns[..|ns| - 1]), ns[|ns| - 1]);
    }
  }

  /** Frames are numbered without bound by their sender and carry the number modulo 256. */
  function Numbers(frames: seq<nat>): (r: seq<SeqNum>)
    ensures |r| == |frames| && forall i :: 0 <= i < |r| ==> r[i] == frames[i] % 256
  {
    seq(|frames|, i requires 0 <= i < |frames| => frames[i] % 256)
  }

  /** The frames that pass, in order of arrival. */
  function Accepted(frames: seq<nat>): seq<nat> {
    if frames == [] then []
    else
      var before := frames[..|frames| - 1];
      var f := frames[|frames| - 1];
      if f % 256 in Ring(Numbers(before)) then Accepted(before) else Accepted(before) + [f]
  }

  /** The ideal result: each frame once, where it first arrives. */
  function Firsts(frames: seq<nat>): seq<nat> {
    if frames == [] then []
    else
      var before := frames[..|frames| - 1];
      var f := frames[|frames| - 1];
      if f in before then Firsts(before) else Firsts(before) + [f]
  }

  lemma WindowSlides<T>(s: seq<T>, x: T)
    ensures Window(Window(s) + [x]) == Window(s + [x])
  {
  }

  lemma NumbersOfWindow(s: seq<nat>)
    ensures Numbers(Window(s)) == Window(Numbers(s))
  {
  }

  lemma NumbersAppend(s: seq<nat>, f: nat)
    ensures Numbers(s + [f]) == Numbers(s) + [f % 256]
  {
  }

  lemma NextWindow(acc: seq<nat>, f: nat)
    ensures Window(Numbers(Window(acc)) + [f % 256]) == Numbers(Window(acc + [f]))
  {
    NumbersOfWindow(acc);
    NumbersOfWindow(acc + [f]);
    NumbersAppend(acc, f);
    WindowSlides<SeqNum>(Numbers(acc), f % 256);
  }

  /** The ring holds exactly the numbers of the last 32 frames accepted, in order. */
  lemma {:induction false} RingIsLastAccepted(frames: seq<nat>)
    ensures Ring(Numbers(frames)) == Numbers(Window(Accepted(frames)))
    ensures |Ring(Numbers(frames))| == if |Accepted(frames)| < 32 then |Accepted(frames)| else 32
  {
    if frames != [] {
      var before, f := frames[..|frames| - 1], frames[|frames| - 1];
      RingIsLastAccepted(before);
      assert Numbers(frames)[..|frames| - 1] == Numbers(before);
      NextWindow(Accepted(before), f);
    }
  }

  /** The history can tell frame `f` after `before`: it is an old frame exactly when its number is
      that of one of the last 32 different frames. */
  ghost predicate Tells(before: seq<nat>, f: nat) {
    f in before <==> exists g: nat :: g in Window(Firsts(before)) && g % 256 == f % 256
  }

  /** Copies come before 32 further new frames, and frames within 32 of each other are less than
      256 apart in number. */
  ghost predicate Orderly(before: seq<nat>, f: nat) {
    && (f in before ==> f in Window(Firsts(before)))
    && (forall g: nat :: g in Window(Firsts(before)) ==> f - 256 < g < f + 256)
  }

  /** `arrival` holds of every frame of the stream and the frames before it. */
  ghost predicate Each(frames: seq<nat>, arrival: (seq<nat>, nat) -> bool) {
    frames == [] || (Each(frames[..|frames| - 1], arrival) && arrival(frames[..|frames| - 1], frames[|frames| - 1]))
  }

  /** The stream and every prefix of it are deduplicated ideally. */
  ghost predicate IdealThroughout(frames: seq<nat>) {
    Accepted(frames) == Firsts(frames) && (frames == [] || IdealThroughout(frames[..|frames| - 1]))
  }

  lemma NumberAmong(s: seq<nat>, f: nat)
    ensures f % 256 in Numbers(s) <==> exists g: nat :: g in s && g % 256 == f % 256
  {
    if f % 256 in Numbers(s) {
      var i :| 0 <= i < |s| && Numbers(s)[i] == f % 256;
      assert s[i] in s;
    }
    if g: nat :| g in s && g % 256 == f % 256 {
      var i :| 0 <= i < |s| && s[i] == g;
      assert Numbers(s)[i] == f % 256;
    }
  }

  /** The stream passes ideally, at every point of it, exactly when the history can tell each
      arriving frame from those before it. */
  lemma {:induction false} IdealExactlyWhen(frames: seq<nat>)
    ensures IdealThroughout(frames) <==> Each(frames, Tells)
  {
    if frames != [] {
      var before, f := frames[..|frames| - 1], frames[|frames| - 1];
      IdealExactlyWhen(before);
      RingIsLastAccepted(before);
      NumberAmong(Window(Firsts(before)), f);
    }
  }

  lemma OrderlyTells(before: seq<nat>, f: nat)
    requires Orderly(before, f)
    ensures Tells(before, f)
  {
    FirstsHoldAll(before);
    var w := Window(Firsts(before));
    forall g: nat | g in w && g % 256 == f % 256
      ensures g == f
    {
    }
    assert f in w ==> f in Firsts(before);
  }

  lemma {:induction false} AllOrderlyAllTold(frames: seq<nat>)
    requires Each(frames, Orderly)
    ensures Each(frames, Tells)
  {
    if frames != [] {
      AllOrderlyAllTold(frames[..|frames| - 1]);
      OrderlyTells(frames[..|frames| - 1], frames[|frames| - 1]);
    }
  }

  lemma {:induction false} FirstsHoldAll(frames: seq<nat>)
    ensures Distinct(Firsts(frames)) && forall f :: f in Firsts(frames) <==> f in frames
  {
    if frames != [] {
      var before, f := frames[..|frames| - 1], frames[|frames| - 1];
      FirstsHoldAll(before);
      assert frames == before + [f];
    }
  }

  /** For any reordering and duplication within those limits, each frame passes exactly once. */
  lemma ExactlyOnce(frames: seq<nat>, f: nat)
    requires Each(frames, Orderly) && f in frames
    ensures multiset(Accepted(frames))[f] == 1
  {
    AllOrderlyAllTold(frames);
    IdealExactlyWhen(frames);
    FirstsHoldAll(frames);
    OnceIfDistinct(Firsts(frames), f);
  }

  lemma {:induction false} OnceIfDistinct(s: seq<nat>, f: nat)
    requires Distinct(s)
    ensures multiset(s)[f] == if f in s then 1 else 0
  {
    if s != [] {
      var t := s[..|s| - 1];
      assert s == t + [s[|s| - 1]];
      OnceIfDistinct(t, f);
    }
  }
}
