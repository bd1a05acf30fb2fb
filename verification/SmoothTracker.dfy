/** The landing smoother: a clamped exponential average of detected positions with a hold over
    missed frames. Arithmetic is exact where the source rounds to floating point. */
module SmoothTracker {
  import opened Options

  datatype Vec = Vec(x: real, y: real)

  function Abs(x: real): real { if x >= 0.0 then x else -x }

  function MinReal(a: real, b: real): real { if a <= b then a else b }

  function MaxReal(a: real, b: real): real { if a >= b then a else b }

  function Blend(prev: real, next: real, alpha: real): real {
    prev * (1.0 - alpha) + next * alpha
  }

  function Clamp(d: real, jump: real): real {
    MaxReal(-jump, MinReal(d, jump))
  }

  /** The Euclidean distance exceeds `jump`, without the square root: it always exceeds a negative bound. */
  predicate Farther(d: Vec, jump: real) {
    jump < 0.0 || d.x * d.x + d.y * d.y > jump * jump
  }

  /** The raw position, pulled back to a box around the current one if it jumped too far. */
  function Limited(pos: Vec, raw: Vec, jump: real): Vec {
    if Farther(Vec(raw.x - pos.x, raw.y - pos.y), jump)
    then Vec(pos.x + Clamp(raw.x - pos.x, jump), pos.y + Clamp(raw.y - pos.y, jump))
    else raw
  }

  function NextPos(pos: Vec, raw: Vec, jump: real, alpha: real): Vec {
    var to := Limited(pos, raw, jump);
    Vec(Blend(pos.x, to.x, alpha), Blend(pos.y, to.y, alpha))
  }

  /** Python's rounding: to the nearest integer, halves to the even one. */
  function Round(r: real): int {
    var low := r.Floor;
    var part := r - low as real;
    if part < 0.5 then low else if part > 0.5 then low + 1 else if low % 2 == 0 then low else low + 1
  }

  /** The nearest integer, and of two equally near ones the even one. */
  lemma RoundNearest(r: real)
    ensures -0.5 <= Round(r) as real - r <= 0.5
    ensures Round(r) as real - r == 0.5 || Round(r) as real - r == -0.5 ==> Round(r) % 2 == 0
  {
  }

  lemma RoundKeepsBounds(lo: int, hi: int, r: real)
    requires lo as real <= r <= hi as real
    ensures lo <= Round(r) <= hi
  {
  }

  // ---- The two axes do not influence each other ----

  /** A detection with the jump bound in force when it was accepted. */
  datatype Frame = Frame(x: int, y: int, jump: real)

  /** What one axis sees of a frame. */
  datatype Sight = Sight(at: real, jump: real)

  function Xs(frames: seq<Frame>): seq<Sight> {
    seq(|frames|, i requires 0 <= i < |frames| => Sight(frames[i].x as real, frames[i].jump))
  }

  function Ys(frames: seq<Frame>): seq<Sight> {
    seq(|frames|, i requires 0 <= i < |frames| => Sight(frames[i].y as real, frames[i].jump))
  }

  function At(f: Frame): Vec { Vec(f.x as real, f.y as real) }

  function SightX(f: Frame): Sight { Sight(f.x as real, f.jump) }

  function SightY(f: Frame): Sight { Sight(f.y as real, f.jump) }

  /** Taking the share `alpha` of a distance. */
  function Share(alpha: real): real -> real {
    d => alpha * d
  }

  /** One coordinate on its own: it moves by a share of its clamped error. */
  function Pulled(q: real, s: Sight, share: real -> real): real {
    q + share(Clamp(s.at - q, s.jump))
  }

  function Mover(alpha: real): (Vec, Frame) -> Vec {
    (p, f) => NextPos(p, At(f), f.jump, alpha)
  }

  function Puller(share: real -> real): (real, Sight) -> real {
    (q, s) => Pulled(q, s, share)
  }

  function After<P, F>(p: P, fs: seq<F>, move: (P, F) -> P): P {
    if fs == [] then p else var n := |fs| - 1; move(After(p, fs[..n], move), fs[n])
  }

  predicate NoNegativeJump(frames: seq<Frame>) {
    forall i :: 0 <= i < |frames| ==> frames[i].jump >= 0.0
  }

  lemma ProductPositive(a: real, b: real)
    requires a > 0.0 && b > 0.0
    ensures a * b > 0.0
  {
  }

  lemma SquareGrows(a: real, b: real)
    requires a > b >= 0.0
    ensures a * a > b * b
  {
    ProductPositive(a - b, a + b);
    assert a * a - b * b == (a - b) * (a + b);
  }

  lemma SquareBound(d: real, e: real, jump: real)
    requires jump >= 0.0 && d * d + e * e <= jump * jump
    ensures -jump <= d <= jump
  {
    assert e * e >= 0.0;
    if d > jump || d < -jump {
      SquareGrows(Abs(d), jump);
    }
  }

  lemma BlendMoves(p: real, d: real, alpha: real)
    ensures Blend(p, p + d, alpha) == p + Share(alpha)(d)
  {
  }

  /** The jump test looks at both coordinates, yet whether it fires makes no difference. */
  lemma StepApart(p: Vec, raw: Vec, jump: real, alpha: real)
    requires jump >= 0.0
    ensures NextPos(p, raw, jump, alpha)
            == Vec(Pulled(p.x, Sight(raw.x, jump), Share(alpha)), Pulled(p.y, Sight(raw.y, jump), Share(alpha)))
  {
    var d := Vec(raw.x - p.x, raw.y - p.y);
    if !Farther(d, jump) {
      SquareBound(d.x, d.y, jump);
      SquareBound(d.y, d.x, jump);
    }
    BlendMoves(p.x, Clamp(d.x, jump), alpha);
    BlendMoves(p.y, Clamp(d.y, jump), alpha);
  }

  /** `move` is `pull` on either axis. */
  ghost predicate Apart(move: (Vec, Frame) -> Vec, pull: (real, Sight) -> real) {
    forall q: Vec, f: Frame :: f.jump >= 0.0 ==> move(q, f) == Vec(pull(q.x, SightX(f)), pull(q.y, SightY(f)))
  }

  lemma MoverApart(alpha: real)
    ensures Apart(Mover(alpha), Puller(Share(alpha)))
  {
    forall q: Vec, f: Frame | f.jump >= 0.0
      ensures Mover(alpha)(q, f) == Vec(Puller(Share(alpha))(q.x, SightX(f)), Puller(Share(alpha))(q.y, SightY(f)))
    {
      StepApart(q, At(f), f.jump, alpha);
    }
  }

  lemma {:induction false} RunsApart(p: Vec, frames: seq<Frame>, move: (Vec, Frame) -> Vec, pull: (real, Sight) -> real)
    requires NoNegativeJump(frames) && Apart(move, pull)
    ensures After(p, frames, move) == Vec(After(p.x, Xs(frames), pull), After(p.y, Ys(frames), pull))
  {
    if frames != [] {
      var n := |frames| - 1;
      RunsApart(p, frames[..n], move, pull);
      assert Xs(frames)[..n] == Xs(frames[..n]) && Ys(frames)[..n] == Ys(frames[..n]);
    }
  }

  /** Over any number of frames each coordinate moves as if the other did not exist. */
  lemma AxesApart(p: Vec, frames: seq<Frame>, alpha: real)
    requires NoNegativeJump(frames)
    ensures var pull := Puller(Share(alpha));
            After(p, frames, Mover(alpha)) == Vec(After(p.x, Xs(frames), pull), After(p.y, Ys(frames), pull))
  {
    MoverApart(alpha);
    RunsApart(p, frames, Mover(alpha), Puller(Share(alpha)));
  }

  // ---- The smoothed position stays among the detections ----

  /** A share never exceeds the distance, has its sign, and grows with it. */
  ghost predicate Fractional(share: real -> real) {
    && (forall d :: d >= 0.0 ==> 0.0 <= share(d) <= d)
    && (forall c, d :: c == -d ==> share(c) == -share(d))
    && (forall c, d :: c <= d ==> share(c) <= share(d))
  }

  lemma ShareFractional(alpha: real)
    requires 0.0 <= alpha <= 1.0
    ensures Fractional(Share(alpha))
  {
    forall d | d >= 0.0 ensures 0.0 <= Share(alpha)(d) <= d {
      ShareBounded(alpha, d);
    }
    forall c, d | c == -d ensures Share(alpha)(c) == -Share(alpha)(d) {
      ShareOdd(alpha, d);
    }
    forall c, d | c <= d ensures Share(alpha)(c) <= Share(alpha)(d) {
      ShareMonotone(alpha, c, d);
    }
  }

  lemma ShareBounded(alpha: real, d: real)
    requires 0.0 <= alpha <= 1.0 && d >= 0.0
    ensures 0.0 <= Share(alpha)(d) <= d
  {
    Product(alpha, d);
    Product(1.0 - alpha, d);
  }

  lemma ShareOdd(alpha: real, d: real)
    ensures Share(alpha)(-d) == -Share(alpha)(d)
  {
  }

  lemma ShareMonotone(alpha: real, c: real, d: real)
    requires 0.0 <= alpha && c <= d
    ensures Share(alpha)(c) <= Share(alpha)(d)
  {
    Product(alpha, d - c);
  }

  lemma Product(a: real, b: real)
    requires a >= 0.0 && b >= 0.0
    ensures a * b >= 0.0
  {
  }

  /** For a fixed target the error keeps its sign and shrinks by the share of min(|e|, jump), exactly. */
  lemma ErrorShrinks(q: real, s: Sight, share: real -> real)
    requires Fractional(share) && s.jump >= 0.0
    ensures var (e, f) := (s.at - q, s.at - Pulled(q, s, share));
            Shrinks(e, f) && Abs(f) == Abs(e) - share(MinReal(Abs(e), s.jump))
  {
    var e := s.at - q;
    var m := MinReal(Abs(e), s.jump);
    assert 0.0 <= share(m) <= m && share(-m) == -share(m);
    assert Clamp(e, s.jump) == if e >= 0.0 then m else -m;
  }

  /** The error goes from `d` to `e` without growing or changing sign. */
  predicate Shrinks(d: real, e: real) {
    (d >= 0.0 ==> 0.0 <= e <= d) && (d <= 0.0 ==> d <= e <= 0.0)
  }

  lemma AxisLaw(q: real, s: Sight, alpha: real)
    requires 0.0 <= alpha <= 1.0 && s.jump >= 0.0
    ensures var (e, f) := (s.at - q, s.at - Pulled(q, s, Share(alpha)));
            Shrinks(e, f) && Abs(f) == Abs(e) - Share(alpha)(MinReal(Abs(e), s.jump))
  {
    ShareFractional(alpha);
    ErrorShrinks(q, s, Share(alpha));
  }

  /** The law of one accepted frame: on either axis the error keeps its sign and shrinks by exactly
      alpha * min(|e|, jump). */
  lemma FrameLaw(p: Vec, raw: Vec, jump: real, alpha: real)
    requires 0.0 <= alpha <= 1.0 && jump >= 0.0
    ensures var q := NextPos(p, raw, jump, alpha);
            && Shrinks(raw.x - p.x, raw.x - q.x)
            && Abs(raw.x - q.x) == Abs(raw.x - p.x) - Share(alpha)(MinReal(Abs(raw.x - p.x), jump))
            && Shrinks(raw.y - p.y, raw.y - q.y)
            && Abs(raw.y - q.y) == Abs(raw.y - p.y) - Share(alpha)(MinReal(Abs(raw.y - p.y), jump))
  {
    StepApart(p, raw, jump, alpha);
    AxisLaw(p.x, Sight(raw.x, jump), alpha);
    AxisLaw(p.y, Sight(raw.y, jump), alpha);
  }

  predicate NextBetween(p: Vec, raw: Vec, jump: real, alpha: real) {
    var q := NextPos(p, raw, jump, alpha);
    Shrinks(raw.x - p.x, raw.x - q.x) && Shrinks(raw.y - p.y, raw.y - q.y)
  }

  lemma StaysBetween(p: Vec, raw: Vec, jump: real, alpha: real)
    requires 0.0 <= alpha <= 1.0 && jump >= 0.0
    ensures NextBetween(p, raw, jump, alpha)
  {
    FrameLaw(p, raw, jump, alpha);
  }

  /** A negative bound turns the clamp round: every frame moves by the bound's size, whatever it saw. */
  lemma NegativeBound(p: Vec, raw: Vec, jump: real, alpha: real)
    requires jump < 0.0
    ensures NextPos(p, raw, jump, alpha) == Vec(p.x + Share(alpha)(-jump), p.y + Share(alpha)(-jump))
  {
    BlendMoves(p.x, -jump, alpha);
    BlendMoves(p.y, -jump, alpha);
  }

  lemma ZeroShare(alpha: real)
    ensures Share(alpha)(0.0) == 0.0
  {
  }

  lemma ProductNonzero(a: real, b: real)
    requires a != 0.0 && b != 0.0
    ensures a * b != 0.0
  {
    ProductPositive(Abs(a), Abs(b));
  }

  lemma NeverMoves(p: Vec, raw: Vec, jump: real, alpha: real)
    requires alpha == 0.0 || jump == 0.0
    ensures NextBetween(p, raw, jump, alpha)
  {
    if jump < 0.0 {
      NegativeBound(p, raw, jump, alpha);
    } else {
      StepApart(p, raw, jump, alpha);
      ZeroShare(alpha);
    }
  }

  lemma Overshoots(jump: real, alpha: real)
    requires alpha != 0.0 && jump != 0.0 && (jump < 0.0 || !(0.0 <= alpha <= 1.0))
    ensures !NextBetween(Vec(0.0, 0.0), Vec(if jump < 0.0 then 0.0 else jump, 0.0), jump, alpha)
  {
    var zero := Vec(0.0, 0.0);
    if jump < 0.0 {
      NegativeBound(zero, zero, jump, alpha);
      ProductNonzero(alpha, -jump);
    } else {
      StepApart(zero, Vec(jump, 0.0), jump, alpha);
      assert Clamp(jump, jump) == jump;
      ShareOutside(alpha, jump);
      assert NextPos(zero, Vec(jump, 0.0), jump, alpha).x == 0.0 + Share(alpha)(jump);
    }
  }

  lemma ShareOutside(alpha: real, d: real)
    requires d > 0.0 && !(0.0 <= alpha <= 1.0)
    ensures Share(alpha)(d) < 0.0 || Share(alpha)(d) > d
  {
    if alpha < 0.0 {
      ProductPositive(-alpha, d);
    } else {
      ProductPositive(alpha - 1.0, d);
    }
  }

  /** A frame never carries the position past the detection or away from it, whatever the position
      and the detection, exactly when it does not move at all or the bound is positive and the
      weight lies between zero and one. */
  lemma BetweenExactlyWhen(jump: real, alpha: real)
    ensures (forall p, raw :: NextBetween(p, raw, jump, alpha))
            <==> alpha == 0.0 || jump == 0.0 || (jump > 0.0 && 0.0 <= alpha <= 1.0)
  {
    if alpha == 0.0 || jump == 0.0 {
      forall p, raw ensures NextBetween(p, raw, jump, alpha) {
        NeverMoves(p, raw, jump, alpha);
      }
    } else if jump > 0.0 && 0.0 <= alpha <= 1.0 {
      forall p, raw ensures NextBetween(p, raw, jump, alpha) {
        StaysBetween(p, raw, jump, alpha);
      }
    } else {
      Overshoots(jump, alpha);
    }
  }

  /** The jump bound of an image: a fraction of its longer side. */
  function JumpFor(width: int, height: int, fraction: real): real {
    var side := if width >= height then width else height;
    (if side >= 1 then side else 1) as real * fraction
  }

  /** The longer side counts, and a side of at least one pixel. */
  lemma JumpByLongerSide(width: int, height: int, fraction: real)
    ensures JumpFor(width, height, fraction) == JumpFor(height, width, fraction)
    ensures width >= height && width >= 1 ==> JumpFor(width, height, fraction) == width as real * fraction
    ensures width <= 1 && height <= 1 ==> JumpFor(width, height, fraction) == fraction
  {
  }

  lemma JumpSign(width: int, height: int, fraction: real)
    ensures JumpFor(width, height, fraction) > 0.0 <==> fraction > 0.0
    ensures JumpFor(width, height, fraction) == 0.0 <==> fraction == 0.0
  {
    var side := if width >= height then width else height;
    var s := (if side >= 1 then side else 1) as real;
    if fraction > 0.0 {
      ProductPositive(s, fraction);
    } else if fraction < 0.0 {
      ProductPositive(s, -fraction);
    }
  }

  /** So a tracker never overshoots, on images of any size, exactly for these parameters. */
  lemma ParametersExactlyWhen(fraction: real, alpha: real)
    ensures (forall width, height, p, raw :: NextBetween(p, raw, JumpFor(width, height, fraction), alpha))
            <==> alpha == 0.0 || fraction == 0.0 || (fraction > 0.0 && 0.0 <= alpha <= 1.0)
  {
    if alpha == 0.0 || fraction == 0.0 || (fraction > 0.0 && 0.0 <= alpha <= 1.0) {
      forall width, height, p, raw ensures NextBetween(p, raw, JumpFor(width, height, fraction), alpha) {
        JumpSign(width, height, fraction);
        BetweenExactlyWhen(JumpFor(width, height, fraction), alpha);
      }
    } else {
      var jump := JumpFor(1, 1, fraction);
      JumpSign(1, 1, fraction);
      Overshoots(jump, alpha);
      assert !NextBetween(Vec(0.0, 0.0), Vec(if jump < 0.0 then 0.0 else jump, 0.0), JumpFor(1, 1, fraction), alpha);
    }
  }

  /** A negative jump fraction overshoots with any weight but zero: with one half, a detection at
      (-1, 0) moves the position to (0.5, 0.5). */
  lemma NegativeFractionOvershoots()
    ensures NextPos(Vec(0.0, 0.0), Vec(-1.0, 0.0), -1.0, 0.5) == Vec(0.5, 0.5)
    ensures !NextBetween(Vec(0.0, 0.0), Vec(-1.0, 0.0), -1.0, 0.5)
  {
    NegativeBound(Vec(0.0, 0.0), Vec(-1.0, 0.0), -1.0, 0.5);
  }

  /** `lo` and `hi` bound everything the axis has seen. */
  predicate Inside(sights: seq<Sight>, lo: real, hi: real) {
    forall i :: 0 <= i < |sights| ==> lo <= sights[i].at <= hi && sights[i].jump >= 0.0
  }

  lemma {:induction false} StaysInside(p: real, sights: seq<Sight>, share: real -> real, lo: real, hi: real)
    requires Fractional(share) && Inside(sights, lo, hi) && lo <= p <= hi
    ensures lo <= After(p, sights, Puller(share)) <= hi
  {
    if sights != [] {
      var n := |sights| - 1;
      StaysInside(p, sights[..n], share, lo, hi);
      ErrorShrinks(After(p, sights[..n], Puller(share)), sights[n], share);
    }
  }

  // ---- A target that stops moving ----

  predicate AllAt(sights: seq<Sight>, target: real, bound: real) {
    forall i :: 0 <= i < |sights| ==> sights[i].at == target && sights[i].jump >= bound
  }

  /** The error is within the bound, or has dropped by `drop`. */
  predicate Drops(d: real, e: real, bound: real, drop: real) {
    Abs(e) <= bound || Abs(e) <= Abs(d) - drop
  }

  function Repeated(drop: real, n: nat): real {
    if n == 0 then 0.0 else Repeated(drop, n - 1) + drop
  }

  /** The error of an axis after `n` frames of a target that stands still. */
  ghost predicate Approaches(d: real, e: real, share: real -> real, bound: real, n: nat) {
    Shrinks(d, e) && Drops(d, e, bound, Repeated(share(bound), n))
  }

  /** The error never changes sign and never grows, and until it is within the bound each frame
      takes at least the share of the bound off it. */
  lemma {:induction false} Converges(p: real, sights: seq<Sight>, share: real -> real, target: real, bound: real)
    requires Fractional(share) && bound >= 0.0 && AllAt(sights, target, bound)
    ensures Approaches(target - p, target - After(p, sights, Puller(share)), share, bound, |sights|)
  {
    if sights != [] {
      var n := |sights| - 1;
      Converges(p, sights[..n], share, target, bound);
      ErrorShrinks(After(p, sights[..n], Puller(share)), sights[n], share);
    }
  }

  function Power(b: real, n: nat): real {
    if n == 0 then 1.0 else Power(b, n - 1) * b
  }

  /** What is left of a distance after `n` shares are taken off it, one after the other. */
  function Left(share: real -> real, n: nat, d: real): real {
    if n == 0 then d else var e := Left(share, n - 1, d); e - share(e)
  }

  lemma {:induction false} LeftIsPower(alpha: real, n: nat, d: real)
    ensures Left(Share(alpha), n, d) == Power(1.0 - alpha, n) * d
  {
    if n > 0 {
      LeftIsPower(alpha, n - 1, d);
      Rescaled(alpha, Power(1.0 - alpha, n - 1), d);
    }
  }

  lemma Rescaled(alpha: real, k: real, d: real)
    ensures k * d - alpha * (k * d) == k * (1.0 - alpha) * d
  {
  }

  lemma PulledFully(q: real, s: Sight, share: real -> real)
    requires s.jump >= Abs(s.at - q)
    ensures Pulled(q, s, share) == q + share(s.at - q)
  {
    assert Clamp(s.at - q, s.jump) == s.at - q;
  }

  /** Once within the bound, every frame leaves exactly the rest of the error. */
  lemma {:induction false} Decays(p: real, sights: seq<Sight>, share: real -> real, target: real)
    requires Fractional(share) && AllAt(sights, target, Abs(target - p))
    ensures target - After(p, sights, Puller(share)) == Left(share, |sights|, target - p)
  {
    if sights != [] {
      var n := |sights| - 1;
      Decays(p, sights[..n], share, target);
      Converges(p, sights[..n], share, target, Abs(target - p));
      PulledFully(After(p, sights[..n], Puller(share)), sights[n], share);
    }
  }

  /** A run on one axis that starts and ends as `Converges` says. */
  ghost predicate Draws(pull: (real, Sight) -> real, share: real -> real, bound: real) {
    forall p, sights, target :: AllAt(sights, target, bound) ==>
      Approaches(target - p, target - After(p, sights, pull), share, bound, |sights|)
  }

  lemma PullerDraws(share: real -> real, bound: real)
    requires Fractional(share) && bound >= 0.0
    ensures Draws(Puller(share), share, bound)
  {
    forall p, sights, target | AllAt(sights, target, bound)
      ensures Approaches(target - p, target - After(p, sights, Puller(share)), share, bound, |sights|)
    {
      Converges(p, sights, share, target, bound);
    }
  }

  lemma TrackerDraws(alpha: real, bound: real)
    requires 0.0 <= alpha <= 1.0 && bound >= 0.0
    ensures Draws(Puller(Share(alpha)), Share(alpha), bound)
  {
    ShareFractional(alpha);
    PullerDraws(Share(alpha), bound);
  }

  predicate AllStill(still: seq<Frame>, x: int, y: int, bound: real) {
    forall i :: 0 <= i < |still| ==> still[i].x == x && still[i].y == y && still[i].jump >= bound
  }

  lemma BothAxesDrawn(p: Vec, still: seq<Frame>, move: (Vec, Frame) -> Vec, pull: (real, Sight) -> real,
                      share: real -> real, x: int, y: int, bound: real)
    requires Apart(move, pull) && Draws(pull, share, bound) && bound >= 0.0 && AllStill(still, x, y, bound)
    ensures var q := After(p, still, move);
            && Approaches(x as real - p.x, x as real - q.x, share, bound, |still|)
            && Approaches(y as real - p.y, y as real - q.y, share, bound, |still|)
  {
    RunsApart(p, still, move, pull);
    assert AllAt(Xs(still), x as real, bound) && AllAt(Ys(still), y as real, bound);
  }

  /** Wherever the tracker's position is when the target stops moving, it approaches the target on
      both axes at once without overshooting either. */
  lemma StoppedTarget(p: Vec, still: seq<Frame>, alpha: real, x: int, y: int, bound: real)
    requires 0.0 <= alpha <= 1.0 && bound >= 0.0 && AllStill(still, x, y, bound)
    ensures var q := After(p, still, Mover(alpha));
            && Approaches(x as real - p.x, x as real - q.x, Share(alpha), bound, |still|)
            && Approaches(y as real - p.y, y as real - q.y, Share(alpha), bound, |still|)
  {
    MoverApart(alpha);
    TrackerDraws(alpha, bound);
    BothAxesDrawn(p, still, Mover(alpha), Puller(Share(alpha)), Share(alpha), x, y, bound);
  }

  // ---- Direction with hysteresis ----

  datatype Side = Neg | Centre | Pos

  function ThresholdOff(threshold: int, hysteresis: int): int {
    if threshold - hysteresis >= 6 then threshold - hysteresis else 6
  }

  /** One axis of the direction: RIGHT or DOWN is `Pos`, LEFT or UP is `Neg`. */
  function DirectionOf(offset: int, prev: Side, threshold: int, hysteresis: int): Side {
    var off := ThresholdOff(threshold, hysteresis);
    var on := match prev
              case Pos => offset > off
              case Neg => offset < -off
              case Centre => offset > threshold || -offset > threshold;
    if !on then Centre else if offset > 0 then Pos else Neg
  }

  /** Which side is shown, exactly. A side shown before is kept while the offset is on that side past
      the release threshold, the trigger threshold less the hysteresis but at least six pixels; out of
      the centre a side is shown past the trigger threshold. */
  lemma DirectionExact(offset: int, threshold: int, hysteresis: int)
    ensures var release := if threshold - hysteresis > 6 then threshold - hysteresis else 6;
            && (DirectionOf(offset, Pos, threshold, hysteresis) == if offset > release then Pos else Centre)
            && (DirectionOf(offset, Neg, threshold, hysteresis) == if -offset > release then Neg else Centre)
            && (offset > 0 ==> DirectionOf(offset, Centre, threshold, hysteresis)
                               == if offset > threshold || -offset > threshold then Pos else Centre)
            && (offset <= 0 ==> DirectionOf(offset, Centre, threshold, hysteresis)
                                == if -offset > threshold || offset > threshold then Neg else Centre)
  {
  }

  /** Seen at one offset, the direction no longer changes after the second frame. */
  predicate Steady(offset: int, prev: Side, threshold: int, hysteresis: int) {
    var first := DirectionOf(offset, prev, threshold, hysteresis);
    var second := DirectionOf(offset, first, threshold, hysteresis);
    DirectionOf(offset, second, threshold, hysteresis) == second
  }

  /** An unmoving target shows a steady direction, at every offset and whatever was shown before,
      exactly when the release threshold does not exceed the trigger threshold. */
  lemma SteadyExactlyWhen(threshold: int, hysteresis: int)
    ensures (forall offset, prev :: Steady(offset, prev, threshold, hysteresis))
            <==> ThresholdOff(threshold, hysteresis) <= threshold
  {
    if ThresholdOff(threshold, hysteresis) > threshold {
      assert !Steady(if threshold >= 0 then threshold + 1 else 1, Centre, threshold, hysteresis);
    }
  }

  // ---- The tracker ----

  datatype Raw = Nothing | Detected(x: int, y: int)

  datatype Report = Report(x: int, y: int, offX: int, offY: int, dirX: Side, dirY: Side, hold: bool)

  /** A detection among the last `n` calls. */
  ghost predicate SeenWithin(calls: seq<bool>, n: nat) {
    exists i :: 0 <= i < |calls| && |calls| - n <= i && calls[i]
  }

  function Tracked(frames: seq<Frame>, alpha: real): Vec
    requires frames != []
  {
    After(At(frames[0]), frames[1..], Mover(alpha))
  }

  lemma MovedOnce(frames: seq<Frame>, f: Frame, alpha: real)
    ensures Tracked(frames + [f], alpha)
            == if frames == [] then At(f) else NextPos(Tracked(frames, alpha), At(f), f.jump, alpha)
  {
    if frames != [] {
      assert (frames + [f])[1..] == frames[1..] + [f];
      assert (frames[1..] + [f])[..|frames| - 1] == frames[1..];
    }
  }

  /** The report shows the average of the detections since the last reset, rounded. */
  predicate Shown(r: Report, frames: seq<Frame>, alpha: real)
    requires frames != []
  {
    r.x == Round(Tracked(frames, alpha).x) && r.y == Round(Tracked(frames, alpha).y)
  }

  /** Whatever box holds the detections since the last reset holds the position shown. */
  lemma ShownAmongDetections(r: Report, frames: seq<Frame>, alpha: real, west: int, east: int, north: int, south: int)
    requires frames != [] && Shown(r, frames, alpha)
    requires 0.0 <= alpha <= 1.0 && NoNegativeJump(frames)
    requires forall i :: 0 <= i < |frames| ==> west <= frames[i].x <= east && north <= frames[i].y <= south
    ensures west <= r.x <= east && north <= r.y <= south
  {
    var p, rest := At(frames[0]), frames[1..];
    AxesApart(p, rest, alpha);
    ShareFractional(alpha);
    StaysInside(p.x, Xs(rest), Share(alpha), west as real, east as real);
    StaysInside(p.y, Ys(rest), Share(alpha), north as real, south as real);
    RoundKeepsBounds(west, east, Tracked(frames, alpha).x);
    RoundKeepsBounds(north, south, Tracked(frames, alpha).y);
  }

  class Tracker {
    const emaAlpha: real
    const holdFrames: int
    const maxJumpFrac: real
    const threshold: int
    const hysteresis: int

    var smooth: Option<Report>
    var pos: Option<Vec>
    var dirX: Side
    var dirY: Side
    var missStreak: nat

    ghost var Calls: seq<bool>    // of every call, whether it carried a detection
    ghost var Frames: seq<Frame>  // the detections since the last reset

    ghost predicate Valid()
      reads this
    {
      && holdFrames >= 1
      && (smooth.Some? <==> Frames != [])
      && pos == (if Frames == [] then None else Some(Tracked(Frames, emaAlpha)))
      && (smooth.Some? ==>
            && Shown(smooth.value, Frames, emaAlpha)
            && missStreak <= holdFrames
            && missStreak < |Calls|
            && Calls[|Calls| - 1 - missStreak])
      && (smooth.None? ==> !SeenWithin(Calls, holdFrames))
      && missStreak <= |Calls|
      && (forall i :: |Calls| - missStreak <= i < |Calls| ==> !Calls[i])
    }

    constructor (emaAlpha: real, holdFrames: int, maxJumpFrac: real, threshold: int, hysteresis: int)
      ensures Valid() && Calls == [] && Frames == []
      ensures this.emaAlpha == emaAlpha && this.maxJumpFrac == maxJumpFrac
      ensures this.holdFrames == if holdFrames >= 1 then holdFrames else 1
      ensures this.threshold == threshold && this.hysteresis == hysteresis
    {
      this.emaAlpha := emaAlpha;
      this.holdFrames := if holdFrames >= 1 then holdFrames else 1;
      this.maxJumpFrac := maxJumpFrac;
      this.threshold := threshold;
      this.hysteresis := hysteresis;
      smooth, pos, dirX, dirY, missStreak := None, None, Centre, Centre, 0;
      Calls, Frames := [], [];
    }

    method Reset()
      modifies this
      ensures smooth == None && pos == None && dirX == Centre && dirY == Centre && missStreak == 0
      ensures Frames == [] && Calls == old(Calls)
    {
      smooth, pos, dirX, dirY, missStreak := None, None, Centre, Centre, 0;
      Frames := [];
    }

    /** A frame without a detection: the last report again while the hold lasts, then nothing. */
    method Miss() returns (r: Option<Report>)
      requires Valid()
      modifies this
      ensures Valid() && Calls == old(Calls) + [false]
      ensures r.Some? <==> SeenWithin(Calls, holdFrames + 1)
      ensures r.Some? ==> old(smooth).Some? && r.value == old(smooth).value.(hold := true)
      ensures r.Some? ==> smooth == old(smooth) && dirX == old(dirX) && dirY == old(dirY) && Frames == old(Frames)
      ensures smooth.None? ==> Frames == [] && (old(smooth).Some? ==> dirX == dirY == Centre)
    {
      missStreak := missStreak + 1;
      Calls := Calls + [false];
      if smooth.Some? && missStreak <= holdFrames {
        assert Calls[|Calls| - 1 - missStreak];
        return Some(smooth.value.(hold := true));
      }
      if missStreak > holdFrames {
        Reset();
      }
      r := None;
    }

    /** A detection: the position moves by one frame, and the report shows it, rounded, with its
        offset from the centre of the image and the direction that follows the one shown before. */
    method Hit(x: int, y: int, width: int, height: int) returns (r: Option<Report>)
      requires Valid()
      modifies this
      ensures Valid() && Calls == old(Calls) + [true]
      ensures Frames == old(Frames) + [Frame(x, y, MaxJump(width, height))]
      ensures r.Some? && r == smooth && !r.value.hold && missStreak == 0
      ensures r.value.offX == r.value.x - width / 2 && r.value.offY == height / 2 - r.value.y
      ensures r.value.dirX == dirX == DirectionOf(r.value.offX, old(dirX), threshold, hysteresis)
      ensures r.value.dirY == dirY == DirectionOf(r.value.offY, old(dirY), threshold, hysteresis)
    {
      missStreak := 0;
      var raw := Vec(x as real, y as real);
      var jump := MaxJump(width, height);
      var next := if pos.Some? then NextPos(pos.value, raw, jump, emaAlpha) else raw;
      MovedOnce(Frames, Frame(x, y, jump), emaAlpha);
      Frames := Frames + [Frame(x, y, jump)];
      Calls := Calls + [true];
      pos := Some(next);
      var sx, sy := Round(next.x), Round(next.y);
      var offX, offY := sx - width / 2, height / 2 - sy;
      dirX := DirectionOf(offX, dirX, threshold, hysteresis);
      dirY := DirectionOf(offY, dirY, threshold, hysteresis);
      smooth := Some(Report(sx, sy, offX, offY, dirX, dirY, false));
      r := smooth;
    }

    function MaxJump(width: int, height: int): real {
      JumpFor(width, height, maxJumpFrac)
    }

    /** A result is shown exactly when this call or one of the `holdFrames` before it carried a
        detection. */
    method Accept(raw: Raw, width: int, height: int) returns (r: Option<Report>)
      requires Valid()
      modifies this
      ensures Valid()
      ensures Calls == old(Calls) + [raw.Detected?]
      ensures r.Some? <==> SeenWithin(Calls, holdFrames + 1)
      ensures raw.Detected? ==> Frames == old(Frames) + [Frame(raw.x, raw.y, MaxJump(width, height))]
      ensures raw.Nothing? ==> Frames == if r.Some? then old(Frames) else []
      ensures r.Some? ==> Frames != [] && Shown(r.value, Frames, emaAlpha)
      ensures r.Some? ==> (r.value.hold <==> raw.Nothing?)
    {
      if raw.Nothing? {
        r := Miss();
      } else {
        r := Hit(raw.x, raw.y, width, height);
        assert Calls[|Calls| - 1];
      }
    }
  }
}
