/**
 The dot placement of the Open Graph image generator.

 Candidate centres are drawn uniformly over the canvas; a centre inside the
 padded "safe" rectangle around the title is rejected; an accepted centre gets
 a radius biased towards the small end and an opacity that fades towards the
 canvas edges. The loop stops at the dot count or at forty attempts per dot.

 Python's generator is replaced by the stream `rng` of the values its
 `random()` returns, each in [0, 1), consumed in the program's order: two per
 attempt for the centre and one more per accepted dot for the radius.
 Arithmetic is exact (`real`).
 */
module OgDots {

  /** The keyword arguments of the generator that shape the placement. */
  datatype Config = Config(
    width: int,
    height: int,
    dotCount: int,
    rMin: real,
    rMax: real,
    safeW: int,
    safeH: int,
    safePad: int)

  /** The generator's default arguments (the seed is not modelled). */
  const DefaultConfig := Config(1200, 630, 850, 1.4, 5.2, 980, 250, 36)

  /** One placed dot: centre, radius and opacity. */
  datatype Dot = Dot(x: real, y: real, r: real, opacity: real)

  /** A closed axis-aligned rectangle. */
  datatype Rect = Rect(x0: real, y0: real, x1: real, y1: real) {
    predicate Contains(x: real, y: real) {
      x0 <= x <= x1 && y0 <= y <= y1
    }
  }

  function Min(a: real, b: real): (m: real) { if a <= b then a else b }
  function Max(a: real, b: real): (m: real) { if a <= b then b else a }

  /** `v` lies between `a` and `b`, in whichever order they come. */
  predicate Between(v: real, a: real, b: real) {
    Min(a, b) <= v <= Max(a, b)
  }

  /** Every draw is a value `random()` can return. */
  predicate UnitDraws(rng: seq<real>) {
    forall i :: 0 <= i < |rng| ==> 0.0 <= rng[i] < 1.0
  }

  /** The attempt cap: forty attempts per requested dot. */
  function MaxAttempts(c: Config): (n: int)
    ensures c.dotCount > 0 ==> n > c.dotCount
    ensures c.dotCount <= 0 ==> n <= 0
  {
    c.dotCount * 40
  }

  /** The title's rectangle, `safeW` by `safeH` and centred on the canvas,
      grown by `safePad` on every side. */
  function SafeRect(c: Config): (s: Rect)
    ensures s.x0 + s.x1 == c.width as real && s.y0 + s.y1 == c.height as real
    ensures s.x1 - s.x0 == (c.safeW + 2 * c.safePad) as real
    ensures s.y1 - s.y0 == (c.safeH + 2 * c.safePad) as real
  {
    Rect(
      (c.width - c.safeW) as real / 2.0 - c.safePad as real,
      (c.height - c.safeH) as real / 2.0 - c.safePad as real,
      (c.width + c.safeW) as real / 2.0 + c.safePad as real,
      (c.height + c.safeH) as real / 2.0 + c.safePad as real)
  }

  /** With the default arguments the safe rectangle is [74, 1126] by [154, 476],
      strictly inside the 1200 by 630 canvas, so centres can land on all four sides of it. */
  lemma DefaultSafeRect()
    ensures SafeRect(DefaultConfig) == Rect(74.0, 154.0, 1126.0, 476.0)
    ensures 0.0 < SafeRect(DefaultConfig).x0 && SafeRect(DefaultConfig).x1 < DefaultConfig.width as real
    ensures 0.0 < SafeRect(DefaultConfig).y0 && SafeRect(DefaultConfig).y1 < DefaultConfig.height as real
  {
  }

  lemma MulNonneg(x: real, y: real)
    requires 0.0 <= x && 0.0 <= y
    ensures 0.0 <= x * y
  {
  }

  /** Moving a fraction `q` of the way from `a` to `b` stays between them. */
  lemma Interpolate(a: real, b: real, q: real)
    requires 0.0 <= q <= 1.0
    ensures Between(a + (b - a) * q, a, b)
  {
    if a <= b {
      MulNonneg(b - a, q);
      MulNonneg(b - a, 1.0 - q);
    } else {
      MulNonneg(a - b, q);
      MulNonneg(a - b, 1.0 - q);
    }
  }

  /** Python's `uniform(a, b)` given the `random()` value `u`. */
  function Uniform(a: real, b: real, u: real): (v: real)
    requires 0.0 <= u < 1.0
    ensures Between(v, a, b)
    ensures u == 0.0 ==> v == a
  {
    Interpolate(a, b, u);
    a + (b - a) * u
  }

  /** The radius for the draw `u`: `rMin` plus the span scaled by `u` squared. */
  function Radius(c: Config, u: real): (r: real)
    requires 0.0 <= u < 1.0
    ensures Between(r, c.rMin, c.rMax)
    ensures u == 0.0 ==> r == c.rMin
  {
    var q := u * u;
    MulNonneg(u, u);
    MulNonneg(u, 1.0 - u);
    Interpolate(c.rMin, c.rMax, q);
    c.rMin + (c.rMax - c.rMin) * q
  }

  /** The distance from `(x, y)` to the nearest canvas edge. */
  function EdgeDistance(c: Config, x: real, y: real): (e: real)
    ensures e <= x && e <= y && e <= c.width as real - x && e <= c.height as real - y
    ensures e == x || e == y || e == c.width as real - x || e == c.height as real - y
  {
    Min(Min(x, y), Min(c.width as real - x, c.height as real - y))
  }

  /** The fade factor: zero up to 6 pixels from the edge, rising linearly to
      one at 70 pixels, clamped to [0, 1]. */
  function Fade(edge: real): (f: real)
    ensures 0.0 <= f <= 1.0
    ensures f == 0.0 <==> edge <= 6.0
    ensures f == 1.0 <==> edge >= 70.0
    ensures 6.0 <= edge <= 70.0 ==> f * 64.0 == edge - 6.0
  {
    Max(0.0, Min(1.0, (edge - 6.0) / 64.0))
  }

  /** The opacity of a dot `edge` pixels from the nearest edge. */
  function Opacity(edge: real): (o: real)
    ensures 0.22 <= o <= 1.0
    ensures o == 0.22 <==> edge <= 6.0
    ensures o == 1.0 <==> edge >= 70.0
  {
    0.22 + 0.78 * Fade(edge)
  }

  /** Opacity never decreases as a dot moves away from the edges. */
  lemma OpacityMonotone(e1: real, e2: real)
    requires e1 <= e2
    ensures Opacity(e1) <= Opacity(e2)
  {
  }

  /** A larger draw never gives a smaller radius when `rMin <= rMax`. */
  lemma RadiusMonotone(c: Config, u: real, v: real)
    requires 0.0 <= u <= v < 1.0
    requires c.rMin <= c.rMax
    ensures Radius(c, u) <= Radius(c, v)
  {
    MulNonneg(u, v - u);
    MulNonneg(v, v - u);
    MulNonneg(c.rMax - c.rMin, v * v - u * u);
  }

  /** What every accepted dot satisfies. */
  predicate Acceptable(c: Config, d: Dot) {
    && !SafeRect(c).Contains(d.x, d.y)
    && Between(d.x, 0.0, c.width as real)
    && Between(d.y, 0.0, c.height as real)
    && Between(d.r, c.rMin, c.rMax)
    && d.opacity == Opacity(EdgeDistance(c, d.x, d.y))
  }

  /** The loop's state after some number of attempts. */
  datatype State = State(dots: seq<Dot>, attempts: nat, used: nat)

  const Start := State([], 0, 0)

  /** Every attempt takes two draws and every accepted one takes a third. */
  predicate Consistent(s: State) {
    |s.dots| <= s.attempts && s.used == 2 * s.attempts + |s.dots|
  }

  /** One pass of the loop body: draw a centre, reject it inside the safe
      rectangle, otherwise draw its radius and keep it. */
  function Step(c: Config, rng: seq<real>, s: State): (t: State)
    requires UnitDraws(rng) && s.used + 3 <= |rng|
    ensures t.attempts == s.attempts + 1
    ensures t.dots == s.dots || (|t.dots| == |s.dots| + 1 && t.dots[..|s.dots|] == s.dots && Acceptable(c, t.dots[|s.dots|]))
  {
    var x := Uniform(0.0, c.width as real, rng[s.used]);
    var y := Uniform(0.0, c.height as real, rng[s.used + 1]);
    if SafeRect(c).Contains(x, y) then
      State(s.dots, s.attempts + 1, s.used + 2)
    else
      var d := Dot(x, y, Radius(c, rng[s.used + 2]), Opacity(EdgeDistance(c, x, y)));
      assert (s.dots + [d])[..|s.dots|] == s.dots;
      State(s.dots + [d], s.attempts + 1, s.used + 3)
  }

  /** A step keeps a dot exactly when the drawn centre lies outside the safe
      rectangle, and the dot it keeps has that centre and the radius of the
      third draw. */
  lemma StepKeepsExactlyOutside(c: Config, rng: seq<real>, s: State)
    requires UnitDraws(rng) && s.used + 3 <= |rng|
    ensures var x := Uniform(0.0, c.width as real, rng[s.used]);
            var y := Uniform(0.0, c.height as real, rng[s.used + 1]);
            var t := Step(c, rng, s);
            && (|t.dots| == |s.dots| + 1 <==> !SafeRect(c).Contains(x, y))
            && (|t.dots| == |s.dots| + 1 ==>
                  t.dots[|s.dots|] == Dot(x, y, Radius(c, rng[s.used + 2]), Opacity(EdgeDistance(c, x, y))))
            && t.used == s.used + 2 + (|t.dots| - |s.dots|)
  {
  }

  /** The loop, run from state `s` until the dot count or the attempt cap is reached. */
  function Run(c: Config, rng: seq<real>, s: State): (t: State)
    requires UnitDraws(rng) && 3 * MaxAttempts(c) <= |rng| && Consistent(s)
    ensures Consistent(t)
    ensures s.dots <= t.dots && s.attempts <= t.attempts
    ensures t.attempts == s.attempts || (|t.dots| <= c.dotCount && t.attempts <= MaxAttempts(c))
    ensures |t.dots| >= c.dotCount || t.attempts >= MaxAttempts(c)
    decreases MaxAttempts(c) - s.attempts
  {
    if |s.dots| < c.dotCount && s.attempts < MaxAttempts(c) then
      Run(c, rng, Step(c, rng, s))
    else
      s
  }

  /** The loop body does not look at the dot count. */
  lemma StepIgnoresCount(c: Config, m: int, rng: seq<real>, s: State)
    requires UnitDraws(rng) && s.used + 3 <= |rng|
    ensures Step(c.(dotCount := m), rng, s) == Step(c, rng, s)
  {
    var big := c.(dotCount := m);
    var x := Uniform(0.0, c.width as real, rng[s.used]);
    var y := Uniform(0.0, c.height as real, rng[s.used + 1]);
    assert SafeRect(big) == SafeRect(c);
    assert Radius(big, rng[s.used + 2]) == Radius(c, rng[s.used + 2]);
    assert EdgeDistance(big, x, y) == EdgeDistance(c, x, y);
  }

  /** A run with a larger dot count passes through the state where the
      smaller run stops. */
  lemma {:induction false} RunThroughSmallerCount(c: Config, m: int, rng: seq<real>, s: State)
    requires c.dotCount <= m
    requires UnitDraws(rng) && 3 * MaxAttempts(c.(dotCount := m)) <= |rng| && Consistent(s)
    ensures Run(c.(dotCount := m), rng, s) == Run(c.(dotCount := m), rng, Run(c, rng, s))
    decreases MaxAttempts(c) - s.attempts
  {
    var big := c.(dotCount := m);
    if |s.dots| < c.dotCount && s.attempts < MaxAttempts(c) {
      StepIgnoresCount(c, m, rng, s);
      RunThroughSmallerCount(c, m, rng, Step(c, rng, s));
    }
  }

  /** Asking for more dots, with the same draws, keeps the dots already
      placed and only adds after them. */
  lemma MoreDotsExtend(c: Config, m: int, rng: seq<real>)
    requires c.dotCount <= m
    requires UnitDraws(rng) && 3 * MaxAttempts(c.(dotCount := m)) <= |rng|
    ensures Run(c, rng, Start).dots <= Run(c.(dotCount := m), rng, Start).dots
  {
    RunThroughSmallerCount(c, m, rng, Start);
  }

  /** Every draw, taken as an x coordinate, lies left of the safe rectangle,
      so no candidate centre drawn from `rng` can fall inside it. */
  predicate LeftDraws(c: Config, rng: seq<real>) {
    forall i :: 0 <= i < |rng| ==> (c.width as real) * rng[i] < SafeRect(c).x0
  }

  /** When every draw puts the centre left of the safe rectangle, every attempt places a dot. */
  lemma {:induction false} RunAcceptsEveryAttempt(c: Config, rng: seq<real>, s: State)
    requires UnitDraws(rng) && 3 * MaxAttempts(c) <= |rng| && Consistent(s)
    requires LeftDraws(c, rng)
    requires |s.dots| == s.attempts
    ensures |Run(c, rng, s).dots| == Run(c, rng, s).attempts
    decreases MaxAttempts(c) - s.attempts
  {
    if |s.dots| < c.dotCount && s.attempts < MaxAttempts(c) {
      StepKeepsExactlyOutside(c, rng, s);
      RunAcceptsEveryAttempt(c, rng, Step(c, rng, s));
    }
  }

  /** The dot count is reachable: when every draw puts the centre left of the
      safe rectangle, the loop places exactly `dotCount` dots. */
  lemma RunReachesCount(c: Config, rng: seq<real>)
    requires c.dotCount >= 0
    requires UnitDraws(rng) && 3 * MaxAttempts(c) <= |rng| && LeftDraws(c, rng)
    ensures |Run(c, rng, Start).dots| == c.dotCount
  {
    RunAcceptsEveryAttempt(c, rng, Start);
  }

  /** With the default arguments, whose safe rectangle starts at x = 74, draws
      below 74/1200 place all 850 dots. */
  lemma DefaultReachesCount(rng: seq<real>)
    requires UnitDraws(rng) && 3 * MaxAttempts(DefaultConfig) <= |rng|
    requires LeftDraws(DefaultConfig, rng)
    ensures |Run(DefaultConfig, rng, Start).dots| == 850
  {
    RunReachesCount(DefaultConfig, rng);
  }

  /** The placement loop. `dots` are the accepted dots in order, `attempts`
      the number of candidate centres drawn and `used` the number of draws
      taken from `rng`. */
  method PlaceDots(c: Config, rng: seq<real>) returns (dots: seq<Dot>, attempts: nat, used: nat)
    requires UnitDraws(rng)
    requires 3 * MaxAttempts(c) <= |rng|
    ensures c.dotCount <= 0 ==> dots == [] && attempts == 0
    ensures c.dotCount > 0 ==> |dots| <= c.dotCount && attempts <= MaxAttempts(c)
    ensures c.dotCount > 0 ==> |dots| == c.dotCount || attempts == MaxAttempts(c)
    ensures |dots| <= attempts
    ensures used == 2 * attempts + |dots| <= |rng|
    ensures forall i :: 0 <= i < |dots| ==> Acceptable(c, dots[i])
    ensures forall i :: 0 <= i < |dots| ==> 0.22 <= dots[i].opacity <= 1.0
    ensures State(dots, attempts, used) == Run(c, rng, Start)
  {
    var safe := SafeRect(c);
    var maxAttempts := MaxAttempts(c);
    dots := [];
    attempts := 0;
    used := 0;
    while |dots| < c.dotCount && attempts < maxAttempts
      invariant attempts == 0 || (|dots| <= c.dotCount && attempts <= maxAttempts)
      invariant |dots| <= attempts
      invariant used == 2 * attempts + |dots|
      invariant forall i :: 0 <= i < |dots| ==> Acceptable(c, dots[i])
      invariant Run(c, rng, State(dots, attempts, used)) == Run(c, rng, Start)
      decreases maxAttempts - attempts
    {
      ghost var before := State(dots, attempts, used);
      assert used + 3 <= |rng|;
      StepKeepsExactlyOutside(c, rng, before);
      attempts := attempts + 1;
      var x := Uniform(0.0, c.width as real, rng[used]);
      var y := Uniform(0.0, c.height as real, rng[used + 1]);
      used := used + 2;
      if !safe.Contains(x, y) {
        var r := Radius(c, rng[used]);
        used := used + 1;
        var opacity := Opacity(EdgeDistance(c, x, y));
        dots := dots + [Dot(x, y, r, opacity)];
      }
      assert State(dots, attempts, used) == Step(c, rng, before);
      assert dots == before.dots || Acceptable(c, dots[|before.dots|]);
    }
  }
}
