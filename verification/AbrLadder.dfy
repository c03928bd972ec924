/** The quality ladder of the adaptive bitrate controller: six levels of three
    steps, derived from the configured maxima. Doubles are exact reals here. */
module AbrLadder {
  const LEVELS: nat := 6
  const SUBSTEPS: nat := 3
  const STEPS: nat := 18

  datatype Config = Config(width: int, height: int, fps: int, video: int, audio: int)

  datatype Flags = Flags(resolution: bool, bitrate: bool, framerate: bool)

  const RES_FACTORS: seq<real> := [1.0, 0.78, 0.58, 0.42, 0.28, 0.16]
  const FPS_FACTORS: seq<real> := [1.0, 0.85, 0.65, 0.45, 0.30, 0.15]
  const VIDEO_FACTORS: seq<real> := [1.0, 0.70, 0.50, 0.36, 0.25, 0.16]
  const AUDIO_FACTORS: seq<real> := [1.0, 0.75, 0.50, 0.375, 0.25, 0.1875]
  const MIN_WIDTHS: seq<int> := [0, 0, 0, 320, 320, 160]
  const MIN_FPS: seq<int> := [0, 0, 0, 0, 5, 2]
  const MIN_VIDEO: seq<int> := [0, 0, 0, 0, 64000, 32000]
  const MIN_AUDIO: seq<int> := [0, 0, 0, 0, 8000, 6000]

  function Even(value: int): (r: int)
    ensures r >= 2 && r % 2 == 0 && (value >= 2 ==> value <= r <= value + 1)
  {
    if value <= 0 then 2 else if value % 2 == 1 then value + 1 else value
  }

  /** The height that keeps the aspect ratio of the maximal frame at width `w`, rounded and evened. */
  function HeightFor(maxWidth: int, maxHeight: int, w: int): int
    requires maxWidth > 0 && maxHeight > 0
  {
    Even((w as real / (maxWidth as real / maxHeight as real) + 0.5).Floor)
  }

  /** The width of a level, before the height is considered. */
  function WidthFor(maxWidth: int, factor: real, minWidth: int): int
    requires maxWidth > 0
  {
    var scaled := (maxWidth as real * factor).Floor;
    var w := if minWidth > 0 && scaled < minWidth then minWidth else scaled;
    var least := Even(maxWidth / 4);
    var e := Even(if minWidth <= 0 && w < least then least else w);
    if e > maxWidth then maxWidth else e
  }

  function ScaleResolution(maxWidth: int, maxHeight: int, factor: real, minWidth: int): (int, int)
    requires maxWidth > 0 && maxHeight > 0
  {
    var w := WidthFor(maxWidth, factor, minWidth);
    var h := HeightFor(maxWidth, maxHeight, w);
    if h > maxHeight then
      (Even((maxHeight as real * (maxWidth as real / maxHeight as real) + 0.5).Floor), maxHeight)
    else (w, h)
  }

  function AtLeast(value: int, least: int): int {
    if value < least then least else value
  }

  /** The configured maxima, as the controller keeps them. */
  datatype Maxima = Maxima(width: int, height: int, fps: int, video: int, audio: int)
  {
    predicate Valid() {
      && width >= 2 && width % 2 == 0 && height >= 2 && height % 2 == 0
      && fps > 0 && video > 0 && audio > 0
    }
  }

  function Level(m: Maxima, l: nat): Config
    requires m.Valid() && l < LEVELS
  {
    var (w, h) := ScaleResolution(m.width, m.height, RES_FACTORS[l], MIN_WIDTHS[l]);
    var fps := AtLeast((m.fps as real * FPS_FACTORS[l]).Floor, MIN_FPS[l]);
    Config(w, h, if fps <= 0 then 1 else fps,
           AtLeast((m.video as real * VIDEO_FACTORS[l]).Floor, MIN_VIDEO[l]),
           AtLeast((m.audio as real * AUDIO_FACTORS[l]).Floor, MIN_AUDIO[l]))
  }

  function Ladder(m: Maxima): (levels: seq<Config>)
    requires m.Valid()
    ensures |levels| == LEVELS
  {
    seq(LEVELS, (l: int) requires 0 <= l < LEVELS => Level(m, l))
  }

  function AtLeastOne(fps: int): int {
    if fps <= 0 then 1 else fps
  }

  /** The configuration of a step: lower the bitrate first, then the frame rate, then go to the next level. */
  function StepConfig(levels: seq<Config>, f: Flags, step: nat): Config
    requires |levels| == LEVELS && step < STEPS
  {
    var level, substep := step / SUBSTEPS, step % SUBSTEPS;
    var base, last := levels[level], level == LEVELS - 1;
    var next := if last then base else levels[level + 1];
    var video :=
      if !f.bitrate then levels[0].video
      else if substep == 0 then base.video
      else if last then base.video / 2
      else (base.video + next.video) / 2;
    var fps :=
      if !f.framerate then levels[0].fps
      else if substep < 2 then base.fps
      else if last then AtLeastOne(base.fps / 2)
      else AtLeastOne((base.fps + next.fps) / 2);
    var size := if f.resolution then base else levels[0];
    Config(size.width, size.height, fps, video, base.audio)
  }

  /** `a` asks for no more than `b` in any dimension. */
  predicate NoMore(a: Config, b: Config) {
    a.width <= b.width && a.height <= b.height && a.fps <= b.fps && a.video <= b.video && a.audio <= b.audio
  }

  /** Every step asks for no more than the one before it, and the first for the maxima. */
  predicate Ordered(m: Maxima, f: Flags)
    requires m.Valid()
  {
    && StepConfig(Ladder(m), f, 0) == Config(m.width, m.height, m.fps, m.video, m.audio)
    && forall k | 0 <= k < STEPS - 1 :: NoMore(StepConfig(Ladder(m), f, k + 1), StepConfig(Ladder(m), f, k))
  }

  /** The minima from which on the fixed floors of the lower levels stay below the levels above them. */
  predicate AboveFloors(m: Maxima) {
    (m.width == 2 || m.width >= 550) && m.fps >= 12 && m.video >= 177778 && m.audio >= 21334
  }

  // ----- Dimensions -----

  lemma EvenMonotone(a: int, b: int)
    requires a <= b
    ensures Even(a) <= Even(b)
  {
  }

  lemma DivideMonotone(a: real, b: real, aspect: real)
    requires a <= b && aspect > 0.0
    ensures a / aspect <= b / aspect
  {
    var x, y := a / aspect, b / aspect;
    assert x * aspect == a && y * aspect == b;
    assert x > y ==> x * aspect > y * aspect;
  }

  lemma HeightMonotone(maxWidth: int, maxHeight: int, v: int, w: int)
    requires maxWidth > 0 && maxHeight > 0 && v <= w
    ensures HeightFor(maxWidth, maxHeight, v) <= HeightFor(maxWidth, maxHeight, w)
  {
    var aspect := maxWidth as real / maxHeight as real;
    DivideMonotone(v as real, w as real, aspect);
    EvenMonotone((v as real / aspect + 0.5).Floor, (w as real / aspect + 0.5).Floor);
  }

  lemma HeightAtMax(maxWidth: int, maxHeight: int)
    requires maxWidth > 0 && maxHeight >= 2 && maxHeight % 2 == 0
    ensures HeightFor(maxWidth, maxHeight, maxWidth) == maxHeight
  {
    var w, h := maxWidth as real, maxHeight as real;
    assert w / (w / h) == h by {
      assert (w / h) * h == w;
    }
  }

  /** The final height clamp is never taken: the width alone decides the resolution. */
  lemma ClampNeverTaken(m: Maxima, factor: real, minWidth: int)
    requires m.Valid()
    ensures var w := WidthFor(m.width, factor, minWidth);
            ScaleResolution(m.width, m.height, factor, minWidth) == (w, HeightFor(m.width, m.height, w))
  {
    HeightMonotone(m.width, m.height, WidthFor(m.width, factor, minWidth), m.width);
    HeightAtMax(m.width, m.height);
  }

  lemma LevelIs(m: Maxima, l: nat)
    requires m.Valid() && l < LEVELS
    ensures var w := WidthFor(m.width, RES_FACTORS[l], MIN_WIDTHS[l]);
            var c := Ladder(m)[l];
            && c.width == w && c.height == HeightFor(m.width, m.height, w)
            && w % 2 == 0 && c.height % 2 == 0
  {
    hide HeightFor, WidthFor;
    ClampNeverTaken(m, RES_FACTORS[l], MIN_WIDTHS[l]);
    WidthEven(m, RES_FACTORS[l], MIN_WIDTHS[l]);
    HeightEven(m, WidthFor(m.width, RES_FACTORS[l], MIN_WIDTHS[l]));
  }

  lemma WidthEven(m: Maxima, factor: real, minWidth: int)
    requires m.Valid()
    ensures WidthFor(m.width, factor, minWidth) % 2 == 0
  {
  }

  lemma HeightEven(m: Maxima, w: int)
    requires m.Valid()
    ensures HeightFor(m.width, m.height, w) % 2 == 0
  {
  }

  // ----- Levels -----

  lemma FloorMonotone(max: nat, f: real, g: real)
    requires f <= g
    ensures (max as real * f).Floor <= (max as real * g).Floor
  {
    var x := max as real;
    assert x * (g - f) >= 0.0;
  }

  function WidthOf(m: Maxima, l: nat): int
    requires m.Valid() && l < LEVELS
  {
    WidthFor(m.width, RES_FACTORS[l], MIN_WIDTHS[l])
  }

  lemma WidthsOrdered(m: Maxima, l: nat)
    requires m.Valid() && l < LEVELS - 1 && (m.width == 2 || m.width >= 550)
    ensures WidthOf(m, l + 1) <= WidthOf(m, l)
  {
    FloorMonotone(m.width, RES_FACTORS[l + 1], RES_FACTORS[l]);
  }

  /** Between 4 and 548 the floor of 320 lifts level 3 above level 2. */
  lemma WidthsDisordered(m: Maxima)
    requires m.Valid() && 2 < m.width < 550
    ensures WidthOf(m, 2) < WidthOf(m, 3)
  {
  }

  lemma FpsOrdered(m: Maxima, l: nat)
    requires m.Valid() && l < LEVELS - 1 && m.fps >= 12
    ensures 1 <= Level(m, l + 1).fps <= Level(m, l).fps
  {
    hide ScaleResolution;
    FloorMonotone(m.fps, FPS_FACTORS[l + 1], FPS_FACTORS[l]);
  }

  lemma BitratesOrdered(m: Maxima, l: nat)
    requires m.Valid() && l < LEVELS - 1
    ensures m.video >= 177778 ==> 0 <= Level(m, l + 1).video <= Level(m, l).video
    ensures m.audio >= 21334 ==> Level(m, l + 1).audio <= Level(m, l).audio
  {
    hide ScaleResolution;
    FloorMonotone(m.video, VIDEO_FACTORS[l + 1], VIDEO_FACTORS[l]);
    FloorMonotone(m.audio, AUDIO_FACTORS[l + 1], AUDIO_FACTORS[l]);
  }

  lemma LevelsOrdered(m: Maxima, l: nat)
    requires m.Valid() && l < LEVELS - 1 && AboveFloors(m)
    ensures NoMore(Ladder(m)[l + 1], Ladder(m)[l])
    ensures Ladder(m)[l + 1].fps >= 1 && Ladder(m)[l + 1].video >= 0
  {
    hide ScaleResolution, WidthFor, HeightFor;
    LevelIs(m, l);
    LevelIs(m, l + 1);
    WidthsOrdered(m, l);
    HeightMonotone(m.width, m.height, WidthOf(m, l + 1), WidthOf(m, l));
    FpsOrdered(m, l);
    BitratesOrdered(m, l);
  }

  lemma LevelZero(m: Maxima)
    requires m.Valid()
    ensures Ladder(m)[0] == Config(m.width, m.height, m.fps, m.video, m.audio)
  {
    LevelIs(m, 0);
    HeightAtMax(m.width, m.height);
  }

  /** Level `l` asks for no more than the one above it, and for something. */
  predicate StepsDown(levels: seq<Config>, l: nat)
    requires |levels| == LEVELS && l < LEVELS
  {
    && levels[l].fps >= 1 && levels[l].video >= 0
    && (l > 0 ==> NoMore(levels[l], levels[l - 1]))
  }

  /** Steps in between are midpoints, so ordered levels give ordered steps. */
  lemma StepsOrdered(levels: seq<Config>, f: Flags, k: nat)
    requires |levels| == LEVELS && k < STEPS - 1
    requires forall l | 0 <= l < LEVELS :: StepsDown(levels, l)
    ensures NoMore(StepConfig(levels, f, k + 1), StepConfig(levels, f, k))
  {
    var l := k / SUBSTEPS;
    assert StepsDown(levels, l) && (l < LEVELS - 1 ==> StepsDown(levels, l + 1));
    assert (k + 1) / SUBSTEPS == if k % SUBSTEPS == 2 then l + 1 else l;
  }

  /** Below a floor, one of two steps asks for more than the step three before it. */
  lemma Disordered(m: Maxima, f: Flags)
    requires m.Valid() && !AboveFloors(m) && f == Flags(true, true, true)
    ensures !NoMore(StepConfig(Ladder(m), f, 9), StepConfig(Ladder(m), f, 6))
         || !NoMore(StepConfig(Ladder(m), f, 12), StepConfig(Ladder(m), f, 9))
  {
    hide ScaleResolution;
    LevelIs(m, 2);
    LevelIs(m, 3);
    if 2 < m.width < 550 {
      WidthsDisordered(m);
    }
  }

  lemma {:induction false} OrderedAcross(levels: seq<Config>, f: Flags, i: nat, k: nat)
    requires |levels| == LEVELS && i <= k < STEPS
    requires forall j | 0 <= j < STEPS - 1 :: NoMore(StepConfig(levels, f, j + 1), StepConfig(levels, f, j))
    ensures NoMore(StepConfig(levels, f, k), StepConfig(levels, f, i))
    decreases k - i
  {
    hide StepConfig;
    if i < k {
      OrderedAcross(levels, f, i, k - 1);
      assert NoMore(StepConfig(levels, f, k - 1 + 1), StepConfig(levels, f, k - 1));
    }
  }

  /** The ladder is ordered under any flags exactly when the maxima are above the fixed floors. */
  lemma LadderOrder(m: Maxima)
    requires m.Valid()
    ensures (forall f :: Ordered(m, f)) <==> AboveFloors(m)
  {
    hide StepConfig, AboveFloors, Level;
    if AboveFloors(m) {
      LevelZero(m);
      forall l | 0 <= l < LEVELS
        ensures StepsDown(Ladder(m), l)
      {
        if l > 0 {
          LevelsOrdered(m, l - 1);
        }
      }
      forall f: Flags
        ensures Ordered(m, f)
      {
        StepZero(m, f);
        forall k | 0 <= k < STEPS - 1
          ensures NoMore(StepConfig(Ladder(m), f, k + 1), StepConfig(Ladder(m), f, k))
        {
          StepsOrdered(Ladder(m), f, k);
        }
      }
    } else {
      var f := Flags(true, true, true);
      Disordered(m, f);
      if Ordered(m, f) {
        OrderedAcross(Ladder(m), f, 6, 9);
        OrderedAcross(Ladder(m), f, 9, 12);
      }
      assert !Ordered(m, f);
    }
  }

  lemma StepZero(m: Maxima, f: Flags)
    requires m.Valid()
    ensures StepConfig(Ladder(m), f, 0) == Ladder(m)[0]
  {
  }

  /** No step asks for more than the maxima, and all frame sizes are even. */
  lemma WithinMaxima(m: Maxima, f: Flags, k: nat)
    requires m.Valid() && AboveFloors(m) && k < STEPS
    ensures NoMore(StepConfig(Ladder(m), f, k), Config(m.width, m.height, m.fps, m.video, m.audio))
    ensures StepConfig(Ladder(m), f, k).width % 2 == 0 && StepConfig(Ladder(m), f, k).height % 2 == 0
  {
    LadderOrder(m);
    assert Ordered(m, f);
    OrderedAcross(Ladder(m), f, 0, k);
    LevelIs(m, k / SUBSTEPS);
  }

  // ----- The ladder in whole numbers -----

  function Larger(a: int, b: int): int {
    if a > b then a else b
  }

  /** The frame rate of a level: hundredths of the maximum, rounded down, at least a fixed floor. */
  lemma LevelFps(m: Maxima, l: nat)
    requires m.Valid() && l < 6
    ensures Ladder(m)[l].fps == Larger(m.fps * [100, 85, 65, 45, 30, 15][l] / 100, [1, 1, 1, 1, 5, 2][l])
  {
    hide ScaleResolution;
    LevelIs(m, l);
    FactorsInNumbers(l);
    FloorsInNumbers(l);
    Hundredths(m.fps, FPS_FACTORS[l], [100, 85, 65, 45, 30, 15][l]);
  }

  /** Its bitrates: hundredths and ten-thousandths of the maxima, likewise. */
  lemma LevelVideo(m: Maxima, l: nat)
    requires m.Valid() && l < 6
    ensures Ladder(m)[l].video
         == Larger(m.video * [100, 70, 50, 36, 25, 16][l] / 100, [0, 0, 0, 0, 64000, 32000][l])
  {
    hide ScaleResolution;
    LevelIs(m, l);
    FactorsInNumbers(l);
    FloorsInNumbers(l);
    Hundredths(m.video, VIDEO_FACTORS[l], [100, 70, 50, 36, 25, 16][l]);
  }

  lemma LevelAudio(m: Maxima, l: nat)
    requires m.Valid() && l < 6
    ensures Ladder(m)[l].audio
         == Larger(m.audio * [10000, 7500, 5000, 3750, 2500, 1875][l] / 10000, [0, 0, 0, 0, 8000, 6000][l])
  {
    hide ScaleResolution;
    LevelIs(m, l);
    FactorsInNumbers(l);
    FloorsInNumbers(l);
    TenThousandths(m.audio, AUDIO_FACTORS[l], [10000, 7500, 5000, 3750, 2500, 1875][l]);
  }

  lemma FloorsInNumbers(l: nat)
    requires l < 6
    ensures MIN_FPS[l] == [0, 0, 0, 0, 5, 2][l] && Larger(MIN_FPS[l], 1) == [1, 1, 1, 1, 5, 2][l]
    ensures MIN_VIDEO[l] == [0, 0, 0, 0, 64000, 32000][l] && MIN_AUDIO[l] == [0, 0, 0, 0, 8000, 6000][l]
  {
    assert l == 0 || l == 1 || l == 2 || l == 3 || l == 4 || l == 5;
  }

  lemma FactorsInNumbers(l: nat)
    requires l < 6
    ensures FPS_FACTORS[l] * 100.0 == [100, 85, 65, 45, 30, 15][l] as real
    ensures VIDEO_FACTORS[l] * 100.0 == [100, 70, 50, 36, 25, 16][l] as real
    ensures RES_FACTORS[l] * 100.0 == [100, 78, 58, 42, 28, 16][l] as real
    ensures AUDIO_FACTORS[l] * 10000.0 == [10000, 7500, 5000, 3750, 2500, 1875][l] as real
  {
    assert l == 0 || l == 1 || l == 2 || l == 3 || l == 4 || l == 5;
  }

  lemma Hundredths(max: int, f: real, n: int)
    requires max >= 0 && f * 100.0 == n as real && n >= 0
    ensures (max as real * f).Floor == max * n / 100
  {
    var q := max * n / 100;
    assert max as real * f * 100.0 == (max * n) as real by {
      ScaledProduct(max, f, n, 100.0);
    }
    assert q * 100 <= max * n < q * 100 + 100;
  }

  lemma TenThousandths(max: int, f: real, n: int)
    requires max >= 0 && f * 10000.0 == n as real && n >= 0
    ensures (max as real * f).Floor == max * n / 10000
  {
    var q := max * n / 10000;
    assert max as real * f * 10000.0 == (max * n) as real by {
      ScaledProduct(max, f, n, 10000.0);
    }
    assert q * 10000 <= max * n < q * 10000 + 10000;
  }

  lemma ScaledProduct(max: int, f: real, n: int, unit: real)
    requires f * unit == n as real
    ensures max as real * f * unit == (max * n) as real
  {
    assert max as real * f * unit == max as real * (f * unit);
  }

  /** The size of a level: hundredths of the maximal width, above a fixed floor or, where there is none, a
      quarter of it, made even; and the height nearest to the same aspect ratio, made even. */
  lemma LevelSize(m: Maxima, l: nat)
    requires m.Valid() && l < 6
    ensures var c := Ladder(m)[l];
            var scaled := m.width * [100, 78, 58, 42, 28, 16][l] / 100;
            var w := Even(Larger(scaled, [Even(m.width / 4), Even(m.width / 4), Even(m.width / 4), 320, 320, 160][l]));
            && c.width == (if w > m.width then m.width else w)
            && c.height == Even((2 * c.width * m.height + m.width) / (2 * m.width))
  {
    hide HeightFor, WidthFor, Even, ScaleResolution;
    LevelIs(m, l);
    ClampNeverTaken(m, RES_FACTORS[l], MIN_WIDTHS[l]);
    WidthInNumbers(m, l);
    HeightInNumbers(m.width, m.height, WidthFor(m.width, RES_FACTORS[l], MIN_WIDTHS[l]));
  }

  lemma WidthInNumbers(m: Maxima, l: nat)
    requires m.Valid() && l < 6
    ensures var scaled := m.width * [100, 78, 58, 42, 28, 16][l] / 100;
            var w := Even(Larger(scaled, [Even(m.width / 4), Even(m.width / 4), Even(m.width / 4), 320, 320, 160][l]));
            WidthFor(m.width, RES_FACTORS[l], MIN_WIDTHS[l]) == if w > m.width then m.width else w
  {
    hide Even, WidthFor;
    FactorsInNumbers(l);
    var floor := if l < 3 then 0 else if l < 5 then 320 else 160;
    assert MIN_WIDTHS[l] == floor;
    WidthWith(m, RES_FACTORS[l], [100, 78, 58, 42, 28, 16][l], floor);
  }

  lemma WidthWith(m: Maxima, factor: real, n: int, floor: int)
    requires m.Valid() && factor * 100.0 == n as real && n >= 0 && floor >= 0
    ensures var w := Even(Larger(m.width * n / 100, if floor == 0 then Even(m.width / 4) else floor));
            WidthFor(m.width, factor, floor) == if w > m.width then m.width else w
  {
    hide Even, WidthFor;
    Hundredths(m.width, factor, n);
    WidthOfScaled(m.width, factor, floor, m.width * n / 100);
  }

  lemma WidthOfScaled(maxWidth: int, factor: real, floor: int, scaled: int)
    requires maxWidth > 0 && floor >= 0 && (maxWidth as real * factor).Floor == scaled
    ensures var w := Even(Larger(scaled, if floor == 0 then Even(maxWidth / 4) else floor));
            WidthFor(maxWidth, factor, floor) == if w > maxWidth then maxWidth else w
  {
    hide Even;
  }

  lemma HeightInNumbers(maxWidth: int, maxHeight: int, w: int)
    requires maxWidth > 0 && maxHeight > 0
    ensures HeightFor(maxWidth, maxHeight, w) == Even((2 * w * maxHeight + maxWidth) / (2 * maxWidth))
  {
    var x := w as real / (maxWidth as real / maxHeight as real) + 0.5;
    var n, d := 2 * w * maxHeight + maxWidth, 2 * maxWidth;
    assert x * d as real == n as real by {
      Quotient(w as real, maxWidth as real, maxHeight as real);
    }
    FloorQuotient(x, n, d);
  }

  lemma Quotient(w: real, width: real, height: real)
    requires width > 0.0 && height > 0.0
    ensures (w / (width / height) + 0.5) * (2.0 * width) == 2.0 * w * height + width
  {
    var aspect := width / height;
    assert aspect * height == width;
    var q := w / aspect;
    assert q * aspect == w;
    assert q * width == q * (aspect * height) == w * height;
  }

  lemma FloorQuotient(x: real, n: int, d: int)
    requires d > 0 && x * d as real == n as real
    ensures x.Floor == n / d
  {
    var q, rest := n / d, n % d;
    assert n == q * d + rest && 0 <= rest < d;
    Remainder(x, n, d, q, rest);
    UnitInterval(x - q as real, rest as real, d as real);
  }

  lemma Remainder(x: real, n: int, d: int, q: int, rest: int)
    requires x * d as real == n as real && n == q * d + rest
    ensures (x - q as real) * d as real == rest as real
  {
    assert (x - q as real) * d as real == x * d as real - q as real * d as real;
    assert q as real * d as real == (q * d) as real;
  }

  lemma UnitInterval(y: real, rest: real, d: real)
    requires y * d == rest && 0.0 <= rest < d
    ensures 0.0 <= y < 1.0
  {
    assert y < 0.0 ==> y * d < 0.0;
    assert y >= 1.0 ==> (y - 1.0) * d >= 0.0;
  }

  /** The three steps of a level: as it is; half way to the next level in bitrate; and in frame rate as
      well. Below the last level half way is half. What does not adapt stays at the first level. */
  lemma StepsOfALevel(levels: seq<Config>, f: Flags, level: nat)
    requires |levels| == 6 && level < 6
    ensures var a, b, c := StepConfig(levels, f, 3 * level), StepConfig(levels, f, 3 * level + 1),
                           StepConfig(levels, f, 3 * level + 2);
            var here, top := levels[level], levels[0];
            var video := if level == 5 then 0 else levels[level + 1].video;
            var fps := if level == 5 then 0 else levels[level + 1].fps;
            && a.video == (if f.bitrate then here.video else top.video)
            && b.video == c.video == (if f.bitrate then (here.video + video) / 2 else top.video)
            && a.fps == b.fps == (if f.framerate then here.fps else top.fps)
            && c.fps == (if f.framerate then Larger((here.fps + fps) / 2, 1) else top.fps)
            && a.width == b.width == c.width == (if f.resolution then here.width else top.width)
            && a.height == b.height == c.height == (if f.resolution then here.height else top.height)
            && a.audio == b.audio == c.audio == here.audio
  {
    assert (3 * level) / 3 == (3 * level + 1) / 3 == (3 * level + 2) / 3 == level;
    assert (3 * level) % 3 == 0 && (3 * level + 1) % 3 == 1 && (3 * level + 2) % 3 == 2;
  }
}
