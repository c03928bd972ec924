/** Layer selection for scalable video: the per-dimension cap of the adaptive
    controller, and the split of a bitrate over the spatial layers. */
module Svc {
  import opened AbrLadder

  const MAX_TEMPORAL: nat := 4
  const MAX_SPATIAL: nat := 3
  const UPGRADE_HOLDOFF: nat := 4

  // ----- One dimension of the controller -----

  /** A cap on the layers of one dimension: at most `cap` of layers 0 to `layers - 1`. */
  datatype Dim = Dim(layers: nat, cap: nat, holdoff: nat)
  {
    predicate Valid() {
      cap < layers && holdoff <= UPGRADE_HOLDOFF
    }
  }

  /** Layers to drop from the top for a load `x` (stress times the top layer); casts truncate towards zero. */
  function Dropped(x: real): int {
    if x + 0.49 >= 0.0 then (x + 0.49).Floor else -(-x - 0.49).Floor
  }

  /** The top layer less the dropped ones, kept within the layers there are. */
  function Kept(top: nat, dropped: int): (kept: nat)
    ensures kept <= top
  {
    if top - dropped < 0 then 0 else if top - dropped > top then top else top - dropped
  }

  /** The highest layer worth sending under a stress; doubles are exact reals. */
  function TargetLayer(layers: nat, stress: real): (target: nat)
    ensures layers >= 1 ==> target < layers
  {
    if layers < 1 then 0 else Kept(layers - 1, Dropped(stress * (layers - 1) as real))
  }

  /** No stress sends every layer, full stress only the lowest, and more stress never more layers. */
  lemma TargetLayerMonotone(layers: nat, a: real, b: real)
    requires layers >= 1 && 0.0 <= a <= b <= 1.0
    ensures TargetLayer(layers, b) <= TargetLayer(layers, a)
    ensures TargetLayer(layers, 0.0) == layers - 1 && TargetLayer(layers, 1.0) == 0
  {
    hide Dropped, TargetLayer;
    var top := layers - 1;
    Scales(a, b, top as real);
    DroppedMonotone(a * top as real, b * top as real);
    TargetAt(layers, a, a * top as real);
    TargetAt(layers, b, b * top as real);
    DroppedWhole(0);
    DroppedWhole(top);
    TargetAt(layers, 0.0, 0.0);
    TargetAt(layers, 1.0, top as real);
  }

  /** The target leaves out as many layers as the load, in layers, rounds to; half a layer and up to a
      hundredth more round down. */
  lemma TargetRounds(layers: nat, stress: real, k: nat)
    requires k < layers && 0.0 <= stress <= 1.0
    ensures var load := stress * (layers - 1) as real;
            TargetLayer(layers, stress) == k
            <==> (layers - 1 - k) as real - 0.49 <= load < (layers - 1 - k) as real + 0.51
  {
    hide TargetLayer, Kept, Dropped;
    var top := layers - 1;
    var load := stress * top as real;
    LoadBounds(stress, top as real, load);
    LoadRounds(top, load, k);
    TargetAt(layers, stress, load);
  }

  lemma LoadBounds(stress: real, top: real, load: real)
    requires 0.0 <= stress <= 1.0 && top >= 0.0 && load == stress * top
    ensures 0.0 <= load <= top
  {
    Scales(stress, 1.0, top);
    assert 1.0 * top == top && load >= 0.0;
  }

  lemma LoadRounds(top: nat, load: real, k: nat)
    requires k <= top && 0.0 <= load <= top as real
    ensures Kept(top, Dropped(load)) == k <==> (top - k) as real - 0.49 <= load < (top - k) as real + 0.51
  {
  }

  lemma TargetAt(layers: nat, stress: real, load: real)
    requires layers >= 1 && load == stress * (layers - 1) as real
    ensures TargetLayer(layers, stress) == Kept(layers - 1, Dropped(load))
  {
    hide Dropped;
  }

  lemma Scales(a: real, b: real, y: real)
    requires a <= b && y >= 0.0
    ensures a * y <= b * y && 0.0 * y == 0.0 && 1.0 * y == y
  {
  }

  lemma DroppedMonotone(x: real, y: real)
    requires x <= y
    ensures Dropped(x) <= Dropped(y)
  {
  }

  lemma DroppedWhole(n: nat)
    ensures Dropped(n as real) == n
  {
  }

  function Next(d: Dim, target: nat): Dim {
    if target < d.cap then Dim(d.layers, target, UPGRADE_HOLDOFF)
    else if target > d.cap then
      if d.holdoff > 0 then d.(holdoff := d.holdoff - 1) else Dim(d.layers, target, UPGRADE_HOLDOFF)
    else if d.holdoff > 0 then d.(holdoff := d.holdoff - 1)
    else d
  }

  /** A dimension of one layer is left alone. */
  function Step(d: Dim, stress: real): Dim {
    if d.layers >= 2 then Next(d, TargetLayer(d.layers, stress)) else d
  }

  function Clamped(layers: int, least: nat, most: nat): nat
    requires least <= most
  {
    if layers < least then least else if layers > most then most else layers
  }

  /** A dimension with every layer allowed. */
  function Open(layers: nat): Dim
    requires layers > 0
  {
    Dim(layers, layers - 1, 0)
  }

  /** The state after the first `i` updates of a run. */
  function StateAt(d: Dim, stress: nat -> real, i: nat): (e: Dim)
    requires d.Valid()
    ensures e.Valid() && e.layers == d.layers
  {
    if i == 0 then d else Step(StateAt(d, stress, i - 1), stress(i - 1))
  }

  /** A downgrade is never delayed. */
  lemma DowngradeIsImmediate(d: Dim, stress: nat -> real, i: nat)
    requires d.Valid() && d.layers >= 2
    ensures StateAt(d, stress, i + 1).cap <= TargetLayer(d.layers, stress(i))
    ensures TargetLayer(d.layers, stress(i)) < StateAt(d, stress, i).cap ==>
              StateAt(d, stress, i + 1).cap == TargetLayer(d.layers, stress(i))
  {
  }

  lemma {:induction false} HoldoffRuns(d: Dim, stress: nat -> real, i: nat, j: nat)
    requires d.Valid() && i < j && StateAt(d, stress, i + 1).cap != StateAt(d, stress, i).cap
    ensures StateAt(d, stress, j).holdoff + (j - i - 1) >= UPGRADE_HOLDOFF
    decreases j
  {
    hide TargetLayer;
    if i + 1 < j {
      HoldoffRuns(d, stress, i, j - 1);
    }
  }

  /** An upgrade comes at least five updates after the previous change of the cap. */
  lemma UpgradeSpacing(d: Dim, stress: nat -> real, i: nat, j: nat)
    requires d.Valid() && i < j
    requires StateAt(d, stress, i + 1).cap != StateAt(d, stress, i).cap
    requires StateAt(d, stress, j + 1).cap > StateAt(d, stress, j).cap
    ensures j - i >= 5
  {
    HoldoffRuns(d, stress, i, j);
  }

  /** Under steady stress: the cap waits for its holdoff at most, then is at the target. */
  lemma {:induction false} SteadyCap(d: Dim, stress: nat -> real, x: real, n: nat)
    requires d.Valid() && d.layers >= 2 && forall i :: stress(i) == x
    ensures var t, e := TargetLayer(d.layers, x), StateAt(d, stress, n);
            if n > 0 && (t <= d.cap || n > d.holdoff) then e.cap == t
            else e == d.(holdoff := d.holdoff - n)
  {
    hide TargetLayer;
    if n > 0 {
      SteadyCap(d, stress, x, n - 1);
    }
  }

  /** Under steady stress the cap equals the target within five updates and stays there. */
  lemma SettlesInFive(d: Dim, stress: nat -> real, x: real, n: nat)
    requires d.Valid() && d.layers >= 2 && (forall i :: stress(i) == x) && n >= 5
    ensures StateAt(d, stress, n).cap == TargetLayer(d.layers, x)
  {
    SteadyCap(d, stress, x, n);
  }

  // ----- The controller -----

  class Controller {
    var temporal: Dim
    var spatial: Dim

    predicate Valid()
      reads this
    {
      && temporal.Valid() && 2 <= temporal.layers <= MAX_TEMPORAL
      && spatial.Valid() && 1 <= spatial.layers <= MAX_SPATIAL
    }

    constructor (temporalLayers: int, spatialLayers: int)
      ensures Valid()
      ensures var n := if temporalLayers < 2 then 2 else if temporalLayers > 4 then 4 else temporalLayers;
              temporal == Dim(n, n - 1, 0)
      ensures var n := if spatialLayers < 1 then 1 else if spatialLayers > 3 then 3 else spatialLayers;
              spatial == Dim(n, n - 1, 0)
    {
      temporal := Open(Clamped(temporalLayers, 2, MAX_TEMPORAL));
      spatial := Open(Clamped(spatialLayers, 1, MAX_SPATIAL));
    }

    method SetTemporalLayers(layers: int)
      requires Valid()
      modifies this`temporal
      ensures Valid()
      ensures var n := if layers < 2 then 2 else if layers > 4 then 4 else layers;
              temporal == Dim(n, if old(temporal).cap < n then old(temporal).cap else n - 1, old(temporal).holdoff)
    {
      var n := Clamped(layers, 2, MAX_TEMPORAL);
      temporal := temporal.(layers := n, cap := if temporal.cap >= n then n - 1 else temporal.cap);
    }

    method SetSpatialLayers(layers: int)
      requires Valid()
      modifies this`spatial
      ensures Valid()
      ensures var n := if layers < 1 then 1 else if layers > 3 then 3 else layers;
              spatial == Dim(n, if old(spatial).cap < n then old(spatial).cap else n - 1, old(spatial).holdoff)
    {
      var n := Clamped(layers, 1, MAX_SPATIAL);
      spatial := spatial.(layers := n, cap := if spatial.cap >= n then n - 1 else spatial.cap);
    }

    method Reconfigure(temporalLayers: int, spatialLayers: int)
      requires Valid()
      modifies this
      ensures Valid()
      ensures var n := if temporalLayers < 2 then 2 else if temporalLayers > 4 then 4 else temporalLayers;
              temporal == Dim(n, n - 1, 0)
      ensures var n := if spatialLayers < 1 then 1 else if spatialLayers > 3 then 3 else spatialLayers;
              spatial == Dim(n, n - 1, 0)
    {
      temporal := Open(Clamped(temporalLayers, 2, MAX_TEMPORAL));
      spatial := Open(Clamped(spatialLayers, 1, MAX_SPATIAL));
    }

    method Update(stress: real)
      requires Valid()
      modifies this
      ensures Valid()
      ensures temporal == Step(old(temporal), stress) && spatial == Step(old(spatial), stress)
    {
      hide TargetLayer;
      temporal := UpdateDim(temporal, TargetLayer(temporal.layers, stress));
      if spatial.layers >= 2 {
        spatial := UpdateDim(spatial, TargetLayer(spatial.layers, stress));
      }
    }
  }

  method UpdateDim(d: Dim, target: nat) returns (e: Dim)
    requires d.Valid() && target < d.layers
    ensures e == Next(d, target) && e.Valid() && e.layers == d.layers
  {
    e := d;
    if target < d.cap {
      e := e.(cap := target);
      e := e.(holdoff := UPGRADE_HOLDOFF);
    } else if target > d.cap {
      if d.holdoff > 0 {
        e := e.(holdoff := d.holdoff - 1);
      } else {
        e := e.(cap := target);
        e := e.(holdoff := UPGRADE_HOLDOFF);
      }
    } else if d.holdoff > 0 {
      e := e.(holdoff := d.holdoff - 1);
    }
  }

  // ----- Bitrate split -----

  /** The frame size that fits a target width into the full frame, keeping its aspect ratio. */
  function FitDimensions(maxWidth: int, maxHeight: int, targetWidth: int): (size: (int, int))
    requires maxWidth > 0 && maxHeight > 0 && targetWidth > 0
    ensures size.0 > 0 && size.1 > 0
  {
    var scaled, least := ScaledWidth(maxWidth, targetWidth), Even(maxWidth / 4);
    var wide := Even(if scaled < least then least else scaled);
    var w := if wide > maxWidth then maxWidth else wide;
    var h := HeightFor(maxWidth, maxHeight, w);
    if h > maxHeight then
      (Even((maxHeight as real * (maxWidth as real / maxHeight as real) + 0.5).Floor), maxHeight)
    else (w, h)
  }

  function ScaledWidth(maxWidth: int, targetWidth: int): int
    requires maxWidth > 0
  {
    var asked := targetWidth as real / maxWidth as real;
    (maxWidth as real * if asked > 1.0 then 1.0 else asked).Floor
  }

  /** Each spatial layer doubles the width of the one below; sizes the program leaves alone stay 0 by 0. */
  function LayerSize(width: int, height: int, layers: nat, s: nat): (size: (int, int))
    requires layers >= 1 && s < layers <= 31
    ensures size.0 >= 0 && size.1 >= 0 && (width > 0 && height > 0 ==> size.0 > 0 && size.1 > 0)
  {
    if width <= 0 || height <= 0 then (0, 0)
    else if layers == 1 then (width, height)
    else
      var target := width / Pow2(layers - 1 - s);
      FitDimensions(width, height, if target < 1 then 1 else target)
  }

  function Pow2(n: nat): (p: nat)
    ensures p > 0
  {
    if n == 0 then 1 else 2 * Pow2(n - 1)
  }

  function Pixels(width: int, height: int, layers: nat, s: nat): (p: nat)
    requires layers >= 1 && s < layers <= 31
    ensures width > 0 && height > 0 ==> p > 0
  {
    var size := LayerSize(width, height, layers, s);
    PositiveProduct(size.0, size.1);
    size.0 * size.1
  }

  lemma PositiveProduct(a: nat, b: nat)
    ensures a * b >= 0 && (a > 0 && b > 0 ==> a * b > 0)
  {
  }

  /** For a full frame of even size, the top layer is the full frame; every other has the width divided
      by two for every layer above it, at least a quarter, made even, and the height nearest to the
      same aspect ratio, made even. */
  lemma LayerSizes(width: int, height: int, layers: nat, s: nat)
    requires width >= 2 && height >= 2 && width % 2 == 0 && height % 2 == 0 && s < layers <= 31
    ensures var (w, h) := LayerSize(width, height, layers, s);
            && (s == layers - 1 ==> w == width && h == height)
            && (s < layers - 1 ==> w == Even(Larger(width / Pow2(layers - 1 - s), Even(width / 4))))
            && h == Even((2 * w * height + width) / (2 * width))
  {
    hide Pow2, FitDimensions, Even;
    FullHeight(width, height);
    if layers > 1 {
      var target := width / Pow2(layers - 1 - s);
      QuotientBelow(width, Pow2(layers - 1 - s));
      FitInNumbers(width, height, if target < 1 then 1 else target);
      if s < layers - 1 {
        HalfBelow(width, layers - 1 - s);
      } else {
        TopWidth(width);
      }
    }
  }

  lemma TopWidth(width: int)
    requires width >= 2 && width % 2 == 0
    ensures Pow2(0) == 1 && Even(Larger(width, Even(width / 4))) == width
  {
  }

  /** A layer's share is to the total as its pixels are to those of all layers, rounded down. */
  lemma ShareIsProportional(total: int, width: int, height: int, layers: nat, s: nat)
    requires width > 0 && height > 0 && s < layers <= 31 && total > 0
    ensures var (w, h) := LayerSize(width, height, layers, s);
            var all, share := PixelSum(width, height, layers, layers), Share(total, width, height, layers, s);
            share * all <= total * (w * h) < (share + 1) * all
  {
    hide LayerSize, PixelSum;
    var all, mine := PixelSum(width, height, layers, layers), Pixels(width, height, layers, s);
    var share := Share(total, width, height, layers, s);
    var size := LayerSize(width, height, layers, s);
    assert mine == size.0 * size.1;
    assert share == Portion(total as real, mine as real, all as real).Floor;
    hide Pixels, Share, Portion;
    FloorOfPortion(total, mine, all, share);
  }

  lemma FloorOfPortion(t: int, p: int, all: int, share: int)
    requires all > 0 && share == Portion(t as real, p as real, all as real).Floor
    ensures share * all <= t * p < (share + 1) * all
  {
    var x := Portion(t as real, p as real, all as real);
    assert x * all as real == t as real * p as real == (t * p) as real;
    Bounds(x, share, all, t * p);
  }

  lemma Bounds(x: real, share: int, all: int, n: int)
    requires all > 0 && share == x.Floor && x * all as real == n as real
    ensures share * all <= n < (share + 1) * all
  {
    var next := share + 1;
    CastProduct(share, all);
    CastProduct(next, all);
    Between(share as real, next as real, x, all as real, n as real);
  }

  lemma CastProduct(a: int, b: int)
    ensures a as real * b as real == (a * b) as real
  {
  }

  lemma Between(low: real, high: real, x: real, a: real, n: real)
    requires a > 0.0 && low <= x < high && x * a == n
    ensures low * a <= n < high * a
  {
    ScaleOrder(low, x, a);
    ScaleOrder(x, high, a);
  }

  lemma ScaleOrder(p: real, q: real, a: real)
    requires a > 0.0
    ensures (p <= q ==> p * a <= q * a) && (p < q ==> p * a < q * a)
  {
    var d := q - p;
    assert q * a == p * a + d * a;
    assert d > 0.0 ==> d * a > 0.0;
  }

  /** A higher layer is no smaller than a lower one, and its share of the bitrate no less. */
  lemma LayersGrow(total: int, width: int, height: int, layers: nat, s: nat)
    requires width >= 2 && height >= 2 && width % 2 == 0 && height % 2 == 0 && s + 1 < layers <= 31 && total > 0
    ensures var (w, h) := LayerSize(width, height, layers, s);
            var (w', h') := LayerSize(width, height, layers, s + 1);
            w <= w' && h <= h' && Share(total, width, height, layers, s) <= Share(total, width, height, layers, s + 1)
  {
    hide Even, LayerSize, Portion, PixelSum;
    LayerSizes(width, height, layers, s);
    LayerSizes(width, height, layers, s + 1);
    var (w, h) := LayerSize(width, height, layers, s);
    var (w', h') := LayerSize(width, height, layers, s + 1);
    WidthGrows(width, layers - 1 - s);
    HeightInNumbers(width, height, w);
    HeightInNumbers(width, height, w');
    HeightMonotone(width, height, w, w');
    ProductGrows(w, h, w', h');
    PortionGrows(total as real, (w * h) as real, (w' * h') as real, PixelSum(width, height, layers, layers) as real);
  }

  lemma WidthGrows(width: int, n: nat)
    requires width >= 2 && width % 2 == 0 && n >= 1
    ensures var w := Even(Larger(width / Pow2(n), Even(width / 4)));
            w <= width && w <= Even(Larger(width / Pow2(n - 1), Even(width / 4)))
  {
    HalfBelow(width, n);
    QuotientFalls(width, Pow2(n - 1));
    hide Pow2, Even;
    EvenMonotone(Larger(width / Pow2(n), Even(width / 4)), Larger(width / Pow2(n - 1), Even(width / 4)));
  }

  lemma QuotientFalls(n: int, d: int)
    requires n >= 0 && d >= 1
    ensures n / (2 * d) <= n / d
  {
    var q, r := n / (2 * d), n / d;
    assert n == q * (2 * d) + n % (2 * d) && n == r * d + n % d;
    assert (2 * q - r) * d == n % d - n % (2 * d);
    assert q >= 0 by { QuotientBelow(n, 2 * d); }
    assert 2 * q - r >= 1 ==> (2 * q - r) * d >= d;
  }

  lemma ProductGrows(a: nat, b: nat, a': nat, b': nat)
    requires a <= a' && b <= b'
    ensures a * b <= a' * b'
  {
    assert a' * b' - a * b == (a' - a) * b' + a * (b' - b);
  }

  lemma PortionGrows(t: real, p: real, q: real, all: real)
    requires t >= 0.0 && p <= q && all > 0.0
    ensures Portion(t, p, all).Floor <= Portion(t, q, all).Floor
  {
    PortionAdd(t, p, q - p, all);
    PortionNonNegative(t, q - p, all);
  }

  lemma Doubling()
    ensures Pow2(0) == 1 && forall n: nat {:trigger Pow2(n + 1)} :: Pow2(n + 1) == 2 * Pow2(n)
  {
  }

  lemma FullHeight(width: int, height: int)
    requires width > 0 && height >= 2 && height % 2 == 0
    ensures Even((2 * width * height + width) / (2 * width)) == height
  {
    assert (2 * width * height + width) == height * (2 * width) + width;
    QuotientIs(2 * width * height + width, 2 * width, height, width);
  }

  lemma QuotientIs(n: int, d: int, q: int, rest: int)
    requires d > 0 && n == q * d + rest && 0 <= rest < d
    ensures n / d == q
  {
    var r := n / d;
    assert n == r * d + n % d;
    assert (q - r) * d == n % d - rest;
    assert q - r >= 1 ==> (q - r) * d >= d;
    assert q - r <= -1 ==> (q - r) * d <= -d;
  }

  lemma QuotientBelow(n: int, d: int)
    requires n >= 0 && d >= 1
    ensures 0 <= n / d <= n
  {
  }

  lemma HalfBelow(width: int, n: nat)
    requires width >= 2 && width % 2 == 0 && n >= 1
    ensures Even(Larger(width / Pow2(n), Even(width / 4))) <= width
  {
    assert Pow2(n) == 2 * Pow2(n - 1) by { Doubling(); assert Pow2((n - 1) + 1) == 2 * Pow2(n - 1); }
    QuotientBelow(width, Pow2(n));
  }

  lemma FitInNumbers(maxWidth: int, maxHeight: int, target: int)
    requires maxWidth >= 2 && maxHeight >= 2 && maxWidth % 2 == 0 && maxHeight % 2 == 0 && 0 < target <= maxWidth
    ensures var wide := Even(Larger(target, Even(maxWidth / 4)));
            var w := if wide > maxWidth then maxWidth else wide;
            FitDimensions(maxWidth, maxHeight, target) == (w, Even((2 * w * maxHeight + maxWidth) / (2 * maxWidth)))
  {
    hide Even, HeightFor;
    var wide := Even(Larger(target, Even(maxWidth / 4)));
    var w := if wide > maxWidth then maxWidth else wide;
    HeightInNumbers(maxWidth, maxHeight, w);
    FitIs(maxWidth, maxHeight, target);
    HeightWithin(maxWidth, maxHeight, w);
  }

  lemma FitIs(maxWidth: int, maxHeight: int, target: int)
    requires maxWidth > 0 && maxHeight > 0 && 0 < target <= maxWidth
    ensures var wide := Even(Larger(target, Even(maxWidth / 4)));
            var w := if wide > maxWidth then maxWidth else wide;
            HeightFor(maxWidth, maxHeight, w) <= maxHeight ==>
              FitDimensions(maxWidth, maxHeight, target) == (w, HeightFor(maxWidth, maxHeight, w))
  {
    hide Even, HeightFor, ScaledWidth;
    ScaledToTarget(maxWidth, target);
  }

  lemma ScaledToTarget(maxWidth: int, target: int)
    requires 0 < target <= maxWidth
    ensures ScaledWidth(maxWidth, target) == target
  {
    var asked := target as real / maxWidth as real;
    assert asked * maxWidth as real == target as real;
    assert asked > 1.0 ==> (asked - 1.0) * maxWidth as real > 0.0;
  }

  lemma HeightWithin(maxWidth: int, maxHeight: int, w: int)
    requires maxWidth > 0 && maxHeight >= 2 && maxHeight % 2 == 0 && w <= maxWidth
    ensures HeightFor(maxWidth, maxHeight, w) <= maxHeight
  {
    hide HeightFor;
    HeightMonotone(maxWidth, maxHeight, w, maxWidth);
    HeightAtMax(maxWidth, maxHeight);
  }

  /** Pixels of the first `n` layers together. */
  function PixelSum(width: int, height: int, layers: nat, n: nat): (sum: nat)
    requires layers >= 1 && n <= layers <= 31
    ensures width > 0 && height > 0 && n > 0 ==> sum > 0
  {
    if n == 0 then 0 else PixelSum(width, height, layers, n - 1) + Pixels(width, height, layers, n - 1)
  }

  /** The part of `t` that `p` out of `all` earns. */
  function Portion(t: real, p: real, all: real): real
    requires all != 0.0
  {
    t * p / all
  }

  /** A layer's share of the total bitrate, by its pixels; equal shares when no size is known. */
  function Share(total: int, width: int, height: int, layers: nat, s: nat): int
    requires total > 0 && layers >= 1 && s < layers <= 31
  {
    var all, mine := PixelSum(width, height, layers, layers), Pixels(width, height, layers, s);
    if all <= 0 || mine <= 0 then total / layers else Portion(total as real, mine as real, all as real).Floor
  }

  method LayerBitrate(total: int, width: int, height: int, layers: int, spatial: int) returns (bitrate: int)
    requires layers <= 31
    ensures bitrate == if total <= 0 || layers < 1 then total
                       else Share(total, width, height, layers,
                                  if spatial < 0 then 0 else if spatial >= layers then layers - 1 else spatial)
  {
    hide Pixels, Portion;
    if total <= 0 || layers < 1 {
      return total;
    }
    var id := if spatial < 0 then 0 else if spatial >= layers then layers - 1 else spatial;
    var sum := 0;
    for s := 0 to layers
      invariant sum == PixelSum(width, height, layers, s)
    {
      sum := sum + Pixels(width, height, layers, s);
    }
    var mine := Pixels(width, height, layers, id);
    if sum <= 0 || mine <= 0 {
      return total / layers;
    }
    return Portion(total as real, mine as real, sum as real).Floor;
  }

  function ShareSum(total: int, width: int, height: int, layers: nat, n: nat): int
    requires total > 0 && layers >= 1 && n <= layers <= 31
  {
    if n == 0 then 0 else ShareSum(total, width, height, layers, n - 1) + Share(total, width, height, layers, n - 1)
  }

  lemma PortionAdd(t: real, p: real, q: real, all: real)
    requires all > 0.0
    ensures Portion(t, p + q, all) == Portion(t, p, all) + Portion(t, q, all)
  {
    assert t * (p + q) == t * p + t * q;
  }

  lemma PortionEnds(t: real, all: real)
    requires all > 0.0
    ensures Portion(t, 0.0, all) == 0.0 && Portion(t, all, all) == t
  {
  }

  lemma PortionNonNegative(t: real, p: real, all: real)
    requires t >= 0.0 && p >= 0.0 && all > 0.0
    ensures Portion(t, p, all) >= 0.0
  {
    Scales(0.0, t, p);
    var x := t * p;
    assert x >= 0.0;
  }

  /** The first `n` shares are together what their pixels earn, less one each at most. */
  lemma {:induction false} SharesBelow(total: int, width: int, height: int, layers: nat, n: nat)
    requires total > 0 && width > 0 && height > 0 && layers >= 1 && n <= layers <= 31
    ensures PixelSum(width, height, layers, layers) > 0
    ensures var earned := Portion(total as real, PixelSum(width, height, layers, n) as real,
                                  PixelSum(width, height, layers, layers) as real);
            var sum := ShareSum(total, width, height, layers, n) as real;
            sum <= earned && (if n > 0 then earned < sum + n as real else earned == sum)
    ensures forall s | 0 <= s < n :: Share(total, width, height, layers, s) >= 0
  {
    hide Pixels, Portion;
    var t, all := total as real, PixelSum(width, height, layers, layers) as real;
    PortionEnds(t, all);
    if n > 0 {
      SharesBelow(total, width, height, layers, n - 1);
      var p, q := PixelSum(width, height, layers, n - 1) as real, Pixels(width, height, layers, n - 1) as real;
      assert PixelSum(width, height, layers, n) as real == p + q;
      PortionAdd(t, p, q, all);
      PortionNonNegative(t, q, all);
    }
  }

  /** The layers' bitrates are nonnegative, and together at most the total and more than the total
      less one per layer. */
  lemma BitrateSplit(total: int, width: int, height: int, layers: nat)
    requires total > 0 && 1 <= layers <= 31
    ensures forall s | 0 <= s < layers :: Share(total, width, height, layers, s) >= 0
    ensures total - layers < ShareSum(total, width, height, layers, layers) <= total
  {
    hide Share, PixelSum, ShareSum, Portion;
    if width > 0 && height > 0 {
      SharesBelow(total, width, height, layers, layers);
      PortionEnds(total as real, PixelSum(width, height, layers, layers) as real);
    } else {
      NoSize(total, width, height, layers, layers);
      EqualShares(total, layers);
    }
  }

  lemma {:induction false} NoSize(total: int, width: int, height: int, layers: nat, n: nat)
    requires total > 0 && n <= layers <= 31 && layers >= 1 && (width <= 0 || height <= 0)
    ensures ShareSum(total, width, height, layers, n) == n * (total / layers)
    ensures forall s | 0 <= s < layers :: Share(total, width, height, layers, s) == total / layers
  {
    hide Portion;
    if n > 0 {
      NoSize(total, width, height, layers, n - 1);
      var each := total / layers;
      assert n * each == (n - 1) * each + each;
    }
  }

  lemma EqualShares(total: int, layers: nat)
    requires total > 0 && layers >= 1
    ensures total - layers < layers * (total / layers) <= total && total / layers >= 0
  {
  }
}
