/** The arrival rules of src/simulation/simulation.py: morning-rush windows,
    the burst multiplier, the destination choice and the arrival-count draw. */
module Arrivals {
  import opened Wrappers

  /** `MorningRushWindow`. */
  datatype Window = Window(
    startTime: int,
    endTime: int,
    multiplier: real,
    originFloor: int,
    destinationFocus: Option<int>)

  /** `MorningRushWindow.active`: the half-open window `[start, end)` at its
      origin floor. */
  predicate Active(w: Window, timeStep: int, origin: int) {
    w.startTime <= timeStep < w.endTime && origin == w.originFloor
  }

  /** `i` is the first window active at `timeStep` for `origin`. */
  predicate IsFirstActive(ws: seq<Window>, timeStep: int, origin: int, i: int) {
    && 0 <= i < |ws|
    && Active(ws[i], timeStep, origin)
    && forall j :: 0 <= j < i ==> !Active(ws[j], timeStep, origin)
  }

  /** `next((b for b in bursts if b.active(t, origin)), None)`. */
  function FirstActive(ws: seq<Window>, timeStep: int, origin: int): (r: Option<Window>)
    ensures r.None? <==> forall j :: 0 <= j < |ws| ==> !Active(ws[j], timeStep, origin)
    ensures r.Some? ==> exists i :: IsFirstActive(ws, timeStep, origin, i) && ws[i] == r.value
    ensures forall i :: IsFirstActive(ws, timeStep, origin, i) ==> r == Some(ws[i])
    decreases |ws|
  {
    if ws == [] then None
    else if Active(ws[0], timeStep, origin) then
      assert IsFirstActive(ws, timeStep, origin, 0);
      Some(ws[0])
    else
      var r := FirstActive(ws[1..], timeStep, origin);
      assert forall j :: 1 <= j < |ws| ==> ws[j] == ws[1..][j - 1];
      assert forall i :: IsFirstActive(ws, timeStep, origin, i) ==> IsFirstActive(ws[1..], timeStep, origin, i - 1);
      if r.Some? then
        var i :| IsFirstActive(ws[1..], timeStep, origin, i) && ws[1..][i] == r.value;
        assert IsFirstActive(ws, timeStep, origin, i + 1);
        r
      else r
  }

  /** `_burst_multiplier`: the first active window's multiplier, else 1. */
  function BurstMultiplier(ws: seq<Window>, timeStep: int, origin: int): (m: real)
    ensures (forall j :: 0 <= j < |ws| ==> !Active(ws[j], timeStep, origin)) ==> m == 1.0
    ensures forall i :: IsFirstActive(ws, timeStep, origin, i) ==> m == ws[i].multiplier
  {
    match FirstActive(ws, timeStep, origin)
    case None => 1.0
    case Some(w) => w.multiplier
  }

  /** How `_choose_destination` picks: the focus floor of the first active
      window, or a uniform draw among the given floors (`random.choice`, which
      raises on an empty list). */
  datatype DestinationChoice = Focus(floor: int) | Uniform(floors: seq<int>)

  /** `[f for f in range(num_floors) if f != origin]`. */
  function OtherFloors(numFloors: nat, origin: int): (fs: seq<int>)
    ensures forall f :: f in fs <==> 0 <= f < numFloors && f != origin
    ensures forall i :: 0 <= i < |fs| ==> fs[i] < numFloors
    ensures forall i, j :: 0 <= i < j < |fs| ==> fs[i] < fs[j]
  {
    if numFloors == 0 then []
    else if numFloors - 1 == origin then OtherFloors(numFloors - 1, origin)
    else OtherFloors(numFloors - 1, origin) + [numFloors - 1]
  }

  /** `_choose_destination(origin)` at `timeStep`. Only the first active window
      is consulted: a later window's focus is ignored. */
  function ChooseDestination(ws: seq<Window>, timeStep: int, origin: int, numFloors: nat)
    : (c: DestinationChoice)
    ensures c.Focus? <==> exists i :: IsFirstActive(ws, timeStep, origin, i) && ws[i].destinationFocus.Some?
    ensures c.Focus? ==> exists i :: IsFirstActive(ws, timeStep, origin, i) && ws[i].destinationFocus == Some(c.floor)
    ensures c.Uniform? ==> c.floors == OtherFloors(numFloors, origin)
  {
    var first := FirstActive(ws, timeStep, origin);
    if first.Some? && first.value.destinationFocus.Some? then Focus(first.value.destinationFocus.value)
    else Uniform(OtherFloors(numFloors, origin))
  }

  /** The multiplicative loop of `_poisson`: multiply draws into `p` while
      `p > threshold`, counting them; None when the draws run out first. */
  function PoissonLoop(k: int, p: real, threshold: real, draws: seq<real>): (r: Option<int>)
    ensures r.Some? ==> k - 1 <= r.value < k + |draws|
    ensures p <= threshold ==> r == Some(k - 1)
    decreases |draws|
  {
    if p <= threshold then Some(k - 1)
    else if draws == [] then None
    else PoissonLoop(k + 1, p * draws[0], threshold, draws[1..])
  }

  /** `_poisson(lam)` with `exp(-lam)` supplied as `threshold` and the
      generator's `random()` values as `draws`. */
  function Poisson(lam: real, threshold: real, draws: seq<real>): (r: Option<int>)
    ensures lam <= 0.0 ==> r == Some(0)
    ensures r.Some? ==> -1 <= r.value
    ensures lam > 0.0 && r.Some? ==> r.value < |draws|
  {
    if lam <= 0.0 then Some(0) else PoissonLoop(0, 1.0, threshold, draws)
  }

  /** With a positive rate whose `exp(-lam)` rounds to 1.0 the loop never
      runs and the count is -1; any threshold below 1 forces at least one
      draw, so the count is never negative. */
  lemma PoissonEdges(lam: real, threshold: real, draws: seq<real>)
    requires lam > 0.0
    ensures threshold >= 1.0 ==> Poisson(lam, threshold, draws) == Some(-1)
    ensures threshold < 1.0 && Poisson(lam, threshold, draws).Some? ==> Poisson(lam, threshold, draws).value >= 0
  {
    if threshold < 1.0 && draws != [] {
      assert Poisson(lam, threshold, draws) == PoissonLoop(1, draws[0], threshold, draws[1..]);
    }
  }

  /** The values `p` takes in `_poisson`'s loop when it starts at `p` and
      multiplies in the draws one by one: `ps[i]` is `p` times the first `i`
      draws. */
  function RunningProducts(p: real, ds: seq<real>): (ps: seq<real>)
    ensures |ps| == |ds| + 1 && ps[0] == p
    decreases |ds|
  {
    if ds == [] then [p] else [p] + RunningProducts(p * ds[0], ds[1..])
  }

  /** Each running product is the previous one times the next draw. */
  lemma {:induction false} RunningProductsStep(p: real, ds: seq<real>, i: nat)
    requires i < |ds|
    ensures RunningProducts(p, ds)[i + 1] == RunningProducts(p, ds)[i] * ds[i]
    decreases |ds|
  {
    if i > 0 {
      RunningProductsStep(p * ds[0], ds[1..], i - 1);
    }
  }

  /** The loop stops at the first running product that is at most the
      threshold, answering `k - 1` plus the number of draws it took; it runs
      out of draws only when every running product stays above. */
  lemma {:induction false} PoissonLoopStops(k: int, p: real, threshold: real, ds: seq<real>)
    ensures var r := PoissonLoop(k, p, threshold, ds);
      var ps := RunningProducts(p, ds);
      && (r.Some? ==> && 0 <= r.value - k + 1 <= |ds|
                      && ps[r.value - k + 1] <= threshold
                      && forall i :: 0 <= i <= r.value - k ==> ps[i] > threshold)
      && (r.None? ==> forall i :: 0 <= i <= |ds| ==> ps[i] > threshold)
    decreases |ds|
  {
    if p > threshold && ds != [] {
      PoissonLoopStops(k + 1, p * ds[0], threshold, ds[1..]);
      var ps := RunningProducts(p, ds);
      assert forall i :: 0 < i < |ps| ==> ps[i] == RunningProducts(p * ds[0], ds[1..])[i - 1];
    }
  }

  /** For a positive rate `_poisson` consumes draws until their running
      product first drops to `exp(-lam)` or below, and returns one less than
      the number it consumed; None means the supplied draws never got there. */
  lemma PoissonConsumes(lam: real, threshold: real, draws: seq<real>)
    requires lam > 0.0
    ensures var r := Poisson(lam, threshold, draws);
      var ps := RunningProducts(1.0, draws);
      && (r.Some? ==> && r.value + 1 <= |draws|
                      && ps[r.value + 1] <= threshold
                      && forall i :: 0 <= i <= r.value ==> ps[i] > threshold)
      && (r.None? ==> forall i :: 0 <= i <= |draws| ==> ps[i] > threshold)
  {
    PoissonLoopStops(0, 1.0, threshold, draws);
  }

}
