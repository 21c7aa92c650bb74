/** optSelection1D.py: the one-sided cut `cos(theta) >= c` on a grid of
    cut values, for events with non-zero momentum.
 */
module OneSided {
  import opened Results
  import opened Counting
  import opened Events
  import opened Grid
  import opened CutScan
  import opened Optimizer
  import opened Samples

  /** The cut grid of the script: 16 values from 0.2 to 0.95. */
  const CosthLow: real := 0.2
  const CosthHigh: real := 0.95
  const NCosth: nat := 16

  /** The pass condition of the scan: an event is skipped when its
      momentum is exactly zero or its cos(theta) is below the cut. */
  predicate Passes(k: Kin, c: real) {
    !(k.p == 0.0 || k.cosTheta < c)
  }

  /** An event adds one to the entry of `v` at `c` exactly when it is
      fiducial, has non-zero momentum and has cos(theta) at least `c`. */
  lemma EventCounts(events: seq<Event>, e: Event, v: Var, c: real)
    ensures PassCount(events + [e], v, c, Passes)
         == PassCount(events, v, c, Passes)
            + (if Fiducial(e) && v in e.kin && e.kin[v].p != 0.0 && e.kin[v].cosTheta >= c then 1 else 0)
  {
    CountAppend(events, e, PassPred(v, c, Passes));
    assert PassPred(v, c, Passes)(e) == (Fiducial(e) && v in e.kin && Passes(e.kin[v], c));
  }

  /** Raising the cut never lets more events through. */
  lemma CutMonotone(events: seq<Event>, v: Var, c1: real, c2: real)
    requires c1 <= c2
    ensures PassCount(events, v, c2, Passes) <= PassCount(events, v, c1, Passes)
  {
    forall i | 0 <= i < |events|
      ensures PassPred(v, c2, Passes)(events[i]) ==> PassPred(v, c1, Passes)(events[i])
    {
      var e := events[i];
      assert PassPred(v, c2, Passes)(e) == (Fiducial(e) && v in e.kin && Passes(e.kin[v], c2));
      assert PassPred(v, c1, Passes)(e) == (Fiducial(e) && v in e.kin && Passes(e.kin[v], c1));
    }
    CountMonotone(events, PassPred(v, c2, Passes), PassPred(v, c1, Passes));
  }

  /** In a table filled by the one-sided scan, a higher cut has a count
      and a rate no larger than a lower cut. */
  lemma TableMonotone(events: seq<Event>, vars: seq<Var>, cuts: seq<real>, s: Selection<real>, v: Var, c1: real, c2: real)
    requires WellFormed(s, vars, set c | c in cuts)
    requires forall v, c :: v in vars && c in cuts ==> s.nPassed[v][c] == PassCount(events, v, c, Passes)
    requires v in vars && c1 in cuts && c2 in cuts && c1 <= c2
    ensures s.nPassed[v][c2] <= s.nPassed[v][c1]
    ensures s.rPassed[v][c2] <= s.rPassed[v][c1]
  {
    CutMonotone(events, v, c1, c2);
    RateMonotone(s.nPassed[v][c2], s.nPassed[v][c1], s.nFiducial);
  }

  /** `selectEvents` of the one-sided scan over `linspace(costhl, costhh, ncosth)`.
      For every variable, a higher cut has a pass count and a pass rate no
      larger than a lower cut. */
  method SelectEvents1D(events: seq<Event>, vars: seq<Var>, costhl: real, costhh: real, ncosth: nat)
    returns (r: Result<Selection<real>>)
    requires Distinct(vars)
    requires costhl != costhh || ncosth <= 1
    ensures r.Failure? <==>
              || !HasLeaves(events, vars, Fiducial)
              || (FiducialCount(events) == 0 && |vars| > 0 && ncosth > 0)
    ensures !HasLeaves(events, vars, Fiducial) ==> r.Failure? && r.error.MissingField? && r.error.name in vars
    ensures r.Success? ==> r.value.n == |events| && r.value.nFiducial == FiducialCount(events)
    ensures r.Success? ==> WellFormed(r.value, vars, set c | c in Linspace(costhl, costhh, ncosth))
    ensures r.Success? ==> forall v, c :: v in vars && c in Linspace(costhl, costhh, ncosth) ==>
              r.value.nPassed[v][c] == PassCount(events, v, c, Passes)
    ensures r.Success? ==> forall v, c1, c2 :: v in vars && c1 in r.value.nPassed[v] && c2 in r.value.nPassed[v] && c1 <= c2 ==>
              && r.value.nPassed[v][c2] <= r.value.nPassed[v][c1]
              && r.value.rPassed[v][c2] <= r.value.rPassed[v][c1]
  {
    var cuts := Linspace(costhl, costhh, ncosth);
    r := SelectEvents(events, vars, cuts, Passes);
    if r.Success? {
      SelectionMonotone(events, vars, cuts, r.value);
    }
  }

  /** `TableMonotone` for every variable and every pair of cuts. */
  lemma SelectionMonotone(events: seq<Event>, vars: seq<Var>, cuts: seq<real>, s: Selection<real>)
    requires WellFormed(s, vars, set c | c in cuts)
    requires forall v, c :: v in vars && c in cuts ==> s.nPassed[v][c] == PassCount(events, v, c, Passes)
    ensures forall v, c1, c2 :: v in vars && c1 in s.nPassed[v] && c2 in s.nPassed[v] && c1 <= c2 ==>
              && s.nPassed[v][c2] <= s.nPassed[v][c1]
              && s.rPassed[v][c2] <= s.rPassed[v][c1]
  {
    forall v, c1, c2 | v in vars && c1 in s.nPassed[v] && c2 in s.nPassed[v] && c1 <= c2
      ensures s.nPassed[v][c2] <= s.nPassed[v][c1]
      ensures s.rPassed[v][c2] <= s.rPassed[v][c1]
    {
      TableMonotone(events, vars, cuts, s, v, c1, c2);
    }
  }

  /** The optimiser of the one-sided script: the background counts are
      scaled by `ExposureScale(bgScale)`, i.e. `bgScale * 40 / 28.705`. A
      recorded cut is a key both samples have, and its record is `BestAt`
      that key with that factor: the signal rate, the raw background count
      times the factor and the square root of the raw count times the
      factor. */
  function Optimize1D(vars: seq<Var>, keys: seq<real>, sig: Selection<real>, bkg: Selection<real>, bgScale: real, sqrt: real -> real)
    : (r: Result<map<Var, Best<real>>>)
    requires KeyOrder(sig, keys)
    ensures r.Success? ==> forall v :: v in r.value ==>
              && v in bkg.nPassed && r.value[v].cut in keys && r.value[v].cut in bkg.nPassed[v]
              && v in sig.rPassed && r.value[v].cut in sig.rPassed[v]
              && r.value[v] == BestAt(r.value[v].cut, sig.rPassed[v], bkg.nPassed[v], ExposureScale(bgScale), sqrt)
  {
    var r := OptimizeSelection(vars, keys, sig, bkg, ExposureScale(bgScale), sqrt);
    if r.Success? then
      forall v | v in r.value
        ensures && v in bkg.nPassed && r.value[v].cut in keys && r.value[v].cut in bkg.nPassed[v]
                && v in sig.rPassed && r.value[v].cut in sig.rPassed[v]
                && r.value[v] == BestAt(r.value[v].cut, sig.rPassed[v], bkg.nPassed[v], ExposureScale(bgScale), sqrt)
      {
        Recorded1D(vars, keys, sig, bkg, bgScale, sqrt, v);
      }
      r
    else r
  }

  /** The record of `v`, scaled by the exposure factor of `bgScale`. */
  lemma Recorded1D(vars: seq<Var>, keys: seq<real>, sig: Selection<real>, bkg: Selection<real>, bgScale: real, sqrt: real -> real, v: Var)
    requires KeyOrder(sig, keys)
    requires OptimizeSelection(vars, keys, sig, bkg, ExposureScale(bgScale), sqrt).Success?
    requires v in OptimizeSelection(vars, keys, sig, bkg, ExposureScale(bgScale), sqrt).value
    ensures var b := OptimizeSelection(vars, keys, sig, bkg, ExposureScale(bgScale), sqrt).value[v];
      && v in bkg.nPassed && b.cut in keys && b.cut in bkg.nPassed[v]
      && v in sig.rPassed && b.cut in sig.rPassed[v]
      && b == BestAt(b.cut, sig.rPassed[v], bkg.nPassed[v], ExposureScale(bgScale), sqrt)
  {
    var s := ExposureScale(bgScale);
    RecordedBest(vars, keys, sig, bkg, s, sqrt, v);
    VarBest(keys, sig.rPassed[v], bkg.nPassed[v], s, sqrt);
  }

  /** One (mass, gamma) step of the script's main loop: nothing for a
      skipped point; otherwise the signal scan on the script's grid and the
      optimiser against the background table `bkg`, stored under `atmos`
      before the loop. `keys` is the order in which the signal table
      iterates its cuts: every cut of the grid, once. The step aborts
      exactly when the signal scan aborts or some cut of some variable is
      missing from the background, is passed by no signal event, or makes
      the square root argument negative. */
  method Step1D(bkg: Selection<real>, sigEvents: seq<Event>, vars: seq<Var>, mass: nat, gamma: real,
                bgScale: real, keys: seq<real>, sqrt: real -> real)
    returns (r: Result<Option<(Selection<real>, map<Var, Best<real>>)>>)
    requires Distinct(vars)
    requires Distinct(keys) && (set k | k in keys) == (set c | c in Linspace(CosthLow, CosthHigh, NCosth))
    ensures Skipped(mass, gamma) <==> r == Success(None)
    ensures r.Failure? <==>
              && !Skipped(mass, gamma)
              && (|| !HasLeaves(sigEvents, vars, Fiducial)
                  || (FiducialCount(sigEvents) == 0 && |vars| > 0)
                  || exists v, i :: v in vars && 0 <= i < |keys| &&
                       !CutUsable(bkg, v, keys[i], PassCount(sigEvents, v, keys[i], Passes), FiducialCount(sigEvents),
                                  ExposureScale(bgScale)))
    ensures !Skipped(mass, gamma) && !HasLeaves(sigEvents, vars, Fiducial) ==> r.Failure? && r.error.MissingField?
    ensures r.Success? && r.value.Some? ==>
              var (sig, best) := r.value.value;
              && WellFormed(sig, vars, set c | c in Linspace(CosthLow, CosthHigh, NCosth))
              && (forall v, c :: v in vars && c in Linspace(CosthLow, CosthHigh, NCosth) ==>
                    sig.nPassed[v][c] == PassCount(sigEvents, v, c, Passes))
              && KeyOrder(sig, keys)
              && Optimize1D(vars, keys, sig, bkg, bgScale, sqrt) == Success(best)
  {
    if Skipped(mass, gamma) {
      return Success(None);
    }
    var grid := Linspace(CosthLow, CosthHigh, NCosth);
    var sig := SelectEvents1D(sigEvents, vars, CosthLow, CosthHigh, NCosth);
    if sig.Failure? {
      return Failure(sig.error);
    }
    var s := sig.value;
    WellFormedKeyOrder(s, vars, (set c | c in grid), keys);
    SelectionAborts(vars, keys, s, bkg, ExposureScale(bgScale), sqrt);
    assert forall v, i :: v in vars && 0 <= i < |keys| ==> s.nPassed[v][keys[i]] == PassCount(sigEvents, v, keys[i], Passes) by {
      forall v, i | v in vars && 0 <= i < |keys|
        ensures s.nPassed[v][keys[i]] == PassCount(sigEvents, v, keys[i], Passes)
      {
        assert keys[i] in (set k | k in keys);
      }
    }
    var best := Optimize1D(vars, keys, s, bkg, bgScale, sqrt);
    if best.Failure? {
      return Failure(best.error);
    }
    return Success(Some((s, best.value)));
  }
}
