/** optSelection1DLinear.py: a cut along a line in the (momentum,
    cos theta) plane. For the cut value `c` and the slope parameter `ph`
    of the gamma point, an event passes when `p (1 - c) <= ph (cos - c)`,
    i.e. a high-momentum event needs a larger cos theta to pass. The
    background sample is scanned again for every gamma, with that gamma's
    `ph`, and stored under its own key.
 */
module Linear {
  import opened Results
  import opened Counting
  import opened Events
  import opened Grid
  import opened CutScan
  import opened Optimizer
  import opened Samples
  import OneSided

  /** The cut grid of the script: 18 values from 0.1 to 0.95. */
  const CosthLow: real := 0.1
  const CosthHigh: real := 0.95
  const NCosth: nat := 18

  /** The slope parameter of each gamma point. */
  const PhTable: map<real, real> := map[1.1 := 1.0, 1.25 := 1.6, 2.0 := 3.0, 10.0 := 80.0]

  /** The gamma points of the script's main loop. */
  const Gammas: seq<real> := [1.1, 1.25, 2.0, 10.0]

  /** The pass condition of the scan: an event is skipped when its
      momentum is exactly zero or it lies above the line. */
  predicate PassesLinear(ph: real, k: Kin, c: real) {
    !(k.p == 0.0 || k.p * (1.0 - c) > ph * (k.cosTheta - c))
  }

  /** The scan's rule for slope parameter `ph`. */
  function LinearRule(ph: real): Rule {
    (k: Kin, c: real) => PassesLinear(ph, k, c)
  }

  /** The strict one-sided condition: non-zero momentum and cos theta
      above the cut. */
  predicate Forward(k: Kin, c: real) {
    k.p != 0.0 && k.cosTheta > c
  }

  /** No event has a negative momentum for any variable of `vars`. */
  ghost predicate NonNegativeMomenta(events: seq<Event>, vars: seq<Var>) {
    forall i, v :: 0 <= i < |events| && v in vars && v in events[i].kin ==> events[i].kin[v].p >= 0.0
  }

  /** An event adds one to the entry of `v` at `c` exactly when it is
      fiducial, has non-zero momentum and lies on or below the line. */
  lemma EventCountsLinear(events: seq<Event>, e: Event, v: Var, c: real, ph: real)
    ensures PassCount(events + [e], v, c, LinearRule(ph))
         == PassCount(events, v, c, LinearRule(ph))
            + (if Fiducial(e) && v in e.kin && e.kin[v].p != 0.0
                  && e.kin[v].p * (1.0 - c) <= ph * (e.kin[v].cosTheta - c) then 1 else 0)
  {
    CountAppend(events, e, PassPred(v, c, LinearRule(ph)));
    assert PassPred(v, c, LinearRule(ph))(e) == (Fiducial(e) && v in e.kin && PassesLinear(ph, e.kin[v], c));
  }

  /** With a positive momentum, a positive slope parameter and a cut below
      1, an event on or below the line has cos theta strictly above the cut. */
  lemma LinearAboveCut(ph: real, k: Kin, c: real)
    requires k.p > 0.0 && ph > 0.0 && c < 1.0
    requires PassesLinear(ph, k, c)
    ensures k.cosTheta > c
  {
    var d := k.cosTheta - c;
    assert k.p * (1.0 - c) > 0.0;
    assert k.p * (1.0 - c) <= ph * d;
    var q := (ph * d) / ph;
    assert q == d;
  }

  /** Under the conditions of `LinearAboveCut`, a larger slope parameter
      lets through every event a smaller one does. */
  lemma LinearSlopeMonotone(ph1: real, ph2: real, k: Kin, c: real)
    requires k.p > 0.0 && 0.0 < ph1 <= ph2 && c < 1.0
    requires PassesLinear(ph1, k, c)
    ensures PassesLinear(ph2, k, c)
  {
    LinearAboveCut(ph1, k, c);
    var d := k.cosTheta - c;
    assert (ph2 - ph1) * d >= 0.0;
  }

  /** With non-negative momenta, a positive slope parameter and a cut below
      1, the linear count is at most the strict one-sided count, which is
      at most the count of the one-sided script at the same cut. */
  lemma LinearWithinOneSided(events: seq<Event>, vars: seq<Var>, v: Var, c: real, ph: real)
    requires NonNegativeMomenta(events, vars) && v in vars
    requires ph > 0.0 && c < 1.0
    ensures PassCount(events, v, c, LinearRule(ph)) <= PassCount(events, v, c, Forward)
    ensures PassCount(events, v, c, Forward) <= PassCount(events, v, c, OneSided.Passes)
  {
    forall i | 0 <= i < |events|
      ensures PassPred(v, c, LinearRule(ph))(events[i]) ==> PassPred(v, c, Forward)(events[i])
      ensures PassPred(v, c, Forward)(events[i]) ==> PassPred(v, c, OneSided.Passes)(events[i])
    {
      var e := events[i];
      assert PassPred(v, c, LinearRule(ph))(e) == (Fiducial(e) && v in e.kin && PassesLinear(ph, e.kin[v], c));
      assert PassPred(v, c, Forward)(e) == (Fiducial(e) && v in e.kin && Forward(e.kin[v], c));
      assert PassPred(v, c, OneSided.Passes)(e) == (Fiducial(e) && v in e.kin && OneSided.Passes(e.kin[v], c));
      if PassPred(v, c, LinearRule(ph))(e) {
        LinearAboveCut(ph, e.kin[v], c);
      }
    }
    CountMonotone(events, PassPred(v, c, LinearRule(ph)), PassPred(v, c, Forward));
    CountMonotone(events, PassPred(v, c, Forward), PassPred(v, c, OneSided.Passes));
  }

  /** With non-negative momenta and a cut below 1, a larger positive slope
      parameter never gives a smaller count. */
  lemma SlopeMonotoneCount(events: seq<Event>, vars: seq<Var>, v: Var, c: real, ph1: real, ph2: real)
    requires NonNegativeMomenta(events, vars) && v in vars
    requires 0.0 < ph1 <= ph2 && c < 1.0
    ensures PassCount(events, v, c, LinearRule(ph1)) <= PassCount(events, v, c, LinearRule(ph2))
  {
    forall i | 0 <= i < |events|
      ensures PassPred(v, c, LinearRule(ph1))(events[i]) ==> PassPred(v, c, LinearRule(ph2))(events[i])
    {
      var e := events[i];
      assert PassPred(v, c, LinearRule(ph1))(e) == (Fiducial(e) && v in e.kin && PassesLinear(ph1, e.kin[v], c));
      assert PassPred(v, c, LinearRule(ph2))(e) == (Fiducial(e) && v in e.kin && PassesLinear(ph2, e.kin[v], c));
      if PassPred(v, c, LinearRule(ph1))(e) {
        LinearSlopeMonotone(ph1, ph2, e.kin[v], c);
      }
    }
    CountMonotone(events, PassPred(v, c, LinearRule(ph1)), PassPred(v, c, LinearRule(ph2)));
  }

  /** Every gamma point of the main loop has a positive slope parameter,
      and a larger gamma has a larger one. */
  lemma PhTableCovers()
    ensures forall g :: g in Gammas ==> g in PhTable && PhTable[g] > 0.0
    ensures forall i, j :: 0 <= i < j < |Gammas| ==> PhTable[Gammas[i]] < PhTable[Gammas[j]]
  {
  }

  /** Along the main loop, a later gamma's table never holds a smaller
      count than an earlier one's, for non-negative momenta and a cut below 1. */
  lemma GammaLoopMonotone(events: seq<Event>, vars: seq<Var>, v: Var, c: real, i: nat, j: nat)
    requires NonNegativeMomenta(events, vars) && v in vars && c < 1.0
    requires i < j < |Gammas|
    ensures Gammas[i] in PhTable && Gammas[j] in PhTable
    ensures PassCount(events, v, c, LinearRule(PhTable[Gammas[i]])) <= PassCount(events, v, c, LinearRule(PhTable[Gammas[j]]))
  {
    PhTableCovers();
    SlopeMonotoneCount(events, vars, v, c, PhTable[Gammas[i]], PhTable[Gammas[j]]);
  }

  /** `selectEvents` of the linear script over `linspace(costhl, costhh,
      ncosth)` with slope parameter `ph`. With non-negative momenta and a
      positive `ph`, no entry below cut 1 exceeds the one-sided count. */
  method SelectEventsLinear(events: seq<Event>, vars: seq<Var>, costhl: real, costhh: real, ncosth: nat, ph: real)
    returns (r: Result<Selection<real>>)
    requires Distinct(vars)
    requires costhl != costhh || ncosth <= 1
    ensures r.Failure? <==>
              || !HasLeaves(events, vars, Fiducial)
              || (FiducialCount(events) == 0 && |vars| > 0 && ncosth > 0)
    ensures !HasLeaves(events, vars, Fiducial) ==> r.Failure? && r.error.MissingField? && r.error.name in vars
    ensures r.Success? ==> r.value.n == |events| && r.value.nFiducial == FiducialCount(events)
    ensures r.Success? ==> WellFormed(r.value, vars, set c | c in Linspace(costhl, costhh, ncosth))
    ensures r.Success? ==> forall v, c :: v in vars && c in Linspace(costhl, costhh, ncosth) ==>
              r.value.nPassed[v][c] == PassCount(events, v, c, LinearRule(ph))
    ensures r.Success? && ph > 0.0 && NonNegativeMomenta(events, vars) ==>
              forall v, c :: v in vars && c in Linspace(costhl, costhh, ncosth) && c < 1.0 ==>
                r.value.nPassed[v][c] <= PassCount(events, v, c, OneSided.Passes)
  {
    var cuts := Linspace(costhl, costhh, ncosth);
    r := SelectEvents(events, vars, cuts, LinearRule(ph));
    if r.Success? && ph > 0.0 && NonNegativeMomenta(events, vars) {
      forall v, c | v in vars && c in cuts && c < 1.0
        ensures r.value.nPassed[v][c] <= PassCount(events, v, c, OneSided.Passes)
      {
        LinearWithinOneSided(events, vars, v, c, ph);
      }
    }
  }

  /** `s` is the table the linear scan fills for `events` on the script's
      grid with slope parameter `ph`. */
  ghost predicate LinearTable(s: Selection<real>, events: seq<Event>, vars: seq<Var>, ph: real) {
    && s.n == |events| && s.nFiducial == FiducialCount(events)
    && WellFormed(s, vars, set c | c in Linspace(CosthLow, CosthHigh, NCosth))
    && forall v, c :: v in vars && c in Linspace(CosthLow, CosthHigh, NCosth) ==>
         s.nPassed[v][c] == PassCount(events, v, c, LinearRule(ph))
  }

  /** One (mass, gamma) step of the script's main loop. It looks up the
      slope parameter of `gamma`, scans the background with it and stores
      the table under `atmos_<gamma>`; unless the point is skipped, it
      scans the signal with the same slope parameter, stores that table
      under the signal key, and optimises the signal against the table
      stored under `atmos_<gamma>`, scaled by `bgScale * 40 / 28.705`.
      `keys` is the order in which the signal table iterates its cuts:
      every cut of the grid, once. The background table has every cut, so
      the optimiser aborts only on a cut no signal event passes or one
      whose scaled background count makes the square root argument
      negative. */
  method LinearStep(store: map<SampleKey, Selection<real>>, bkgEvents: seq<Event>, sigEvents: seq<Event>,
                    vars: seq<Var>, mass: nat, gamma: real, bgScale: real, keys: seq<real>, sqrt: real -> real)
    returns (r: Result<(map<SampleKey, Selection<real>>, Option<map<Var, Best<real>>>)>)
    requires Distinct(vars)
    requires Distinct(keys) && (set k | k in keys) == (set c | c in Linspace(CosthLow, CosthHigh, NCosth))
    ensures gamma !in PhTable ==> r == Failure(MissingKey)
    ensures gamma in PhTable && !HasLeaves(bkgEvents, vars, Fiducial) ==> r.Failure? && r.error.MissingField?
    ensures r.Failure? <==>
              || gamma !in PhTable
              || !HasLeaves(bkgEvents, vars, Fiducial)
              || (FiducialCount(bkgEvents) == 0 && |vars| > 0)
              || (!Skipped(mass, gamma) && SignalAborts(sigEvents, bkgEvents, vars, keys, PhTable[gamma], ExposureScale(bgScale)))
    ensures r.Success? ==>
              var (store', best) := r.value;
              && AtmosGamma(gamma) in store'
              && LinearTable(store'[AtmosGamma(gamma)], bkgEvents, vars, PhTable[gamma])
              && (Skipped(mass, gamma) <==> best.None?)
              && (Skipped(mass, gamma) ==> store' == store[AtmosGamma(gamma) := store'[AtmosGamma(gamma)]])
    ensures r.Success? && !Skipped(mass, gamma) ==>
              var (store', best) := r.value;
              && Signal(mass, gamma) in store'
              && store' == store[AtmosGamma(gamma) := store'[AtmosGamma(gamma)]][Signal(mass, gamma) := store'[Signal(mass, gamma)]]
              && LinearTable(store'[Signal(mass, gamma)], sigEvents, vars, PhTable[gamma])
              && KeyOrder(store'[Signal(mass, gamma)], keys)
              && OptimizeSelection(vars, keys, store'[Signal(mass, gamma)], store'[AtmosGamma(gamma)],
                                   ExposureScale(bgScale), sqrt) == Success(best.value)
  {
    if gamma !in PhTable {
      return Failure(MissingKey);
    }
    var ph := PhTable[gamma];
    var bkg := ScanLinear(bkgEvents, vars, ph);
    if bkg.Failure? {
      return Failure(bkg.error);
    }
    var store' := store[AtmosGamma(gamma) := bkg.value];
    if Skipped(mass, gamma) {
      return Success((store', None));
    }
    var sig := SignalIntoStore(store', bkgEvents, sigEvents, vars, mass, gamma, ph, bgScale, keys, sqrt);
    if sig.Failure? {
      return Failure(sig.error);
    }
    var store'' := sig.value.0;
    assert store'' == store[AtmosGamma(gamma) := bkg.value][Signal(mass, gamma) := store''[Signal(mass, gamma)]];
    assert store''[AtmosGamma(gamma)] == bkg.value;
    return Success((store'', Some(sig.value.1)));
  }

  /** The signal half of a non-skipped step against the background table
      stored under `atmos_<gamma>`: on success the signal table is stored
      under the signal key and nothing else in the store changes. */
  method SignalIntoStore(store: map<SampleKey, Selection<real>>, bkgEvents: seq<Event>, sigEvents: seq<Event>,
                         vars: seq<Var>, mass: nat, gamma: real, ph: real, bgScale: real, keys: seq<real>, sqrt: real -> real)
    returns (r: Result<(map<SampleKey, Selection<real>>, map<Var, Best<real>>)>)
    requires Distinct(vars)
    requires Distinct(keys) && (set k | k in keys) == (set c | c in Linspace(CosthLow, CosthHigh, NCosth))
    requires AtmosGamma(gamma) in store && LinearTable(store[AtmosGamma(gamma)], bkgEvents, vars, ph)
    ensures r.Failure? <==> SignalAborts(sigEvents, bkgEvents, vars, keys, ph, ExposureScale(bgScale))
    ensures !HasLeaves(sigEvents, vars, Fiducial) ==> r.Failure? && r.error.MissingField?
    ensures r.Success? ==>
              var (store', best) := r.value;
              && Signal(mass, gamma) in store'
              && store' == store[Signal(mass, gamma) := store'[Signal(mass, gamma)]]
              && LinearTable(store'[Signal(mass, gamma)], sigEvents, vars, ph)
              && KeyOrder(store'[Signal(mass, gamma)], keys)
              && OptimizeSelection(vars, keys, store'[Signal(mass, gamma)], store'[AtmosGamma(gamma)],
                                   ExposureScale(bgScale), sqrt) == Success(best)
  {
    var sig := SignalStep(sigEvents, vars, ph, store[AtmosGamma(gamma)], bgScale, keys, sqrt);
    BackgroundHasCuts(store[AtmosGamma(gamma)], bkgEvents, vars, ph, keys, sigEvents, ExposureScale(bgScale));
    if sig.Failure? {
      return Failure(sig.error);
    }
    var store' := store[Signal(mass, gamma) := sig.value.0];
    assert store'[AtmosGamma(gamma)] == store[AtmosGamma(gamma)];
    return Success((store', sig.value.1));
  }

  /** The signal half of a step aborts against a background table of
      `bkgEvents` that has every cut: the scan aborts, or at some cut of
      some variable no signal event passes, or the background count scaled
      by `scale` makes Sprime's square root argument negative. */
  ghost predicate SignalAborts(sigEvents: seq<Event>, bkgEvents: seq<Event>, vars: seq<Var>, keys: seq<real>, ph: real, scale: real) {
    || !HasLeaves(sigEvents, vars, Fiducial)
    || (FiducialCount(sigEvents) == 0 && |vars| > 0)
    || exists v, i :: v in vars && 0 <= i < |keys| && CutAborts(sigEvents, bkgEvents, v, keys[i], ph, scale)
  }

  /** Cut `c` of variable `v` stops the optimiser against a background
      table of `bkgEvents`: no signal event passes it, or the scaled
      background count makes the square root argument negative. */
  ghost predicate CutAborts(sigEvents: seq<Event>, bkgEvents: seq<Event>, v: Var, c: real, ph: real, scale: real) {
    var passed := PassCount(sigEvents, v, c, LinearRule(ph));
    || passed == 0
    || (&& FiducialCount(sigEvents) > 0
        && SqrtArgument(Rate(passed, FiducialCount(sigEvents)), (PassCount(bkgEvents, v, c, LinearRule(ph)) as real) * scale) < 0.0)
  }

  /** A background table of the linear scan has every cut for every
      variable, so against it the signal half aborts exactly when
      `SignalAborts` holds. */
  lemma BackgroundHasCuts(bkg: Selection<real>, bkgEvents: seq<Event>, vars: seq<Var>, ph: real, keys: seq<real>, sigEvents: seq<Event>, scale: real)
    requires LinearTable(bkg, bkgEvents, vars, ph)
    requires (set k | k in keys) == (set c | c in Linspace(CosthLow, CosthHigh, NCosth))
    ensures (|| !HasLeaves(sigEvents, vars, Fiducial)
             || (FiducialCount(sigEvents) == 0 && |vars| > 0)
             || exists v, i :: v in vars && 0 <= i < |keys| &&
                  !CutUsable(bkg, v, keys[i], PassCount(sigEvents, v, keys[i], LinearRule(ph)), FiducialCount(sigEvents), scale))
        <==> SignalAborts(sigEvents, bkgEvents, vars, keys, ph, scale)
  {
    forall v, i | v in vars && 0 <= i < |keys|
      ensures !CutUsable(bkg, v, keys[i], PassCount(sigEvents, v, keys[i], LinearRule(ph)), FiducialCount(sigEvents), scale)
          <==> CutAborts(sigEvents, bkgEvents, v, keys[i], ph, scale)
    {
      assert keys[i] in (set k | k in keys);
      assert v in bkg.nPassed && keys[i] in bkg.nPassed[v];
      assert keys[i] in Linspace(CosthLow, CosthHigh, NCosth);
      BackgroundCut(bkg, bkgEvents, ph, v, keys[i], sigEvents, scale);
    }
  }

  /** `BackgroundHasCuts` at one cut `c` of the grid. */
  lemma BackgroundCut(bkg: Selection<real>, bkgEvents: seq<Event>, ph: real, v: Var, c: real, sigEvents: seq<Event>, scale: real)
    requires v in bkg.nPassed && c in bkg.nPassed[v]
    requires bkg.nPassed[v][c] == PassCount(bkgEvents, v, c, LinearRule(ph))
    ensures !CutUsable(bkg, v, c, PassCount(sigEvents, v, c, LinearRule(ph)), FiducialCount(sigEvents), scale)
        <==> CutAborts(sigEvents, bkgEvents, v, c, ph, scale)
  {
    assert PassCount(sigEvents, v, c, LinearRule(ph)) <= FiducialCount(sigEvents);
  }

  /** The scan of one sample on the script's grid with slope parameter `ph`. */
  method ScanLinear(events: seq<Event>, vars: seq<Var>, ph: real) returns (r: Result<Selection<real>>)
    requires Distinct(vars)
    ensures r.Failure? <==> !HasLeaves(events, vars, Fiducial) || (FiducialCount(events) == 0 && |vars| > 0)
    ensures !HasLeaves(events, vars, Fiducial) ==> r.Failure? && r.error.MissingField?
    ensures r.Success? ==> LinearTable(r.value, events, vars, ph)
  {
    r := SelectEventsLinear(events, vars, CosthLow, CosthHigh, NCosth, ph);
  }

  /** The signal half of a step: scan the signal with slope parameter `ph`
      and optimise it against the background table `bkg`. It aborts
      exactly when the scan aborts or some cut of some variable is missing
      from `bkg`, is passed by no signal event, or makes the square root
      argument negative. */
  method SignalStep(sigEvents: seq<Event>, vars: seq<Var>, ph: real, bkg: Selection<real>, bgScale: real,
                    keys: seq<real>, sqrt: real -> real)
    returns (r: Result<(Selection<real>, map<Var, Best<real>>)>)
    requires Distinct(vars)
    requires Distinct(keys) && (set k | k in keys) == (set c | c in Linspace(CosthLow, CosthHigh, NCosth))
    ensures r.Failure? <==>
              || !HasLeaves(sigEvents, vars, Fiducial)
              || (FiducialCount(sigEvents) == 0 && |vars| > 0)
              || exists v, i :: v in vars && 0 <= i < |keys| &&
                   !CutUsable(bkg, v, keys[i], PassCount(sigEvents, v, keys[i], LinearRule(ph)), FiducialCount(sigEvents),
                              ExposureScale(bgScale))
    ensures !HasLeaves(sigEvents, vars, Fiducial) ==> r.Failure? && r.error.MissingField?
    ensures r.Success? ==>
              && LinearTable(r.value.0, sigEvents, vars, ph)
              && KeyOrder(r.value.0, keys)
              && OptimizeSelection(vars, keys, r.value.0, bkg, ExposureScale(bgScale), sqrt) == Success(r.value.1)
  {
    var sig := ScanLinear(sigEvents, vars, ph);
    if sig.Failure? {
      return Failure(sig.error);
    }
    var s := sig.value;
    var grid := Linspace(CosthLow, CosthHigh, NCosth);
    WellFormedKeyOrder(s, vars, (set c | c in grid), keys);
    SelectionAborts(vars, keys, s, bkg, ExposureScale(bgScale), sqrt);
    assert forall v, i :: v in vars && 0 <= i < |keys| ==> s.nPassed[v][keys[i]] == PassCount(sigEvents, v, keys[i], LinearRule(ph)) by {
      forall v, i | v in vars && 0 <= i < |keys|
        ensures s.nPassed[v][keys[i]] == PassCount(sigEvents, v, keys[i], LinearRule(ph))
      {
        assert keys[i] in (set k | k in keys);
      }
    }
    var best := OptimizeSelection(vars, keys, s, bkg, ExposureScale(bgScale), sqrt);
    if best.Failure? {
      return Failure(best.error);
    }
    return Success((s, best.value));
  }
}
