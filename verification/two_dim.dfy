/** optSelection2D.py: a cos theta band `low <= cos <= high`, split at a
    momentum bin edge `pBin` into a low-momentum ("small") side and a
    high-momentum ("large") side. The scan counts each side per band and
    bin edge; the table then pairs, for every bin edge, the small-side
    count of one band with the large-side count of another, so that a
    selection may use a different band below and above the edge.
 */
module TwoDim {
  import opened Results
  import opened Counting
  import opened Events
  import opened Grid
  import opened Optimizer
  import opened Samples

  /** The script's grids: 19 bin edges from 0.1 to 1 GeV, 17 band lower
      edges from 0.2 to 1 and 11 band upper edges from 0.5 to 1. */
  const PLow: real := 0.1
  const PHigh: real := 1.0
  const NP: nat := 19
  const CosthLowLow: real := 0.2
  const CosthLowHigh: real := 1.0
  const NCosthLow: nat := 17
  const CosthHighLow: real := 0.5
  const CosthHighHigh: real := 1.0
  const NCosthHigh: nat := 11

  /** A cos theta band; the source keys it by the string `low_high`. */
  datatype Band = Band(low: real, high: real)

  /** A cut of the combined table: bin edge, band of the small side and
      band of the large side; the source keys it by `pBin_small_large`. */
  datatype Cut2D = Cut2D(pBin: real, small: Band, large: Band)

  /** The bands with lower edge `low`, one per upper edge above it, in
      the order of `highs`. */
  function BandsFrom(low: real, highs: seq<real>): (r: seq<Band>)
    ensures forall b :: b in r <==> b.low == low && b.high in highs && low < b.high
  {
    if |highs| == 0 then []
    else
      var rest := BandsFrom(low, highs[1..]);
      assert forall h :: h in highs <==> h == highs[0] || h in highs[1..];
      if highs[0] <= low then rest else [Band(low, highs[0])] + rest
  }

  /** The bands of the scan, lower edges outermost: every pair of a lower
      and an upper edge with the upper edge strictly above the lower one. */
  function Bands(lows: seq<real>, highs: seq<real>): (r: seq<Band>)
    ensures forall b :: b in r <==> b.low in lows && b.high in highs && b.low < b.high
  {
    if |lows| == 0 then []
    else
      var rest := Bands(lows[1..], highs);
      assert forall l :: l in lows <==> l == lows[0] || l in lows[1..];
      BandsFrom(lows[0], highs) + rest
  }

  /** Distinct edges give distinct bands. */
  lemma {:induction false} BandsDistinct(lows: seq<real>, highs: seq<real>)
    requires Distinct(lows) && Distinct(highs)
    ensures Distinct(Bands(lows, highs))
    decreases |lows|
  {
    if |lows| > 0 {
      var first, rest := BandsFrom(lows[0], highs), Bands(lows[1..], highs);
      BandsFromDistinct(lows[0], highs);
      assert Distinct(lows[1..]) by {
        forall i, j | 0 <= i < j < |lows[1..]| ensures lows[1..][i] != lows[1..][j] {
          assert lows[1..][i] == lows[i + 1] && lows[1..][j] == lows[j + 1];
        }
      }
      BandsDistinct(lows[1..], highs);
      assert lows[0] !in lows[1..] by {
        forall i | 0 <= i < |lows[1..]| ensures lows[1..][i] != lows[0] {
          assert lows[1..][i] == lows[i + 1];
        }
      }
      var r := first + rest;
      forall i, j | 0 <= i < j < |r|
        ensures r[i] != r[j]
      {
        if j < |first| {
        } else if i >= |first| {
          assert r[i] == rest[i - |first|] && r[j] == rest[j - |first|];
        } else {
          assert r[i] in first && r[j] == rest[j - |first|] && r[j] in rest;
        }
      }
    }
  }

  /** The bands from one lower edge are distinct when the upper edges are. */
  lemma {:induction false} BandsFromDistinct(low: real, highs: seq<real>)
    requires Distinct(highs)
    ensures Distinct(BandsFrom(low, highs))
    decreases |highs|
  {
    if |highs| > 0 {
      var rest := BandsFrom(low, highs[1..]);
      assert Distinct(highs[1..]) by {
        forall i, j | 0 <= i < j < |highs[1..]| ensures highs[1..][i] != highs[1..][j] {
          assert highs[1..][i] == highs[i + 1] && highs[1..][j] == highs[j + 1];
        }
      }
      BandsFromDistinct(low, highs[1..]);
      assert highs[0] !in highs[1..] by {
        forall i | 0 <= i < |highs[1..]| ensures highs[1..][i] != highs[0] {
          assert highs[1..][i] == highs[i + 1];
        }
      }
      if highs[0] > low {
        var r := [Band(low, highs[0])] + rest;
        forall i, j | 0 <= i < j < |r|
          ensures r[i] != r[j]
        {
          assert r[j] == rest[j - 1] && r[j] in rest;
          if i > 0 {
            assert r[i] == rest[i - 1];
          }
        }
      }
    }
  }

  /** cos theta lies in the band, both edges included. */
  predicate InBand(cos: real, b: Band) {
    !(cos < b.low || cos > b.high)
  }

  /** The event is fiducial, has a leaf for `v` with non-zero momentum,
      and its cos theta lies in band `b`. */
  function BandPred(v: Var, b: Band): Event -> bool {
    e => Fiducial(e) && v in e.kin && e.kin[v].p != 0.0 && InBand(e.kin[v].cosTheta, b)
  }

  /** `BandPred`, and the momentum is below `pBin` (`small`) or not. */
  function SidePred(v: Var, pBin: real, b: Band, small: bool): Event -> bool {
    e => BandPred(v, b)(e) && (e.kin[v].p < pBin) == small
  }

  /** The events of band `b` of variable `v`. */
  function BandCount(events: seq<Event>, v: Var, b: Band): nat {
    Count(events, BandPred(v, b))
  }

  /** The scan's `smallP[v][pBin][b]`. */
  function SmallCount(events: seq<Event>, v: Var, pBin: real, b: Band): nat {
    Count(events, SidePred(v, pBin, b, true))
  }

  /** The scan's `largeP[v][pBin][b]`. */
  function LargeCount(events: seq<Event>, v: Var, pBin: real, b: Band): nat {
    Count(events, SidePred(v, pBin, b, false))
  }

  /** The combined table's entry: the small side of one band plus the
      large side of the other. */
  function Combined(events: seq<Event>, v: Var, c: Cut2D): nat {
    SmallCount(events, v, c.pBin, c.small) + LargeCount(events, v, c.pBin, c.large)
  }

  /** Unfolding the side condition for one event. */
  lemma SidePredAt(v: Var, pBin: real, b: Band, small: bool, e: Event)
    ensures SidePred(v, pBin, b, small)(e)
         == (Fiducial(e) && v in e.kin && e.kin[v].p != 0.0 && InBand(e.kin[v].cosTheta, b)
             && (e.kin[v].p < pBin) == small)
  {
    assert BandPred(v, b)(e) == (Fiducial(e) && v in e.kin && e.kin[v].p != 0.0 && InBand(e.kin[v].cosTheta, b));
  }

  /** An event adds one to the small side of `(v, pBin, b)` exactly when it
      is fiducial, has non-zero momentum below `pBin` and cos theta in the
      band, and to the large side exactly when the same holds with the
      momentum at or above `pBin`. */
  lemma EventCounts2D(events: seq<Event>, e: Event, v: Var, pBin: real, b: Band)
    ensures SmallCount(events + [e], v, pBin, b)
         == SmallCount(events, v, pBin, b)
            + (if Fiducial(e) && v in e.kin && e.kin[v].p != 0.0
                  && b.low <= e.kin[v].cosTheta <= b.high && e.kin[v].p < pBin then 1 else 0)
    ensures LargeCount(events + [e], v, pBin, b)
         == LargeCount(events, v, pBin, b)
            + (if Fiducial(e) && v in e.kin && e.kin[v].p != 0.0
                  && b.low <= e.kin[v].cosTheta <= b.high && e.kin[v].p >= pBin then 1 else 0)
  {
    CountAppend(events, e, SidePred(v, pBin, b, true));
    CountAppend(events, e, SidePred(v, pBin, b, false));
    SidePredAt(v, pBin, b, true, e);
    SidePredAt(v, pBin, b, false, e);
  }

  /** Every counted event of a band goes to exactly one side: the two
      sides add up to the band count, whatever the bin edge. */
  lemma SidesPartitionBand(events: seq<Event>, v: Var, pBin: real, b: Band)
    ensures SmallCount(events, v, pBin, b) + LargeCount(events, v, pBin, b) == BandCount(events, v, b)
  {
    forall i | 0 <= i < |events|
      ensures !(SidePred(v, pBin, b, true)(events[i]) && SidePred(v, pBin, b, false)(events[i]))
      ensures BandPred(v, b)(events[i]) == (SidePred(v, pBin, b, true)(events[i]) || SidePred(v, pBin, b, false)(events[i]))
    {
    }
    CountPartition(events, SidePred(v, pBin, b, true), SidePred(v, pBin, b, false), BandPred(v, b));
  }

  /** The combined count of any pair of bands is at most the fiducial
      count: an event is on one side of the bin edge only. */
  lemma CombinedBound(events: seq<Event>, v: Var, c: Cut2D)
    ensures Combined(events, v, c) <= FiducialCount(events)
  {
    forall i | 0 <= i < |events|
      ensures !(SidePred(v, c.pBin, c.small, true)(events[i]) && SidePred(v, c.pBin, c.large, false)(events[i]))
      ensures SidePred(v, c.pBin, c.small, true)(events[i]) ==> Fiducial(events[i])
      ensures SidePred(v, c.pBin, c.large, false)(events[i]) ==> Fiducial(events[i])
    {
      SidePredAt(v, c.pBin, c.small, true, events[i]);
      SidePredAt(v, c.pBin, c.large, false, events[i]);
    }
    CountDisjointBound(events, SidePred(v, c.pBin, c.small, true), SidePred(v, c.pBin, c.large, false), Fiducial);
  }

  /** With the same band on both sides, the combined count is the band
      count: the bin edge makes no difference. */
  lemma CombinedDiagonal(events: seq<Event>, v: Var, pBin: real, b: Band)
    ensures Combined(events, v, Cut2D(pBin, b, b)) == BandCount(events, v, b)
  {
    SidesPartitionBand(events, v, pBin, b);
  }

  /** A wider band never has fewer events on either side. */
  lemma BandWiden(events: seq<Event>, v: Var, pBin: real, b: Band, b': Band)
    requires b'.low <= b.low && b.high <= b'.high
    ensures SmallCount(events, v, pBin, b) <= SmallCount(events, v, pBin, b')
    ensures LargeCount(events, v, pBin, b) <= LargeCount(events, v, pBin, b')
  {
    forall i, small: bool | 0 <= i < |events|
      ensures SidePred(v, pBin, b, small)(events[i]) ==> SidePred(v, pBin, b', small)(events[i])
    {
      SidePredAt(v, pBin, b, small, events[i]);
      SidePredAt(v, pBin, b', small, events[i]);
    }
    CountMonotone(events, SidePred(v, pBin, b, true), SidePred(v, pBin, b', true));
    CountMonotone(events, SidePred(v, pBin, b, false), SidePred(v, pBin, b', false));
  }

  /** A higher bin edge moves events from the large side to the small
      side: the small count never falls and the large count never rises. */
  lemma BinEdgeMonotone(events: seq<Event>, v: Var, pBin1: real, pBin2: real, b: Band)
    requires pBin1 <= pBin2
    ensures SmallCount(events, v, pBin1, b) <= SmallCount(events, v, pBin2, b)
    ensures LargeCount(events, v, pBin2, b) <= LargeCount(events, v, pBin1, b)
  {
    forall i | 0 <= i < |events|
      ensures SidePred(v, pBin1, b, true)(events[i]) ==> SidePred(v, pBin2, b, true)(events[i])
      ensures SidePred(v, pBin2, b, false)(events[i]) ==> SidePred(v, pBin1, b, false)(events[i])
    {
      SidePredAt(v, pBin1, b, true, events[i]);
      SidePredAt(v, pBin2, b, true, events[i]);
      SidePredAt(v, pBin1, b, false, events[i]);
      SidePredAt(v, pBin2, b, false, events[i]);
    }
    CountMonotone(events, SidePred(v, pBin1, b, true), SidePred(v, pBin2, b, true));
    CountMonotone(events, SidePred(v, pBin2, b, false), SidePred(v, pBin1, b, false));
  }

  /** The keys of the combined table: every bin edge with every ordered
      pair of bands. */
  function Cuts(pBins: seq<real>, bands: seq<Band>): set<Cut2D> {
    set pb, a, b | pb in pBins && a in bands && b in bands :: Cut2D(pb, a, b)
  }

  /** The combined counts of variable `v`: none exceeds the fiducial
      count, and a cut with the same band on both sides holds that band's
      count. */
  function CombinedRow(events: seq<Event>, v: Var, cuts: set<Cut2D>): (m: map<Cut2D, nat>)
    ensures m.Keys == cuts
    ensures forall c :: c in cuts ==>
              && m[c] <= FiducialCount(events)
              && (c.small == c.large ==> m[c] == BandCount(events, v, c.small))
  {
    assert forall c :: c in cuts ==>
             && Combined(events, v, c) <= FiducialCount(events)
             && (c.small == c.large ==> Combined(events, v, c) == BandCount(events, v, c.small)) by {
      forall c | c in cuts
        ensures Combined(events, v, c) <= FiducialCount(events)
        ensures c.small == c.large ==> Combined(events, v, c) == BandCount(events, v, c.small)
      {
        CombinedBound(events, v, c);
        CombinedDiagonal(events, v, c.pBin, c.small);
      }
    }
    map c | c in cuts :: Combined(events, v, c)
  }

  /** The rates of variable `v`, each combined count over `n`. */
  function CombinedRateRow(events: seq<Event>, v: Var, cuts: set<Cut2D>, n: nat): (m: map<Cut2D, real>)
    requires n > 0
    ensures m.Keys == cuts
  {
    map c | c in cuts :: Rate(Combined(events, v, c), n)
  }

  /** `selectEvents` of the 2-D script on the bin edges `pBins` and the
      bands `bands`. The scan aborts at the first missing leaf of a
      fiducial event; the rates divide by the fiducial count, which aborts
      when it is zero and the table has an entry. */
  function SelectEvents2D(events: seq<Event>, vars: seq<Var>, pBins: seq<real>, bands: seq<Band>)
    : (r: Result<Selection<Cut2D>>)
    requires Distinct(vars) && Distinct(pBins) && Distinct(bands)
    ensures r.Failure? <==>
              || !HasLeaves(events, vars, Fiducial)
              || (FiducialCount(events) == 0 && |vars| > 0 && |pBins| > 0 && |bands| > 0)
    ensures !HasLeaves(events, vars, Fiducial) ==>
              r == Failure(MissingField(FirstMissing(events, vars, Fiducial).value))
    ensures r.Success? ==> r.value.n == |events| && r.value.nFiducial == FiducialCount(events)
    ensures r.Success? ==> WellFormed(r.value, vars, Cuts(pBins, bands))
    ensures r.Success? ==> forall v, c :: v in vars && c in Cuts(pBins, bands) ==>
              r.value.nPassed[v][c] == Combined(events, v, c)
  {
    var missing := FirstMissing(events, vars, Fiducial);
    var n := FiducialCount(events);
    var cuts := Cuts(pBins, bands);
    if missing.Some? then Failure(MissingField(missing.value))
    else if n == 0 && |vars| > 0 && |pBins| > 0 && |bands| > 0 then Failure(ZeroDivision)
    else
      var nPassed := map v | v in vars :: CombinedRow(events, v, cuts);
      var rPassed := if n == 0 then map v | v in vars :: map[] else map v | v in vars :: CombinedRateRow(events, v, cuts, n);
      Tables2DWellFormed(events, vars, pBins, bands, nPassed, rPassed);
      Success(Selection(|events|, n, nPassed, rPassed))
  }

  /** The tables built by `SelectEvents2D` are well formed. */
  lemma Tables2DWellFormed(events: seq<Event>, vars: seq<Var>, pBins: seq<real>, bands: seq<Band>,
                           nPassed: map<Var, map<Cut2D, nat>>, rPassed: map<Var, map<Cut2D, real>>)
    requires FiducialCount(events) == 0 ==> |vars| == 0 || |pBins| == 0 || |bands| == 0
    requires nPassed == map v | v in vars :: CombinedRow(events, v, Cuts(pBins, bands))
    requires rPassed == if FiducialCount(events) == 0 then map v | v in vars :: map[]
                        else map v | v in vars :: CombinedRateRow(events, v, Cuts(pBins, bands), FiducialCount(events))
    ensures WellFormed(Selection(|events|, FiducialCount(events), nPassed, rPassed), vars, Cuts(pBins, bands))
    ensures forall v, c :: v in vars && c in Cuts(pBins, bands) ==> nPassed[v][c] == Combined(events, v, c)
  {
    var n, cuts := FiducialCount(events), Cuts(pBins, bands);
    forall v, c | v in vars && c in cuts
      ensures nPassed[v][c] == Combined(events, v, c) <= n
      ensures n > 0 && rPassed[v][c] == Rate(nPassed[v][c], n)
    {
      CombinedBound(events, v, c);
    }
    forall v | v in vars
      ensures nPassed[v].Keys == cuts && rPassed[v].Keys == cuts
    {
    }
    var sel := Selection(|events|, n, nPassed, rPassed);
    assert sel.nFiducial <= sel.n;
  }

  /** `selectEvents` of the 2-D script: bin edges `linspace(pl, ph, np)`
      and the bands of `linspace(costhll, costhlh, ncosthl)` and
      `linspace(costhhl, costhhh, ncosthh)`. */
  function SelectEventsGrid(events: seq<Event>, vars: seq<Var>, pl: real, ph: real, np: nat,
                            costhll: real, costhlh: real, ncosthl: nat, costhhl: real, costhhh: real, ncosthh: nat)
    : (r: Result<Selection<Cut2D>>)
    requires Distinct(vars)
    requires pl != ph || np <= 1
    requires costhll != costhlh || ncosthl <= 1
    requires costhhl != costhhh || ncosthh <= 1
    ensures r.Failure? <==>
              || !HasLeaves(events, vars, Fiducial)
              || (&& FiducialCount(events) == 0 && |vars| > 0 && np > 0
                  && |Bands(Linspace(costhll, costhlh, ncosthl), Linspace(costhhl, costhhh, ncosthh))| > 0)
    ensures r.Success? ==>
              var cuts := Cuts(Linspace(pl, ph, np), Bands(Linspace(costhll, costhlh, ncosthl), Linspace(costhhl, costhhh, ncosthh)));
              && WellFormed(r.value, vars, cuts)
              && forall v, c :: v in vars && c in cuts ==> r.value.nPassed[v][c] == Combined(events, v, c)
    ensures r.Success? ==> forall v, c :: v in vars && c in r.value.nPassed[v] ==>
              && c.small.low < c.small.high && c.large.low < c.large.high
              && c.pBin in Linspace(pl, ph, np)
    ensures r.Success? ==> r.value.n == |events| && r.value.nFiducial == FiducialCount(events)
  {
    var pBins := Linspace(pl, ph, np);
    var lows, highs := Linspace(costhll, costhlh, ncosthl), Linspace(costhhl, costhhh, ncosthh);
    BandsDistinct(lows, highs);
    SelectEvents2D(events, vars, pBins, Bands(lows, highs))
  }

  /** The optimiser of the 2-D script: the background counts are scaled to
      the target exposure with no extra factor. A recorded cut is a key
      both samples have, and its record is `BestAt` that key: the signal
      rate, the raw background count times exactly 40 / 28.705 and the
      square root of the raw count times the same factor. */
  function Optimize2D(vars: seq<Var>, keys: seq<Cut2D>, sig: Selection<Cut2D>, bkg: Selection<Cut2D>, sqrt: real -> real)
    : (r: Result<map<Var, Best<Cut2D>>>)
    requires KeyOrder(sig, keys)
    ensures r.Success? ==> forall v :: v in r.value ==>
              && v in bkg.nPassed && r.value[v].cut in keys && r.value[v].cut in bkg.nPassed[v]
              && v in sig.rPassed && r.value[v].cut in sig.rPassed[v]
              && r.value[v] == BestAt(r.value[v].cut, sig.rPassed[v], bkg.nPassed[v], ExposureScale(1.0), sqrt)
              && r.value[v].bkg == (bkg.nPassed[v][r.value[v].cut] as real) * (40.0 / 28.705)
  {
    var r := OptimizeSelection(vars, keys, sig, bkg, ExposureScale(1.0), sqrt);
    if r.Success? then
      assert forall v :: v in r.value ==>
               && v in bkg.nPassed && r.value[v].cut in keys && r.value[v].cut in bkg.nPassed[v]
               && v in sig.rPassed && r.value[v].cut in sig.rPassed[v]
               && r.value[v] == BestAt(r.value[v].cut, sig.rPassed[v], bkg.nPassed[v], ExposureScale(1.0), sqrt)
               && r.value[v].bkg == (bkg.nPassed[v][r.value[v].cut] as real) * (40.0 / 28.705) by {
        forall v | v in r.value
          ensures && v in bkg.nPassed && r.value[v].cut in keys && r.value[v].cut in bkg.nPassed[v]
                  && v in sig.rPassed && r.value[v].cut in sig.rPassed[v]
                  && r.value[v] == BestAt(r.value[v].cut, sig.rPassed[v], bkg.nPassed[v], ExposureScale(1.0), sqrt)
                  && r.value[v].bkg == (bkg.nPassed[v][r.value[v].cut] as real) * (40.0 / 28.705)
        {
          RecordedBest(vars, keys, sig, bkg, ExposureScale(1.0), sqrt, v);
          VarBest(keys, sig.rPassed[v], bkg.nPassed[v], ExposureScale(1.0), sqrt);
        }
      }
      r
    else r
  }

  /** One (mass, gamma) step of the script's main loop: nothing for a
      skipped point; otherwise the signal scan on the script's grids and
      the optimiser against the background table `bkg`, stored under
      `atmos` before the loop. `keys` is the order in which the signal
      table iterates its cuts: every cut of the grids, once. The step
      aborts exactly when the signal scan aborts or some cut of some
      variable is missing from the background, is passed by no signal
      event, or makes the square root argument negative. */
  function Step2D(bkg: Selection<Cut2D>, sigEvents: seq<Event>, vars: seq<Var>, mass: nat, gamma: real,
                  keys: seq<Cut2D>, sqrt: real -> real)
    : (r: Result<Option<(Selection<Cut2D>, map<Var, Best<Cut2D>>)>>)
    requires Distinct(vars)
    requires Distinct(keys) && (set k | k in keys) == ScriptCuts()
    ensures Skipped(mass, gamma) <==> r == Success(None)
    ensures r.Failure? <==>
              && !Skipped(mass, gamma)
              && (|| !HasLeaves(sigEvents, vars, Fiducial)
                  || (FiducialCount(sigEvents) == 0 && |vars| > 0)
                  || exists v, i :: v in vars && 0 <= i < |keys| &&
                       !CutUsable(bkg, v, keys[i], Combined(sigEvents, v, keys[i]), FiducialCount(sigEvents), ExposureScale(1.0)))
    ensures !Skipped(mass, gamma) && !HasLeaves(sigEvents, vars, Fiducial) ==> r.Failure? && r.error.MissingField?
    ensures r.Success? && r.value.Some? ==>
              && ScriptSelection(sigEvents, vars) == Success(r.value.value.0)
              && KeyOrder(r.value.value.0, keys)
              && Optimize2D(vars, keys, r.value.value.0, bkg, sqrt) == Success(r.value.value.1)
  {
    if Skipped(mass, gamma) then Success(None)
    else
      ScriptCutsNonEmpty();
      var sig :- ScriptSelection(sigEvents, vars);
      WellFormedKeyOrder(sig, vars, ScriptCuts(), keys);
      SelectionAborts(vars, keys, sig, bkg, ExposureScale(1.0), sqrt);
      SignalCountsInKeyOrder(sigEvents, vars, keys, sig);
      var best :- Optimize2D(vars, keys, sig, bkg, sqrt);
      Success(Some((sig, best)))
  }

  /** The signal table of the script holds, at each cut in `keys`, the
      combined count of that cut. */
  lemma SignalCountsInKeyOrder(sigEvents: seq<Event>, vars: seq<Var>, keys: seq<Cut2D>, sig: Selection<Cut2D>)
    requires Distinct(vars) && (set k | k in keys) == ScriptCuts()
    requires ScriptSelection(sigEvents, vars) == Success(sig)
    ensures forall v, i :: v in vars && 0 <= i < |keys| ==>
              v in sig.nPassed && keys[i] in sig.nPassed[v] && sig.nPassed[v][keys[i]] == Combined(sigEvents, v, keys[i])
  {
    forall v, i | v in vars && 0 <= i < |keys|
      ensures v in sig.nPassed && keys[i] in sig.nPassed[v] && sig.nPassed[v][keys[i]] == Combined(sigEvents, v, keys[i])
    {
      assert keys[i] in (set k | k in keys);
    }
  }

  /** The cut keys on the script's grids. */
  function ScriptCuts(): set<Cut2D> {
    Cuts(Linspace(PLow, PHigh, NP), Bands(Linspace(CosthLowLow, CosthLowHigh, NCosthLow), Linspace(CosthHighLow, CosthHighHigh, NCosthHigh)))
  }

  /** The script's grids give at least one cut: the band from 0.2 to 1 at
      the bin edge 0.1. */
  lemma ScriptCutsNonEmpty()
    ensures Cut2D(PLow, Band(CosthLowLow, CosthHighHigh), Band(CosthLowLow, CosthHighHigh)) in ScriptCuts()
  {
    var lows, highs := Linspace(CosthLowLow, CosthLowHigh, NCosthLow), Linspace(CosthHighLow, CosthHighHigh, NCosthHigh);
    assert lows[0] == CosthLowLow && highs[NCosthHigh - 1] == CosthHighHigh;
    assert Band(CosthLowLow, CosthHighHigh) in Bands(lows, highs);
    assert Linspace(PLow, PHigh, NP)[0] == PLow;
  }

  /** The scan on the script's grids: it aborts exactly on a missing leaf
      of a fiducial event or on a zero fiducial count with a variable, and
      its entries are the combined counts. */
  function ScriptSelection(events: seq<Event>, vars: seq<Var>): (r: Result<Selection<Cut2D>>)
    requires Distinct(vars)
    ensures r.Failure? <==> !HasLeaves(events, vars, Fiducial) || (FiducialCount(events) == 0 && |vars| > 0)
    ensures !HasLeaves(events, vars, Fiducial) ==> r.Failure? && r.error.MissingField?
    ensures r.Success? ==> WellFormed(r.value, vars, ScriptCuts())
    ensures r.Success? ==> forall v, c :: v in vars && c in ScriptCuts() ==> r.value.nPassed[v][c] == Combined(events, v, c)
    ensures r.Success? ==> r.value.n == |events| && r.value.nFiducial == FiducialCount(events)
  {
    ScriptCutsNonEmpty();
    SelectEventsGrid(events, vars, PLow, PHigh, NP, CosthLowLow, CosthLowHigh, NCosthLow, CosthHighLow, CosthHighHigh, NCosthHigh)
  }
}
