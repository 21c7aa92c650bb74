/** `optimizeSelection` of the three selection scripts.

    For one variable, the optimiser walks the cut keys of the signal table
    in the table's iteration order and evaluates
        Sprime = 25 / (2 eff) + sqrt(25 B / eff^2 + 625 / (4 eff^2))
    where `eff` is the signal pass rate at that cut and `B` the raw
    background count scaled to the target exposure. Starting from the
    sentinel 10000 it keeps a cut whenever Sprime is strictly smaller than
    the best so far, so it returns the first minimum in key order, and
    records nothing when no Sprime gets below the sentinel.

    `sqrt` is a parameter: the lemmas that need it to be the square root
    assume `IsSqrt(sqrt)`; the scan itself is correct for any function.
 */
module Optimizer {
  import opened Results
  import opened Counting
  import opened Events

  /** Sprime must beat this before any cut is recorded. */
  const Sentinel: real := 10000.0

  /** Detector mass-years the background is scaled to, and those the
      simulated background sample corresponds to. */
  const TargetExposure: real := 40.0
  const SimulatedExposure: real := 28.705

  /** Factor from raw background counts to the expected background at the
      target exposure, times the extra scale `bgScale` (1 by default). */
  function ExposureScale(bgScale: real): (s: real)
    ensures s * 28.705 == bgScale * 40.0
    ensures bgScale == 1.0 ==> s == 40.0 / 28.705
  {
    bgScale * TargetExposure / SimulatedExposure
  }

  /** The figure of merit at a cut with signal efficiency `eff` and
      expected background `b`; the division is unguarded in the source. */
  function Sprime(eff: real, b: real, sqrt: real -> real): real
    requires eff != 0.0
  {
    25.0 / (2.0 * eff) + sqrt(SqrtArgument(eff, b))
  }

  /** What Sprime hands to `math.sqrt`, which raises on a negative
      argument. A non-negative background keeps it non-negative, so only a
      negative `bgScale` can make it negative. */
  function SqrtArgument(eff: real, b: real): real
    requires eff != 0.0
  {
    25.0 * b / (eff * eff) + 625.0 / (4.0 * eff * eff)
  }

  /** `sqrt` is the non-negative square root on the non-negative reals. */
  ghost predicate IsSqrt(sqrt: real -> real) {
    forall x :: 0.0 <= x ==> 0.0 <= sqrt(x) && sqrt(x) * sqrt(x) == x
  }

  // ---------------------------------------------------------------------
  // The scan

  /** `costs[i]` is below the sentinel, no cost is smaller, and every
      earlier cost is strictly larger: the cut the scan keeps. */
  ghost predicate IsFirstMin(costs: seq<real>, i: int) {
    && 0 <= i < |costs|
    && costs[i] < Sentinel
    && (forall j :: 0 <= j < |costs| ==> costs[i] <= costs[j])
    && (forall j :: 0 <= j < i ==> costs[i] < costs[j])
  }

  /** What the scan knows after the first `i` costs: with no cut kept
      yet, the minimum is still the sentinel and nothing beat it; with a
      cut kept, the minimum is its cost, which beats the sentinel, no
      cost seen is smaller, and every cost before it is larger. */
  ghost predicate ScanState(costs: seq<real>, i: int, sprimeMin: real, best: Option<nat>) {
    && 0 <= i <= |costs|
    && (best.None? ==> sprimeMin == Sentinel && forall j :: 0 <= j < i ==> costs[j] >= Sentinel)
    && (best.Some? ==>
          && best.value < i
          && sprimeMin == costs[best.value] < Sentinel
          && (forall j :: 0 <= j < i ==> sprimeMin <= costs[j])
          && (forall j :: 0 <= j < best.value ==> sprimeMin < costs[j]))
  }

  /** The loop of the optimiser from position `i` on: keep position `i`
      when its cost is strictly below the minimum so far. */
  function ScanFrom(costs: seq<real>, i: nat, sprimeMin: real, best: Option<nat>): (r: Option<nat>)
    requires ScanState(costs, i, sprimeMin, best)
    ensures r.Some? ==> IsFirstMin(costs, r.value)
    ensures r.None? <==> forall j :: 0 <= j < |costs| ==> costs[j] >= Sentinel
    decreases |costs| - i
  {
    if i == |costs| then best
    else if costs[i] < sprimeMin then ScanFrom(costs, i + 1, costs[i], Some(i))
    else ScanFrom(costs, i + 1, sprimeMin, best)
  }

  /** The position the optimiser keeps, starting from the sentinel. */
  function FirstMin(costs: seq<real>): (r: Option<nat>)
    ensures r.Some? ==> IsFirstMin(costs, r.value)
    ensures r.None? <==> forall j :: 0 <= j < |costs| ==> costs[j] >= Sentinel
  {
    ScanFrom(costs, 0, Sentinel, None)
  }

  /** At most one position is a first minimum, so the kept cut is
      determined by the costs and their order alone. */
  lemma FirstMinUnique(costs: seq<real>, i: int, j: int)
    requires IsFirstMin(costs, i) && IsFirstMin(costs, j)
    ensures i == j
  {
  }

  // ---------------------------------------------------------------------
  // One variable

  /** What is recorded for a variable: the cut, the signal efficiency, the
      expected background and its uncertainty sqrt(raw) * scale. */
  datatype Best<K> = Best(cut: K, eff: real, bkg: real, bkgErr: real)

  /** The signal rate is known for every key, and a key is usable when the
      background table has it, the rate is non-zero and Sprime's square
      root argument, with the background scaled by `scale`, is non-negative. */
  predicate Usable<K>(k: K, sigRate: map<K, real>, bkgPassed: map<K, nat>, scale: real)
    requires k in sigRate
  {
    k in bkgPassed && sigRate[k] != 0.0 && SqrtArgument(sigRate[k], (bkgPassed[k] as real) * scale) >= 0.0
  }

  /** The error the loop hits at key `k` when `k` is not usable: the
      background lookup comes before the division by the efficiency, and
      that division before the square root. */
  function AbortAt<K>(k: K, sigRate: map<K, real>, bkgPassed: map<K, nat>): Error
    requires k in sigRate
  {
    if k !in bkgPassed then MissingKey
    else if sigRate[k] == 0.0 then ZeroDivision
    else DomainError
  }

  /** The abort the loop hits at the first unusable key. */
  function FirstAbort<K>(keys: seq<K>, sigRate: map<K, real>, bkgPassed: map<K, nat>, scale: real): (r: Option<Error>)
    requires forall i :: 0 <= i < |keys| ==> keys[i] in sigRate
    ensures r.None? <==> forall i :: 0 <= i < |keys| ==> Usable(keys[i], sigRate, bkgPassed, scale)
    ensures r.Some? ==> exists i :: (
              && 0 <= i < |keys| && !Usable(keys[i], sigRate, bkgPassed, scale)
              && (forall j :: 0 <= j < i ==> Usable(keys[j], sigRate, bkgPassed, scale))
              && r.value == AbortAt(keys[i], sigRate, bkgPassed))
  {
    if |keys| == 0 then None
    else if keys[0] !in bkgPassed then Some(MissingKey)
    else if sigRate[keys[0]] == 0.0 then Some(ZeroDivision)
    else if SqrtArgument(sigRate[keys[0]], (bkgPassed[keys[0]] as real) * scale) < 0.0 then Some(DomainError)
    else
      var r := FirstAbort(keys[1..], sigRate, bkgPassed, scale);
      assert forall i :: 1 <= i < |keys| ==> keys[1..][i - 1] == keys[i];
      if r.Some? then
        var i' :| 0 <= i' < |keys| - 1 && !Usable(keys[1..][i'], sigRate, bkgPassed, scale)
                  && (forall j :: 0 <= j < i' ==> Usable(keys[1..][j], sigRate, bkgPassed, scale))
                  && r.value == AbortAt(keys[1..][i'], sigRate, bkgPassed);
        assert forall j :: 0 <= j < i' + 1 ==> Usable(keys[j], sigRate, bkgPassed, scale) by {
          forall j | 0 <= j < i' + 1
            ensures Usable(keys[j], sigRate, bkgPassed, scale)
          {
            if j > 0 {
              assert keys[j] == keys[1..][j - 1];
            }
          }
        }
        r
      else r
  }

  /** Sprime at every key, in key order, with the background scaled by `scale`. */
  function Costs<K>(keys: seq<K>, sigRate: map<K, real>, bkgPassed: map<K, nat>, scale: real, sqrt: real -> real)
    : (costs: seq<real>)
    requires forall i :: 0 <= i < |keys| ==> keys[i] in sigRate && Usable(keys[i], sigRate, bkgPassed, scale)
    ensures |costs| == |keys|
  {
    seq(|keys|, i requires 0 <= i < |keys| && keys[i] in sigRate && Usable(keys[i], sigRate, bkgPassed, scale) =>
      SprimeAt(keys[i], sigRate, bkgPassed, scale, sqrt))
  }

  /** Sprime at key `k`, with the background count scaled by `scale`. */
  function SprimeAt<K>(k: K, sigRate: map<K, real>, bkgPassed: map<K, nat>, scale: real, sqrt: real -> real): real
    requires k in sigRate && k in bkgPassed && sigRate[k] != 0.0
  {
    Sprime(sigRate[k], (bkgPassed[k] as real) * scale, sqrt)
  }

  /** The record for key `k`. */
  function BestAt<K>(k: K, sigRate: map<K, real>, bkgPassed: map<K, nat>, scale: real, sqrt: real -> real): Best<K>
    requires k in sigRate && k in bkgPassed
  {
    Best(k, sigRate[k], (bkgPassed[k] as real) * scale, sqrt(bkgPassed[k] as real) * scale)
  }

  /** The optimiser for one variable. `keys` is the iteration order of the
      signal table, `sigRate` its pass rates and `bkgPassed` the raw
      background counts. It aborts at an unusable key; otherwise it records
      the first key of minimal Sprime below the sentinel, or nothing. */
  function OptimizeVar<K>(keys: seq<K>, sigRate: map<K, real>, bkgPassed: map<K, nat>, scale: real, sqrt: real -> real)
    : (r: Result<Option<Best<K>>>)
    requires forall i :: 0 <= i < |keys| ==> keys[i] in sigRate
    ensures r.Failure? <==> exists i :: 0 <= i < |keys| && !Usable(keys[i], sigRate, bkgPassed, scale)
    ensures r.Success? ==>
              (r.value.None? <==> forall j :: 0 <= j < |keys| ==> Costs(keys, sigRate, bkgPassed, scale, sqrt)[j] >= Sentinel)
    ensures r.Success? && r.value.Some? ==>
              exists i :: IsFirstMin(Costs(keys, sigRate, bkgPassed, scale, sqrt), i)
                && r.value.value == BestAt(keys[i], sigRate, bkgPassed, scale, sqrt)
  {
    match FirstAbort(keys, sigRate, bkgPassed, scale)
    case Some(e) => Failure(e)
    case None =>
      var costs := Costs(keys, sigRate, bkgPassed, scale, sqrt);
      match FirstMin(costs)
      case None => Success(None)
      case Some(i) => Success(Some(BestAt(keys[i], sigRate, bkgPassed, scale, sqrt)))
  }

  // ---------------------------------------------------------------------
  // All variables

  /** `keys` is the iteration order of the signal sample's tables: every
      key appears once, and every rate table has exactly these keys. */
  predicate KeyOrder<K>(sig: Selection<K>, keys: seq<K>) {
    && Distinct(keys)
    && forall v :: v in sig.rPassed ==> sig.rPassed[v].Keys == (set k | k in keys)
  }

  /** Every position of a key order is a key of every rate table. */
  lemma KeyOrderCovers<K>(sig: Selection<K>, keys: seq<K>, v: Var)
    requires KeyOrder(sig, keys) && v in sig.rPassed
    ensures forall i :: 0 <= i < |keys| ==> keys[i] in sig.rPassed[v]
  {
    forall i | 0 <= i < |keys|
      ensures keys[i] in sig.rPassed[v]
    {
      assert keys[i] in (set k | k in keys);
    }
  }

  /** Any order of the cuts of a well-formed table is a key order of it. */
  lemma WellFormedKeyOrder<K>(sig: Selection<K>, vars: seq<Var>, cuts: set<K>, keys: seq<K>)
    requires WellFormed(sig, vars, cuts)
    requires Distinct(keys) && (set k | k in keys) == cuts
    ensures KeyOrder(sig, keys)
  {
    forall v | v in sig.rPassed
      ensures sig.rPassed[v].Keys == (set k | k in keys)
    {
      assert v in vars;
    }
  }

  /** The background table of `v`; a variable the background sample lacks
      behaves as an empty table, so its first key lookup aborts. */
  function BkgTable<K>(bkg: Selection<K>, v: Var): map<K, nat> {
    if v in bkg.nPassed then bkg.nPassed[v] else map[]
  }

  /** The optimiser run for variable `v`: the signal table lookup aborts
      when the signal sample lacks `v`. */
  function OptimizeVarOf<K>(v: Var, keys: seq<K>, sig: Selection<K>, bkg: Selection<K>, scale: real, sqrt: real -> real)
    : Result<Option<Best<K>>>
    requires KeyOrder(sig, keys)
  {
    if v !in sig.rPassed then Failure(MissingKey)
    else
      KeyOrderCovers(sig, keys, v);
      OptimizeVar(keys, sig.rPassed[v], BkgTable(bkg, v), scale, sqrt)
  }

  /** `optimizeSelection`: every variable in turn; the run aborts when one
      variable's scan aborts, and a variable gets an entry exactly when its
      scan records a cut. */
  function OptimizeSelection<K>(vars: seq<Var>, keys: seq<K>, sig: Selection<K>, bkg: Selection<K>, scale: real, sqrt: real -> real)
    : (r: Result<map<Var, Best<K>>>)
    requires KeyOrder(sig, keys)
    ensures r.Failure? <==> exists v :: v in vars && OptimizeVarOf(v, keys, sig, bkg, scale, sqrt).Failure?
    ensures r.Success? ==> forall v :: v in r.value ==> v in vars
    ensures r.Success? ==> forall v :: v in vars ==>
              var o := OptimizeVarOf(v, keys, sig, bkg, scale, sqrt);
              && o.Success?
              && (v in r.value <==> o.value.Some?)
              && (v in r.value ==> r.value[v] == o.value.value)
  {
    if |vars| == 0 then Success(map[])
    else
      match OptimizeVarOf(vars[0], keys, sig, bkg, scale, sqrt)
      case Failure(e) => Failure(e)
      case Success(o) =>
        match OptimizeSelection(vars[1..], keys, sig, bkg, scale, sqrt)
        case Failure(e) =>
          TailFailure(vars, keys, sig, bkg, scale, sqrt);
          Failure(e)
        case Success(m) =>
          HeadOrTail(vars);
          Success(if o.Some? then m[vars[0] := o.value] else m)
  }

  /** A variable of `vars` is its head or in its tail. */
  lemma HeadOrTail(vars: seq<Var>)
    requires |vars| > 0
    ensures forall v :: v in vars <==> v == vars[0] || v in vars[1..]
  {
    assert vars == [vars[0]] + vars[1..];
  }

  /** A variable of the tail whose run aborts is a variable of `vars` whose run aborts. */
  lemma TailFailure<K>(vars: seq<Var>, keys: seq<K>, sig: Selection<K>, bkg: Selection<K>, scale: real, sqrt: real -> real)
    requires |vars| > 0 && KeyOrder(sig, keys)
    requires exists v :: v in vars[1..] && OptimizeVarOf(v, keys, sig, bkg, scale, sqrt).Failure?
    ensures exists v :: v in vars && OptimizeVarOf(v, keys, sig, bkg, scale, sqrt).Failure?
  {
    var v :| v in vars[1..] && OptimizeVarOf(v, keys, sig, bkg, scale, sqrt).Failure?;
    HeadOrTail(vars);
  }

  /** A recorded cut of one variable is one of the keys, and the record is
      the `BestAt` record of that key: the signal rate, the scaled raw
      background count and its scaled square root. */
  lemma VarBest<K>(keys: seq<K>, sigRate: map<K, real>, bkgPassed: map<K, nat>, scale: real, sqrt: real -> real)
    requires forall i :: 0 <= i < |keys| ==> keys[i] in sigRate
    requires OptimizeVar(keys, sigRate, bkgPassed, scale, sqrt).Success?
    requires OptimizeVar(keys, sigRate, bkgPassed, scale, sqrt).value.Some?
    ensures var b := OptimizeVar(keys, sigRate, bkgPassed, scale, sqrt).value.value;
      && b.cut in keys && b.cut in bkgPassed
      && b == BestAt(b.cut, sigRate, bkgPassed, scale, sqrt)
  {
    assert FirstAbort(keys, sigRate, bkgPassed, scale).None?;
    var i := FirstMin(Costs(keys, sigRate, bkgPassed, scale, sqrt)).value;
    assert Usable(keys[i], sigRate, bkgPassed, scale);
  }

  /** The recorded cut of one variable has a Sprime below the sentinel and
      the smallest Sprime of all keys, and every key scanned before it has
      a strictly larger one. */
  lemma VarBestOptimal<K>(keys: seq<K>, sigRate: map<K, real>, bkgPassed: map<K, nat>, scale: real, sqrt: real -> real)
    requires forall i :: 0 <= i < |keys| ==> keys[i] in sigRate
    requires OptimizeVar(keys, sigRate, bkgPassed, scale, sqrt).Success?
    requires OptimizeVar(keys, sigRate, bkgPassed, scale, sqrt).value.Some?
    ensures forall k :: k in keys ==> Usable(k, sigRate, bkgPassed, scale)
    ensures var c := OptimizeVar(keys, sigRate, bkgPassed, scale, sqrt).value.value.cut;
      && c in sigRate && Usable(c, sigRate, bkgPassed, scale)
      && SprimeAt(c, sigRate, bkgPassed, scale, sqrt) < Sentinel
      && (forall k :: k in keys ==> SprimeAt(c, sigRate, bkgPassed, scale, sqrt) <= SprimeAt(k, sigRate, bkgPassed, scale, sqrt))
      && exists i :: 0 <= i < |keys| && keys[i] == c &&
           forall j :: 0 <= j < i ==> SprimeAt(c, sigRate, bkgPassed, scale, sqrt) < SprimeAt(keys[j], sigRate, bkgPassed, scale, sqrt)
  {
    assert FirstAbort(keys, sigRate, bkgPassed, scale).None?;
    var costs := Costs(keys, sigRate, bkgPassed, scale, sqrt);
    var i := FirstMin(costs).value;
    assert IsFirstMin(costs, i);
    forall k | k in keys
      ensures Usable(k, sigRate, bkgPassed, scale) && costs[i] <= SprimeAt(k, sigRate, bkgPassed, scale, sqrt)
    {
      var j :| 0 <= j < |keys| && keys[j] == k;
      assert costs[j] == SprimeAt(k, sigRate, bkgPassed, scale, sqrt);
    }
  }

  /** The record kept for variable `v` by `OptimizeSelection` is the
      record of `VarBest` for the signal rates and the background counts of
      `v`, both of which the samples must have. */
  lemma RecordedBest<K>(vars: seq<Var>, keys: seq<K>, sig: Selection<K>, bkg: Selection<K>, scale: real, sqrt: real -> real, v: Var)
    requires KeyOrder(sig, keys)
    requires OptimizeSelection(vars, keys, sig, bkg, scale, sqrt).Success?
    requires v in OptimizeSelection(vars, keys, sig, bkg, scale, sqrt).value
    ensures v in vars && v in sig.rPassed && v in bkg.nPassed
    ensures OptimizeVar(keys, sig.rPassed[v], bkg.nPassed[v], scale, sqrt).Success?
    ensures OptimizeVar(keys, sig.rPassed[v], bkg.nPassed[v], scale, sqrt).value
         == Some(OptimizeSelection(vars, keys, sig, bkg, scale, sqrt).value[v])
  {
    var o := OptimizeVarOf(v, keys, sig, bkg, scale, sqrt);
    assert v in vars && o.Success? && o.value.Some?;
    assert v in sig.rPassed;
    KeyOrderCovers(sig, keys, v);
    var sRate, bTab := sig.rPassed[v], BkgTable(bkg, v);
    VarBest(keys, sRate, bTab, scale, sqrt);
    assert v in bkg.nPassed;
  }

  /** When `keys` lists exactly the cuts of the signal table, the
      recorded cut has the smallest Sprime of every cut of that table. */
  lemma VarBestOverTable<K>(keys: seq<K>, sigRate: map<K, real>, bkgPassed: map<K, nat>, scale: real, sqrt: real -> real)
    requires (set k | k in keys) == sigRate.Keys
    requires forall i :: 0 <= i < |keys| ==> keys[i] in sigRate
    requires OptimizeVar(keys, sigRate, bkgPassed, scale, sqrt).Success?
    requires OptimizeVar(keys, sigRate, bkgPassed, scale, sqrt).value.Some?
    ensures forall k :: k in sigRate ==> Usable(k, sigRate, bkgPassed, scale)
    ensures var c := OptimizeVar(keys, sigRate, bkgPassed, scale, sqrt).value.value.cut;
      && c in sigRate && Usable(c, sigRate, bkgPassed, scale)
      && forall k :: k in sigRate && Usable(k, sigRate, bkgPassed, scale) ==>
           SprimeAt(c, sigRate, bkgPassed, scale, sqrt) <= SprimeAt(k, sigRate, bkgPassed, scale, sqrt)
  {
    VarBestOptimal(keys, sigRate, bkgPassed, scale, sqrt);
    forall k | k in sigRate
      ensures k in keys
    {
      assert k in (set k | k in keys);
    }
  }

  /** When `keys` lists exactly the cuts of the signal table, one
      variable's optimisation aborts exactly when some cut of the table
      has no background entry, a zero signal rate or a negative square
      root argument. */
  lemma VarAbortsOverTable<K>(keys: seq<K>, sigRate: map<K, real>, bkgPassed: map<K, nat>, scale: real, sqrt: real -> real)
    requires (set k | k in keys) == sigRate.Keys
    requires forall i :: 0 <= i < |keys| ==> keys[i] in sigRate
    ensures OptimizeVar(keys, sigRate, bkgPassed, scale, sqrt).Failure?
        <==> exists k :: k in sigRate && !Usable(k, sigRate, bkgPassed, scale)
  {
    if k :| k in sigRate && !Usable(k, sigRate, bkgPassed, scale) {
      assert k in (set k | k in keys);
      var i :| 0 <= i < |keys| && keys[i] == k;
      assert !Usable(keys[i], sigRate, bkgPassed, scale);
    }
  }

  /** The optimiser can evaluate cut `k` of variable `v` whose signal count
      is `passed` out of `n`: the background has the variable and the cut,
      the signal count is non-zero, and the square root argument of
      Sprime at that cut, with the background count scaled by `scale`, is
      non-negative. */
  predicate CutUsable<K>(bkg: Selection<K>, v: Var, k: K, passed: nat, n: nat, scale: real) {
    && v in bkg.nPassed && k in bkg.nPassed[v] && passed != 0 && n != 0
    && SqrtArgument(Rate(passed, n), (bkg.nPassed[v][k] as real) * scale) >= 0.0
  }

  /** For a well-formed signal table in key order, the optimiser aborts
      exactly when some variable has a cut that `CutUsable` rejects: one
      the background lacks, one no signal event passes, or one whose
      square root argument is negative. */
  lemma SelectionAborts<K>(vars: seq<Var>, keys: seq<K>, sig: Selection<K>, bkg: Selection<K>, scale: real, sqrt: real -> real)
    requires WellFormed(sig, vars, set k | k in keys)
    requires KeyOrder(sig, keys)
    ensures OptimizeSelection(vars, keys, sig, bkg, scale, sqrt).Failure?
        <==> exists v, i :: v in vars && 0 <= i < |keys| && !CutUsable(bkg, v, keys[i], sig.nPassed[v][keys[i]], sig.nFiducial, scale)
  {
    forall v | v in vars
      ensures OptimizeVarOf(v, keys, sig, bkg, scale, sqrt).Failure?
          <==> exists i :: 0 <= i < |keys| && !CutUsable(bkg, v, keys[i], sig.nPassed[v][keys[i]], sig.nFiducial, scale)
    {
      VarAborts(v, vars, keys, sig, bkg, scale, sqrt);
    }
  }

  /** `SelectionAborts` for the single variable `v`. */
  lemma VarAborts<K>(v: Var, vars: seq<Var>, keys: seq<K>, sig: Selection<K>, bkg: Selection<K>, scale: real, sqrt: real -> real)
    requires WellFormed(sig, vars, set k | k in keys)
    requires KeyOrder(sig, keys) && v in vars
    ensures OptimizeVarOf(v, keys, sig, bkg, scale, sqrt).Failure?
        <==> exists i :: 0 <= i < |keys| && !CutUsable(bkg, v, keys[i], sig.nPassed[v][keys[i]], sig.nFiducial, scale)
  {
    KeyOrderCovers(sig, keys, v);
    forall i | 0 <= i < |keys|
      ensures Usable(keys[i], sig.rPassed[v], BkgTable(bkg, v), scale) == CutUsable(bkg, v, keys[i], sig.nPassed[v][keys[i]], sig.nFiducial, scale)
    {
      assert keys[i] in (set k | k in keys);
      UsableAt(keys[i], v, sig, bkg, scale);
    }
  }

  /** At one cut of a table whose rate is its count over a non-zero
      fiducial count, `Usable` of the rate is `CutUsable` of the count. */
  lemma UsableAt<K>(k: K, v: Var, sig: Selection<K>, bkg: Selection<K>, scale: real)
    requires v in sig.rPassed && v in sig.nPassed && k in sig.rPassed[v] && k in sig.nPassed[v]
    requires sig.nFiducial > 0 && sig.rPassed[v][k] == Rate(sig.nPassed[v][k], sig.nFiducial)
    ensures Usable(k, sig.rPassed[v], BkgTable(bkg, v), scale) == CutUsable(bkg, v, k, sig.nPassed[v][k], sig.nFiducial, scale)
  {
    RateZero(sig.nPassed[v][k], sig.nFiducial);
  }

  /** A rate is zero exactly when its count is. */
  lemma RateZero(k: nat, n: nat)
    requires n > 0
    ensures Rate(k, n) == 0.0 <==> k == 0
  {
    assert Rate(k, n) * (n as real) == k as real;
  }

  // ---------------------------------------------------------------------
  // The figure of merit

  /** The non-negative square root is unique. */
  lemma SqrtUnique(sqrt: real -> real, x: real, y: real)
    requires IsSqrt(sqrt)
    requires 0.0 <= y && y * y == x
    ensures sqrt(x) == y
  {
    var a := sqrt(x);
    assert 0.0 <= a && a * a == x;
    assert (a - y) * (a + y) == 0.0;
    if a + y == 0.0 {
      assert a == 0.0 && y == 0.0;
    }
  }

  /** The square root is monotone. */
  lemma SqrtMonotone(sqrt: real -> real, x: real, y: real)
    requires IsSqrt(sqrt)
    requires 0.0 <= x <= y
    ensures sqrt(x) <= sqrt(y)
  {
    var a, b := sqrt(x), sqrt(y);
    assert 0.0 <= a && a * a == x && 0.0 <= b && b * b == y;
    assert (b - a) * (a + b) == y - x;
    if a + b > 0.0 {
      var d := a + b;
      var q := (y - x) / d;
      assert q * d == y - x;
      assert q >= 0.0;
      assert (b - a - q) * d == 0.0;
      assert b - a == q;
    }
  }

  /** For a positive efficiency and a non-negative background the square
      root argument of Sprime is positive, so `math.sqrt` never raises. */
  lemma SqrtArgumentPositive(eff: real, b: real)
    requires eff > 0.0 && b >= 0.0
    ensures SqrtArgument(eff, b) > 0.0
  {
    assert SqrtArgument(eff, b) == 25.0 * (4.0 * b + 25.0) / (4.0 * eff * eff);
    var q := 1.0 / (2.0 * eff);
    assert SqrtArgument(eff, b) == 25.0 * (4.0 * b + 25.0) * (q * q);
    assert q * q > 0.0;
  }

  /** With a non-negative scale the square root never aborts a run: a key
      with a non-negative rate is usable exactly when the background has it
      and the rate is non-zero. */
  lemma NonNegativeScaleUsable<K>(k: K, sigRate: map<K, real>, bkgPassed: map<K, nat>, scale: real)
    requires k in sigRate && sigRate[k] >= 0.0 && scale >= 0.0
    ensures Usable(k, sigRate, bkgPassed, scale) <==> k in bkgPassed && sigRate[k] != 0.0
  {
    if k in bkgPassed && sigRate[k] != 0.0 {
      SqrtArgumentPositive(sigRate[k], (bkgPassed[k] as real) * scale);
    }
  }

  /** A negative scale can reach `math.sqrt` with a negative argument: one
      key with signal rate 1 and 7 background events, scaled by -1, gives
      25 * (-7) + 625 / 4 < 0 and aborts with `DomainError`. */
  lemma NegativeScaleAborts(sqrt: real -> real)
    ensures OptimizeVar([0], map[0 := 1.0], map[0 := 7], -1.0, sqrt) == Failure(DomainError)
  {
    assert SqrtArgument(1.0, (7 as real) * -1.0) < 0.0;
  }

  /** For a positive efficiency and a non-negative background, Sprime is
      (25 + 5 sqrt(4 B + 25)) / (2 eff). */
  lemma SprimeClosedForm(sqrt: real -> real, eff: real, b: real)
    requires IsSqrt(sqrt)
    requires eff > 0.0 && b >= 0.0
    ensures Sprime(eff, b, sqrt) == (25.0 + 5.0 * sqrt(4.0 * b + 25.0)) / (2.0 * eff)
  {
    var s := sqrt(4.0 * b + 25.0);
    assert 0.0 <= s && s * s == 4.0 * b + 25.0;
    var y := 5.0 * s / (2.0 * eff);
    var x := 25.0 * b / (eff * eff) + 625.0 / (4.0 * eff * eff);
    assert y >= 0.0;
    assert x == 25.0 * (4.0 * b + 25.0) / (4.0 * eff * eff);
    assert y * y == 25.0 * (s * s) / (4.0 * eff * eff);
    SqrtUnique(sqrt, x, y);
    assert 25.0 / (2.0 * eff) + y == (25.0 + 5.0 * s) / (2.0 * eff);
  }

  /** A cut at least as efficient with no more background never has a
      larger Sprime. */
  lemma SprimeDominance(sqrt: real -> real, eff1: real, b1: real, eff2: real, b2: real)
    requires IsSqrt(sqrt)
    requires 0.0 < eff1 <= eff2
    requires 0.0 <= b2 <= b1
    ensures Sprime(eff2, b2, sqrt) <= Sprime(eff1, b1, sqrt)
  {
    SprimeClosedForm(sqrt, eff1, b1);
    SprimeClosedForm(sqrt, eff2, b2);
    SqrtMonotone(sqrt, 4.0 * b2 + 25.0, 4.0 * b1 + 25.0);
    var n1 := 25.0 + 5.0 * sqrt(4.0 * b1 + 25.0);
    var n2 := 25.0 + 5.0 * sqrt(4.0 * b2 + 25.0);
    assert 0.0 < n2 <= n1;
    DivMonotone(n2, n1, 2.0 * eff2);
    DivAntitone(n1, 2.0 * eff1, 2.0 * eff2);
  }

  /** Dividing by a positive number keeps the order. */
  lemma DivMonotone(a: real, b: real, d: real)
    requires a <= b && d > 0.0
    ensures a / d <= b / d
  {
    assert (b / d - a / d) * d == b - a;
  }

  /** A non-negative number divided by a larger divisor is no larger. */
  lemma DivAntitone(n: real, d1: real, d2: real)
    requires n >= 0.0 && 0.0 < d1 <= d2
    ensures n / d2 <= n / d1
  {
    var q1, q2 := n / d1, n / d2;
    assert q1 * d1 == n && q2 * d2 == n;
    assert q2 >= 0.0;
    assert q2 * (d2 - d1) >= 0.0;
    assert (q1 - q2) * d1 >= 0.0;
  }

  /** Sprime is at least 25 / eff, so a cut whose efficiency is below
      25 / 10000 never beats the sentinel and is never recorded. */
  lemma SprimeLowerBound(sqrt: real -> real, eff: real, b: real)
    requires IsSqrt(sqrt)
    requires eff > 0.0 && b >= 0.0
    ensures Sprime(eff, b, sqrt) >= 25.0 / eff
    ensures eff < 25.0 / Sentinel ==> Sprime(eff, b, sqrt) > Sentinel
  {
    SprimeClosedForm(sqrt, eff, b);
    SqrtUnique(sqrt, 25.0, 5.0);
    SqrtMonotone(sqrt, 25.0, 4.0 * b + 25.0);
    var n := 25.0 + 5.0 * sqrt(4.0 * b + 25.0);
    assert n >= 50.0;
    var d := 2.0 * eff;
    assert n / d - 50.0 / d == (n - 50.0) / d;
    assert 50.0 / d == 25.0 / eff;
    if eff < 25.0 / Sentinel {
      assert eff * Sentinel < 25.0;
      assert 25.0 / eff > Sentinel;
    }
  }
}
