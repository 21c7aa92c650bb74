/** plotAngularDist.py: the forward-event count behind the angular
    distribution plots, and its efficiency report.

    For every angular variable an event counts when its cos theta is
    strictly above 0.6: every such signal event counts, a background event
    only when its fiducial flag is exactly 1. Unlike the selection scripts,
    every event reads its leaves and the rate is taken over all entries.
    In the report, the background total and pass counts are divided by
    14.239 while the rates and the signal numbers are written as they are.
 */
module AngularDist {
  import opened Results
  import opened Counting
  import opened Events
  import opened Samples

  /** The forward cut on cos theta. */
  const ForwardCut: real := 0.6

  /** The background's normalisation in the report. */
  const BackgroundNorm: real := 14.239

  /** Every event reads its leaves, fiducial or not. */
  predicate AnyEvent(e: Event) {
    true
  }

  /** The event counts toward `v`: it has the leaf, its cos theta is above
      the cut, and it is a signal event or has fiducial flag 1. */
  function AngularPred(v: Var, isDM: bool): Event -> bool {
    (e: Event) => v in e.kin && e.kin[v].cosTheta > ForwardCut && (isDM || e.isIn10kton == 1)
  }

  /** The reference count of variable `v`. */
  function AngularCount(events: seq<Event>, v: Var, isDM: bool): nat {
    Count(events, AngularPred(v, isDM))
  }

  /** What the scan returns: the number of entries, and per variable the
      pass count and the pass rate. */
  datatype AngularSelection = AngularSelection(n: nat, nPassed: map<Var, nat>, rPassed: map<Var, real>)

  /** The scan of one sample. It aborts at the first leaf it cannot read;
      the rates divide by the number of entries, which aborts for an empty
      sample with at least one variable. */
  function SelectAngular(events: seq<Event>, vars: seq<Var>, isDM: bool): (r: Result<AngularSelection>)
    requires Distinct(vars)
    ensures r.Failure? <==> !HasLeaves(events, vars, AnyEvent) || (|events| == 0 && |vars| > 0)
    ensures !HasLeaves(events, vars, AnyEvent) ==>
              r == Failure(MissingField(FirstMissing(events, vars, AnyEvent).value))
    ensures r.Success? ==> r.value.n == |events|
    ensures r.Success? ==> forall v :: (v in r.value.nPassed <==> v in vars) && (v in r.value.rPassed <==> v in vars)
    ensures r.Success? ==> forall v :: v in vars ==>
              && r.value.nPassed[v] == AngularCount(events, v, isDM) <= |events|
              && |events| > 0
              && r.value.rPassed[v] == Rate(r.value.nPassed[v], |events|)
              && 0.0 <= r.value.rPassed[v] <= 1.0
  {
    var missing := FirstMissing(events, vars, AnyEvent);
    var n := |events|;
    if missing.Some? then Failure(MissingField(missing.value))
    else if n == 0 && |vars| > 0 then Failure(ZeroDivision)
    else
      var nPassed := map v | v in vars :: AngularCount(events, v, isDM);
      var rPassed := if n == 0 then map[] else map v | v in vars :: Rate(AngularCount(events, v, isDM), n);
      Success(AngularSelection(n, nPassed, rPassed))
  }

  /** An event adds one to the count of `v` exactly when it has the leaf,
      its cos theta is strictly above 0.6, and it is a signal event or its
      flag is 1. */
  lemma AngularEventCounts(events: seq<Event>, e: Event, v: Var, isDM: bool)
    ensures AngularCount(events + [e], v, isDM)
         == AngularCount(events, v, isDM)
            + (if v in e.kin && e.kin[v].cosTheta > 0.6 && (isDM || e.isIn10kton == 1) then 1 else 0)
  {
    CountAppend(events, e, AngularPred(v, isDM));
  }

  /** An event exactly at the cut is not counted. */
  lemma AtCutNotCounted(events: seq<Event>, e: Event, v: Var, isDM: bool)
    requires v in e.kin && e.kin[v].cosTheta == 0.6
    ensures AngularCount(events + [e], v, isDM) == AngularCount(events, v, isDM)
  {
    AngularEventCounts(events, e, v, isDM);
  }

  /** The signal count does not look at the fiducial flag: samples that
      differ only in their flags have the same signal counts. */
  lemma {:induction false} SignalIgnoresFlag(events: seq<Event>, events': seq<Event>, v: Var)
    requires |events| == |events'|
    requires forall i :: 0 <= i < |events| ==> events[i].kin == events'[i].kin
    ensures AngularCount(events, v, true) == AngularCount(events', v, true)
    decreases |events|
  {
    if |events| > 0 {
      var k := |events| - 1;
      SignalIgnoresFlag(events[..k], events'[..k], v);
      assert events == events[..k] + [events[k]] && events' == events'[..k] + [events'[k]];
      AngularEventCounts(events[..k], events[k], v, true);
      AngularEventCounts(events'[..k], events'[k], v, true);
    }
  }

  /** The flag is exactly 1. */
  predicate FlaggedOne(e: Event) {
    e.isIn10kton == 1
  }

  /** The background count of a variable is at most the number of events
      flagged 1, and at most the count the same events would give as
      signal. */
  lemma BackgroundBounds(events: seq<Event>, v: Var)
    ensures AngularCount(events, v, false) <= Count(events, FlaggedOne)
    ensures AngularCount(events, v, false) <= AngularCount(events, v, true)
  {
    CountMonotone(events, AngularPred(v, false), FlaggedOne);
    CountMonotone(events, AngularPred(v, false), AngularPred(v, true));
  }

  /** One variable's line of the report: the pass count and the rate. */
  datatype ReportLine = ReportLine(v: Var, passed: real, rate: real)

  /** The report of one sample: the total and one line per variable. */
  datatype Report = Report(sample: SampleKey, total: real, lines: seq<ReportLine>)

  /** The report of `sample`: the background (`atmos`) total and pass
      counts are divided by 14.239; everything else is written unscaled. */
  function MakeReport(sample: SampleKey, sel: AngularSelection, vars: seq<Var>): (r: Report)
    requires forall v :: v in vars ==> v in sel.nPassed && v in sel.rPassed
    ensures r.sample == sample && |r.lines| == |vars|
    ensures sample == Atmos ==> r.total * BackgroundNorm == sel.n as real
    ensures sample != Atmos ==> r.total == sel.n as real
    ensures forall i :: 0 <= i < |vars| ==>
              && r.lines[i].v == vars[i]
              && r.lines[i].rate == sel.rPassed[vars[i]]
              && (sample == Atmos ==> r.lines[i].passed * BackgroundNorm == sel.nPassed[vars[i]] as real)
              && (sample != Atmos ==> r.lines[i].passed == sel.nPassed[vars[i]] as real)
  {
    var scale := if sample == Atmos then BackgroundNorm else 1.0;
    Report(sample, (sel.n as real) / scale,
           seq(|vars|, i requires 0 <= i < |vars| => ReportLine(vars[i], (sel.nPassed[vars[i]] as real) / scale, sel.rPassed[vars[i]])))
  }

  /** Scaling the background keeps the report consistent: for a sample
      whose rates are its counts over its (non-zero) entries, in every line the
      written pass count is the written rate times the written total. */
  lemma ReportConsistent(sample: SampleKey, sel: AngularSelection, vars: seq<Var>)
    requires forall v :: v in vars ==> v in sel.nPassed && v in sel.rPassed
    requires sel.n > 0 && forall v :: v in vars ==> sel.rPassed[v] == Rate(sel.nPassed[v], sel.n)
    ensures var r := MakeReport(sample, sel, vars);
            forall i :: 0 <= i < |vars| ==> r.lines[i].passed == r.lines[i].rate * r.total
  {
    forall i | 0 <= i < |vars|
      ensures MakeReport(sample, sel, vars).lines[i].passed
           == MakeReport(sample, sel, vars).lines[i].rate * MakeReport(sample, sel, vars).total
    {
      LineConsistent(sample, sel, vars, i);
    }
  }

  /** `ReportConsistent` for line `i`. */
  lemma LineConsistent(sample: SampleKey, sel: AngularSelection, vars: seq<Var>, i: nat)
    requires forall v :: v in vars ==> v in sel.nPassed && v in sel.rPassed
    requires i < |vars| && sel.n > 0 && sel.rPassed[vars[i]] == Rate(sel.nPassed[vars[i]], sel.n)
    ensures var r := MakeReport(sample, sel, vars);
            r.lines[i].passed == r.lines[i].rate * r.total
  {
    var r := MakeReport(sample, sel, vars);
    var v := vars[i];
    var s := if sample == Atmos then BackgroundNorm else 1.0;
    assert r.total * s == sel.n as real && r.lines[i].passed * s == sel.nPassed[v] as real;
    ScaledRatio(r.lines[i].rate, sel.n as real, sel.nPassed[v] as real, s, r.total, r.lines[i].passed);
  }

  /** Dividing the total and the count by the same positive `s` keeps
      the count the rate times the total. */
  lemma ScaledRatio(rate: real, n: real, k: real, s: real, total: real, passed: real)
    requires s > 0.0 && rate * n == k
    requires total * s == n && passed * s == k
    ensures passed == rate * total
  {
    assert (passed - rate * total) * s == k - rate * n;
  }
}
