/** The `selectEvents` routine shared by the one-sided and the linear
    selection scripts (optSelection1D.py, optSelection1DLinear.py).

    Both scripts run the same loop: skip non-fiducial events, count the
    fiducial ones, and for every variable and every cut of the grid add one
    when the event passes. They differ only in the pass condition, which is
    a `Rule` here. The rates are pass counts over the fiducial count.
 */
module CutScan {
  import opened Results
  import opened Counting
  import opened Events

  /** Does a variable's (momentum, cos theta) pass the cut value `c`? */
  type Rule = (Kin, real) -> bool

  /** The event is fiducial, has a leaf for `v`, and that leaf passes `c`. */
  function PassPred(v: Var, c: real, rule: Rule): Event -> bool {
    e => Fiducial(e) && v in e.kin && rule(e.kin[v], c)
  }

  /** The reference count for the table entry of `v` at cut `c`. */
  function PassCount(events: seq<Event>, v: Var, c: real, rule: Rule): (n: nat)
    ensures n <= FiducialCount(events)
  {
    CountMonotone(events, PassPred(v, c, rule), Fiducial);
    Count(events, PassPred(v, c, rule))
  }

  /** A non-fiducial event adds to neither the fiducial count nor any pass count. */
  lemma NonFiducialSkipped(events: seq<Event>, e: Event, v: Var, c: real, rule: Rule)
    requires !Fiducial(e)
    ensures FiducialCount(events + [e]) == FiducialCount(events)
    ensures PassCount(events + [e], v, c, rule) == PassCount(events, v, c, rule)
  {
    CountAppend(events, e, Fiducial);
    CountAppend(events, e, PassPred(v, c, rule));
  }

  /** Dropping every non-fiducial event beforehand changes no count: the
      fiducial events alone determine the table. */
  lemma OnlyFiducialMatter(events: seq<Event>, v: Var, c: real, rule: Rule)
    ensures PassCount(Filter(events, Fiducial), v, c, rule) == PassCount(events, v, c, rule)
    ensures FiducialCount(Filter(events, Fiducial)) == |Filter(events, Fiducial)| == FiducialCount(events)
  {
    CountFilter(events, Fiducial, PassPred(v, c, rule));
    CountFilter(events, Fiducial, Fiducial);
  }

  /** Counters for one variable of one event: the entry of every cut the
      leaf passes goes up by one, the others stay. */
  method AddToRow(row: seq<nat>, k: Kin, cuts: seq<real>, rule: Rule) returns (row': seq<nat>)
    requires |row| == |cuts|
    ensures |row'| == |cuts|
    ensures forall b :: 0 <= b < |cuts| ==> row'[b] == row[b] + (if rule(k, cuts[b]) then 1 else 0)
  {
    row' := row;
    var b := 0;
    while b < |cuts|
      invariant 0 <= b <= |cuts|
      invariant |row'| == |cuts|
      invariant forall j :: 0 <= j < b ==> row'[j] == row[j] + (if rule(k, cuts[j]) then 1 else 0)
      invariant forall j :: b <= j < |cuts| ==> row'[j] == row[j]
    {
      if rule(k, cuts[b]) {
        row' := row'[b := row'[b] + 1];
      }
      b := b + 1;
    }
  }

  /** Counters for every variable of one fiducial event whose leaves are all present. */
  method AddEvent(counts: seq<seq<nat>>, e: Event, vars: seq<Var>, cuts: seq<real>, rule: Rule)
    returns (counts': seq<seq<nat>>)
    requires |counts| == |vars|
    requires forall a :: 0 <= a < |vars| ==> |counts[a]| == |cuts|
    requires forall v :: v in vars ==> v in e.kin
    ensures |counts'| == |vars|
    ensures forall a :: 0 <= a < |vars| ==> |counts'[a]| == |cuts|
    ensures forall a, b :: 0 <= a < |vars| && 0 <= b < |cuts| ==>
              counts'[a][b] == counts[a][b] + (if rule(e.kin[vars[a]], cuts[b]) then 1 else 0)
  {
    counts' := counts;
    var a := 0;
    while a < |vars|
      invariant 0 <= a <= |vars|
      invariant |counts'| == |vars|
      invariant forall j :: 0 <= j < |vars| ==> |counts'[j]| == |cuts|
      invariant forall j, b :: 0 <= j < a && 0 <= b < |cuts| ==>
                  counts'[j][b] == counts[j][b] + (if rule(e.kin[vars[j]], cuts[b]) then 1 else 0)
      invariant forall j :: a <= j < |vars| ==> counts'[j] == counts[j]
    {
      var row := AddToRow(counts'[a], e.kin[vars[a]], cuts, rule);
      counts' := counts'[a := row];
      a := a + 1;
    }
  }

  /** The event loop of `selectEvents`: it aborts on the first leaf it
      cannot read, and otherwise returns the fiducial count and, for every
      variable `vars[a]` and cut `cuts[b]`, the count at `[a][b]`. */
  method CountEvents(events: seq<Event>, vars: seq<Var>, cuts: seq<real>, rule: Rule)
    returns (r: Result<(nat, seq<seq<nat>>)>)
    ensures r.Failure? <==> FirstMissing(events, vars, Fiducial).Some?
    ensures r.Failure? ==> r.error == MissingField(FirstMissing(events, vars, Fiducial).value)
    ensures r.Success? ==> r.value.0 == FiducialCount(events)
    ensures r.Success? ==> |r.value.1| == |vars|
    ensures r.Success? ==> forall a :: 0 <= a < |vars| ==> |r.value.1[a]| == |cuts|
    ensures r.Success? ==> forall a, b :: 0 <= a < |vars| && 0 <= b < |cuts| ==>
              r.value.1[a][b] == PassCount(events, vars[a], cuts[b], rule)
  {
    var nFiducial := 0;
    var counts := seq(|vars|, _ => seq(|cuts|, _ => 0));
    var i := 0;
    while i < |events|
      invariant 0 <= i <= |events|
      invariant FirstMissing(events[..i], vars, Fiducial).None?
      invariant nFiducial == FiducialCount(events[..i])
      invariant |counts| == |vars|
      invariant forall a :: 0 <= a < |vars| ==> |counts[a]| == |cuts|
      invariant forall a, b :: 0 <= a < |vars| && 0 <= b < |cuts| ==>
                  counts[a][b] == PassCount(events[..i], vars[a], cuts[b], rule)
    {
      var e := events[i];
      EventStep(events, i, vars);
      if !Fiducial(e) {
        SkipKeepsCounts(events[..i], e, vars, cuts, rule, counts);
        i := i + 1;
        continue;
      }
      nFiducial := nFiducial + 1;
      var missing := MissingVar(e, vars);
      if missing.Some? {
        return Failure(MissingField(missing.value));
      }
      var counts' := AddEvent(counts, e, vars, cuts, rule);
      AddKeepsCounts(events[..i], e, vars, cuts, rule, counts, counts');
      counts := counts';
      i := i + 1;
    }
    assert events[..i] == events;
    return Success((nFiducial, counts));
  }

  /** One turn of the event loop in `CountEvents` on a prefix with every
      leaf: the fiducial count grows by one when the event's flag is
      non-zero, and the first missing leaf of the whole sample is the
      event's own when the event is fiducial and lacks one. */
  lemma EventStep(events: seq<Event>, i: nat, vars: seq<Var>)
    requires i < |events|
    requires FirstMissing(events[..i], vars, Fiducial).None?
    ensures events[..i + 1] == events[..i] + [events[i]]
    ensures FiducialCount(events[..i + 1]) == FiducialCount(events[..i]) + (if Fiducial(events[i]) then 1 else 0)
    ensures Fiducial(events[i]) && MissingVar(events[i], vars).Some? ==>
              FirstMissing(events, vars, Fiducial) == MissingVar(events[i], vars)
    ensures !(Fiducial(events[i]) && MissingVar(events[i], vars).Some?) ==>
              FirstMissing(events[..i + 1], vars, Fiducial).None?
  {
    var e := events[i];
    assert events[..i + 1] == events[..i] + [e];
    assert events == events[..i] + events[i..];
    FirstMissingConcat(events[..i], [e], vars, Fiducial);
    FirstMissingConcat(events[..i], events[i..], vars, Fiducial);
    CountAppend(events[..i], e, Fiducial);
    assert events[i..][0] == e;
  }

  /** A non-fiducial event leaves every count of the loop in `CountEvents` as it is. */
  lemma SkipKeepsCounts(prefix: seq<Event>, e: Event, vars: seq<Var>, cuts: seq<real>, rule: Rule, counts: seq<seq<nat>>)
    requires !Fiducial(e)
    requires |counts| == |vars| && forall a :: 0 <= a < |vars| ==> |counts[a]| == |cuts|
    requires forall a, b :: 0 <= a < |vars| && 0 <= b < |cuts| ==>
               counts[a][b] == PassCount(prefix, vars[a], cuts[b], rule)
    ensures forall a, b :: 0 <= a < |vars| && 0 <= b < |cuts| ==>
              counts[a][b] == PassCount(prefix + [e], vars[a], cuts[b], rule)
  {
    forall a, b | 0 <= a < |vars| && 0 <= b < |cuts|
      ensures counts[a][b] == PassCount(prefix + [e], vars[a], cuts[b], rule)
    {
      CountAppend(prefix, e, PassPred(vars[a], cuts[b], rule));
    }
  }

  /** `AddEvent` on a fiducial event with every leaf turns the counts of a
      prefix into the counts of the prefix extended by that event. */
  lemma AddKeepsCounts(prefix: seq<Event>, e: Event, vars: seq<Var>, cuts: seq<real>, rule: Rule,
                       counts: seq<seq<nat>>, counts': seq<seq<nat>>)
    requires Fiducial(e) && forall v :: v in vars ==> v in e.kin
    requires |counts| == |vars| && forall a :: 0 <= a < |vars| ==> |counts[a]| == |cuts|
    requires |counts'| == |vars| && forall a :: 0 <= a < |vars| ==> |counts'[a]| == |cuts|
    requires forall a, b :: 0 <= a < |vars| && 0 <= b < |cuts| ==>
               counts[a][b] == PassCount(prefix, vars[a], cuts[b], rule)
    requires forall a, b :: 0 <= a < |vars| && 0 <= b < |cuts| ==>
               counts'[a][b] == counts[a][b] + (if rule(e.kin[vars[a]], cuts[b]) then 1 else 0)
    ensures forall a, b :: 0 <= a < |vars| && 0 <= b < |cuts| ==>
              counts'[a][b] == PassCount(prefix + [e], vars[a], cuts[b], rule)
  {
    forall a, b | 0 <= a < |vars| && 0 <= b < |cuts|
      ensures counts'[a][b] == PassCount(prefix + [e], vars[a], cuts[b], rule)
    {
      CountAppend(prefix, e, PassPred(vars[a], cuts[b], rule));
    }
  }

  /** The table of one variable: cut `cuts[b]` maps to `row[b]`. */
  function Row<K>(cuts: seq<K>, row: seq<nat>): (m: map<K, nat>)
    requires Distinct(cuts) && |row| == |cuts|
    ensures m.Keys == set c | c in cuts
    ensures forall b :: 0 <= b < |cuts| ==> m[cuts[b]] == row[b]
  {
    map c | c in cuts :: row[IndexOf(cuts, c)]
  }

  /** The rates of one variable, each count over `n`; empty when there is
      no cut, which is the only case the scripts reach with `n == 0`. */
  function RateRow<K>(cuts: seq<K>, row: seq<nat>, n: nat): (m: map<K, real>)
    requires Distinct(cuts) && |row| == |cuts|
    requires n == 0 ==> |cuts| == 0
    ensures m.Keys == set c | c in cuts
    ensures n > 0 ==> forall b :: 0 <= b < |cuts| ==> m[cuts[b]] == Rate(row[b], n)
  {
    if n == 0 then map[] else map c | c in cuts :: Rate(row[IndexOf(cuts, c)], n)
  }

  /** Per variable `vars[a]`, the table `Row(cuts, counts[a])`. */
  function Table<K>(vars: seq<Var>, cuts: seq<K>, counts: seq<seq<nat>>): (m: map<Var, map<K, nat>>)
    requires Distinct(vars) && Distinct(cuts) && |counts| == |vars|
    requires forall a :: 0 <= a < |vars| ==> |counts[a]| == |cuts|
    ensures forall v :: v in m <==> v in vars
    ensures forall a :: 0 <= a < |vars| ==> m[vars[a]] == Row(cuts, counts[a])
  {
    map v | v in vars :: Row(cuts, counts[IndexOf(vars, v)])
  }

  /** Per variable `vars[a]`, the rates `RateRow(cuts, counts[a], n)`. */
  function RateTable<K>(vars: seq<Var>, cuts: seq<K>, counts: seq<seq<nat>>, n: nat): (m: map<Var, map<K, real>>)
    requires Distinct(vars) && Distinct(cuts) && |counts| == |vars|
    requires forall a :: 0 <= a < |vars| ==> |counts[a]| == |cuts|
    requires n == 0 ==> |cuts| == 0 || |vars| == 0
    ensures forall v :: v in m <==> v in vars
    ensures forall a :: 0 <= a < |vars| ==> m[vars[a]] == RateRow(cuts, counts[a], n)
  {
    map v | v in vars :: RateRow(cuts, counts[IndexOf(vars, v)], n)
  }

  /** The entries of `Table` and `RateTable` at variable `v` and cut `c`
      are the count and the rate at their positions in `vars` and `cuts`. */
  lemma TableEntry<K>(vars: seq<Var>, cuts: seq<K>, counts: seq<seq<nat>>, n: nat, v: Var, c: K)
    requires Distinct(vars) && Distinct(cuts) && |counts| == |vars|
    requires forall a :: 0 <= a < |vars| ==> |counts[a]| == |cuts|
    requires n == 0 ==> |cuts| == 0 || |vars| == 0
    requires v in vars && c in cuts
    ensures n > 0
    ensures Table(vars, cuts, counts)[v][c] == counts[IndexOf(vars, v)][IndexOf(cuts, c)]
    ensures RateTable(vars, cuts, counts, n)[v][c] == Rate(counts[IndexOf(vars, v)][IndexOf(cuts, c)], n)
  {
    var a, b := IndexOf(vars, v), IndexOf(cuts, c);
    assert Table(vars, cuts, counts)[v] == Row(cuts, counts[a]);
    assert RateTable(vars, cuts, counts, n)[v] == RateRow(cuts, counts[a], n);
  }

  /** Tables built from the counts of `CountEvents` satisfy `WellFormed`
      and hold the reference counts. */
  lemma TablesWellFormed(events: seq<Event>, vars: seq<Var>, cuts: seq<real>, rule: Rule, counts: seq<seq<nat>>, n: nat)
    requires Distinct(vars) && Distinct(cuts) && |counts| == |vars|
    requires forall a :: 0 <= a < |vars| ==> |counts[a]| == |cuts|
    requires n == FiducialCount(events)
    requires n == 0 ==> |cuts| == 0 || |vars| == 0
    requires forall a, b :: 0 <= a < |vars| && 0 <= b < |cuts| ==> counts[a][b] == PassCount(events, vars[a], cuts[b], rule)
    ensures WellFormed(Selection(|events|, n, Table(vars, cuts, counts), RateTable(vars, cuts, counts, n)), vars, set c | c in cuts)
    ensures forall v, c :: v in vars && c in cuts ==> Table(vars, cuts, counts)[v][c] == PassCount(events, v, c, rule)
  {
    var nPassed, rPassed := Table(vars, cuts, counts), RateTable(vars, cuts, counts, n);
    forall v, c | v in vars && c in cuts
      ensures nPassed[v][c] == PassCount(events, v, c, rule) <= n
      ensures n > 0 && rPassed[v][c] == Rate(nPassed[v][c], n)
    {
      TableEntry(vars, cuts, counts, n, v, c);
    }
    forall v | v in vars
      ensures nPassed[v].Keys == set c | c in cuts
      ensures rPassed[v].Keys == set c | c in cuts
    {
      var a := IndexOf(vars, v);
      assert nPassed[v] == Row(cuts, counts[a]);
      assert rPassed[v] == RateRow(cuts, counts[a], n);
    }
    var sel := Selection(|events|, n, nPassed, rPassed);
    assert sel.nFiducial <= sel.n;
    assert forall v :: v in sel.nPassed <==> v in vars;
    assert forall v :: v in sel.rPassed <==> v in vars;
  }

  /** `selectEvents`: the counts of `CountEvents` as tables keyed by
      variable and cut, plus the rates over the fiducial count, whose
      division aborts when there are no fiducial events and at least one
      (variable, cut) entry to fill. */
  method SelectEvents(events: seq<Event>, vars: seq<Var>, cuts: seq<real>, rule: Rule)
    returns (r: Result<Selection<real>>)
    requires Distinct(vars) && Distinct(cuts)
    ensures r.Failure? <==>
              || !HasLeaves(events, vars, Fiducial)
              || (FiducialCount(events) == 0 && |vars| > 0 && |cuts| > 0)
    ensures !HasLeaves(events, vars, Fiducial) ==> r.Failure? && r.error.MissingField? && r.error.name in vars
    ensures HasLeaves(events, vars, Fiducial) && r.Failure? ==> r.error == ZeroDivision
    ensures r.Success? ==> r.value.n == |events| && r.value.nFiducial == FiducialCount(events)
    ensures r.Success? ==> WellFormed(r.value, vars, set c | c in cuts)
    ensures r.Success? ==> forall v, c :: v in vars && c in cuts ==>
              r.value.nPassed[v][c] == PassCount(events, v, c, rule)
  {
    var counted := CountEvents(events, vars, cuts, rule);
    if counted.Failure? {
      return Failure(counted.error);
    }
    var (nFiducial, counts) := counted.value;
    if nFiducial == 0 && |vars| > 0 && |cuts| > 0 {
      return Failure(ZeroDivision);
    }
    var s := Selection(|events|, nFiducial, Table(vars, cuts, counts), RateTable(vars, cuts, counts, nFiducial));
    TablesWellFormed(events, vars, cuts, rule, counts, nFiducial);
    return Success(s);
  }
}
