/** Event records and the per-sample pass-count table.

    An event exposes, for every analysis variable, the momentum `p` (GeV)
    and the cosine of the angle to the incoming direction, plus the
    fiducial-volume flag `isIn10kton`. The scripts read these leaves by
    name; a missing leaf aborts the run, which `FirstMissing` detects.
 */
module Events {
  import opened Results
  import opened Counting

  /** Momentum and cos(theta) of one analysis variable of one event. */
  datatype Kin = Kin(p: real, cosTheta: real)

  datatype Event = Event(isIn10kton: int, kin: map<Var, Kin>)

  /** The selection scripts skip an event whose flag is 0 and keep every other one. */
  predicate Fiducial(e: Event) {
    e.isIn10kton != 0
  }

  /** The fiducial-event counter of the selection scripts. */
  function FiducialCount(events: seq<Event>): (n: nat)
    ensures n <= |events|
  {
    Count(events, Fiducial)
  }

  /** Every event for which `relevant` holds has a leaf for every variable. */
  ghost predicate HasLeaves(events: seq<Event>, vars: seq<Var>, relevant: Event -> bool) {
    forall i, v :: 0 <= i < |events| && relevant(events[i]) && v in vars ==> v in events[i].kin
  }

  /** The first variable, in `vars` order, that `e` has no leaf for. */
  function MissingVar(e: Event, vars: seq<Var>): (r: Option<Var>)
    ensures r.Some? ==> r.value in vars && r.value !in e.kin
    ensures r.None? <==> forall v :: v in vars ==> v in e.kin
    ensures r.Some? ==> exists j :: 0 <= j < |vars| && vars[j] == r.value && forall k :: 0 <= k < j ==> vars[k] in e.kin
  {
    if |vars| == 0 then None
    else if vars[0] !in e.kin then Some(vars[0])
    else MissingVar(e, vars[1..])
  }

  /** The leaf the event loop trips over first: events in order, and in
      each relevant event the variables in order. `None` when the loop
      reads every leaf it asks for. */
  function FirstMissing(events: seq<Event>, vars: seq<Var>, relevant: Event -> bool): (r: Option<Var>)
    ensures r.None? <==> HasLeaves(events, vars, relevant)
    ensures r.Some? ==> r.value in vars
    ensures r.Some? ==> exists i :: 0 <= i < |events| && relevant(events[i]) && r.value !in events[i].kin
    ensures r.Some? ==> exists i :: (
              && 0 <= i < |events| && relevant(events[i]) && r == MissingVar(events[i], vars)
              && forall j :: 0 <= j < i ==> !(relevant(events[j]) && MissingVar(events[j], vars).Some?))
  {
    if |events| == 0 then None
    else if relevant(events[0]) && MissingVar(events[0], vars).Some? then
      MissingVar(events[0], vars)
    else
      var r := FirstMissing(events[1..], vars, relevant);
      assert forall i :: 1 <= i < |events| ==> events[1..][i - 1] == events[i];
      r
  }

  /** Reading the leaves of `a + b` trips first in `a` if it trips there at all. */
  lemma {:induction false} FirstMissingConcat(a: seq<Event>, b: seq<Event>, vars: seq<Var>, relevant: Event -> bool)
    ensures FirstMissing(a + b, vars, relevant)
         == if FirstMissing(a, vars, relevant).Some? then FirstMissing(a, vars, relevant)
            else FirstMissing(b, vars, relevant)
    decreases |a|
  {
    if |a| == 0 {
      assert a + b == b;
    } else {
      assert (a + b)[0] == a[0];
      assert (a + b)[1..] == a[1..] + b;
      FirstMissingConcat(a[1..], b, vars, relevant);
    }
  }

  /** `k` out of `n` as a fraction; the scripts divide without a guard. */
  function Rate(k: nat, n: nat): (r: real)
    requires n > 0
    ensures k <= n ==> 0.0 <= r <= 1.0
    ensures r * (n as real) == k as real
  {
    (k as real) / (n as real)
  }

  /** A larger count over the same total is a larger rate. */
  lemma RateMonotone(k1: nat, k2: nat, n: nat)
    requires n > 0 && k1 <= k2
    ensures Rate(k1, n) <= Rate(k2, n)
  {
    var inv := 1.0 / (n as real);
    assert Rate(k1, n) == (k1 as real) * inv;
    assert Rate(k2, n) == (k2 as real) * inv;
    assert ((k2 - k1) as real) * inv >= 0.0;
  }

  /** What `selectEvents` returns for one sample: the number of entries,
      the number of fiducial events, and per variable and cut the pass
      count and the pass rate. */
  datatype Selection<K> = Selection(
    n: nat,
    nFiducial: nat,
    nPassed: map<Var, map<K, nat>>,
    rPassed: map<Var, map<K, real>>)

  /** The table has exactly the variables `vars` and, for each, exactly
      the cuts `cuts`; its counts are bounded by the fiducial count, which
      is bounded by the number of entries, and each rate is its count over
      the (then non-zero) fiducial count. */
  ghost predicate WellFormed<K>(s: Selection<K>, vars: seq<Var>, cuts: set<K>) {
    && s.nFiducial <= s.n
    && (forall v :: v in s.nPassed <==> v in vars)
    && (forall v :: v in s.rPassed <==> v in vars)
    && (forall v :: v in vars ==>
          && s.nPassed[v].Keys == cuts
          && s.rPassed[v].Keys == cuts
          && forall c :: c in cuts ==>
               && s.nPassed[v][c] <= s.nFiducial
               && s.nFiducial > 0
               && s.rPassed[v][c] == Rate(s.nPassed[v][c], s.nFiducial))
  }
}
