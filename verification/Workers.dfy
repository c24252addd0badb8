/** The threads of a parallel build as a state machine. Each worker owns one slice of the matrix
    and a bucket of equations; one step takes up an equation or performs one turn of the
    reduction loop. Any scheduler may interleave the workers' steps in any way. */
module Workers {
  import Arith
  import opened Words
  import opened Band
  import opened Solutions
  import opened Runs
  import opened Slices
  import opened Options

  /** The equation being reduced, and the row and slot (within the slice) it has come to. */
  datatype Flight = Flight(e: Equation, i: nat, cr: Word, rr: Bits32)

  datatype Worker = Worker(base: nat, m: Matrix, todo: seq<Equation>, hand: Option<Flight>,
                           spilled: seq<Equation>, ok: bool)

  ghost predicate Good(k: Worker, w: nat) {
    && Loopable(k.m, w)
    && Feedable(k.todo, w, k.base)
    && (k.hand.Some? ==> RowReady(k.hand.value.cr, w))
  }

  /** A worker stops when its bucket is empty or an equation was inconsistent. */
  predicate Done(k: Worker) {
    !k.ok || (k.hand.None? && k.todo == [])
  }

  /** One atomic step of a worker. */
  ghost function Step(k: Worker, w: nat): (k': Worker)
    requires Good(k, w)
    ensures Good(k', w) && k'.base == k.base && |k'.m.coeff| == |k.m.coeff|
  {
    if Done(k) then k
    else if k.hand.None? then
      var e := k.todo[0];
      assert e in k.todo;
      k.(todo := k.todo[1..], hand := Some(Flight(e, e.start - k.base, e.row, e.rhs)))
    else
      var f := k.hand.value;
      match Iterate(k.m, w, f.i, f.cr, f.rr)
      case Next(i, cr, rr) => k.(hand := Some(Flight(f.e, i, cr, rr)))
      case Halt(Inconsistent) => k.(hand := None, ok := false)
      case Halt(Spilled) => k.(hand := None, spilled := k.spilled + [f.e])
      case Halt(o) => k.(hand := None, m := Apply(k.m, o))
  }

  // ---------------------------------------------------------------- what a worker will end with

  ghost function FeedFrom(r: Run, w: nat, base: nat, eqs: seq<Equation>): Run
    requires Loopable(r.m, w) && Feedable(eqs, w, base)
    decreases |eqs|
  {
    if |eqs| == 0 then r
    else
      assert eqs[0] in eqs;
      FeedFrom(Feed(r, w, base, eqs[0]), w, base, eqs[1..])
  }

  lemma {:induction false} FeedFromSnoc(r: Run, w: nat, base: nat, eqs: seq<Equation>)
    requires Loopable(r.m, w) && Feedable(eqs, w, base) && |eqs| > 0
    ensures Loopable(FeedFrom(r, w, base, eqs[..|eqs| - 1]).m, w)
    ensures eqs[|eqs| - 1] in eqs
    ensures FeedFrom(r, w, base, eqs)
         == Feed(FeedFrom(r, w, base, eqs[..|eqs| - 1]), w, base, eqs[|eqs| - 1])
    decreases |eqs|
  {
    assert eqs[0] in eqs;
    if |eqs| > 1 {
      FeedFromSnoc(Feed(r, w, base, eqs[0]), w, base, eqs[1..]);
      assert eqs[1..][..|eqs| - 2] == eqs[..|eqs| - 1][1..];
    }
  }

  lemma {:induction false} FeedFromIsFeedAll(m: Matrix, w: nat, base: nat, eqs: seq<Equation>)
    requires Loopable(m, w) && Feedable(eqs, w, base)
    ensures FeedFrom(Run(m, [], true), w, base, eqs) == FeedAll(m, w, base, eqs)
  {
    if |eqs| > 0 {
      FeedFromSnoc(Run(m, [], true), w, base, eqs);
      FeedFromIsFeedAll(m, w, base, eqs[..|eqs| - 1]);
    }
  }

  /** A run that has taken in the outcome `o` of equation `e`. */
  ghost function Absorb(r: Run, o: Outcome, e: Equation): Run
    requires |r.m.coeff| == |r.m.result| && (o.Placed? ==> o.slot < |r.m.coeff|)
  {
    match o
    case Inconsistent => Run(r.m, r.spilled, false)
    case Spilled => Run(r.m, r.spilled + [e], true)
    case _ => Run(Apply(r.m, o), r.spilled, true)
  }

  /** The run that results once the worker has nothing left to do. */
  ghost function Final(k: Worker, w: nat): Run
    requires Good(k, w)
  {
    var now := Run(k.m, k.spilled, k.ok);
    if k.ok && k.hand.Some? then
      var f := k.hand.value;
      FeedFrom(Absorb(now, Reduce(k.m, w, f.i, f.cr, f.rr), f.e), w, k.base, k.todo)
    else
      FeedFrom(now, w, k.base, k.todo)
  }

  lemma {:induction false} FailedStays(r: Run, w: nat, base: nat, eqs: seq<Equation>)
    requires Loopable(r.m, w) && Feedable(eqs, w, base) && !r.ok
    ensures FeedFrom(r, w, base, eqs) == r
  {
    if |eqs| > 0 {
      assert eqs[0] in eqs;
      FailedStays(r, w, base, eqs[1..]);
    }
  }

  /** No step changes what the worker will end with. */
  lemma StepKeepsFinal(k: Worker, w: nat)
    requires Good(k, w)
    ensures Final(Step(k, w), w) == Final(k, w)
  {
    hide Iterate, Xor;
    if !Done(k) && k.hand.None? {
      assert k.todo[0] in k.todo;
    } else if !Done(k) {
      var f := k.hand.value;
      var t := Iterate(k.m, w, f.i, f.cr, f.rr);
      assert t.Next? ==> Reduce(k.m, w, f.i, f.cr, f.rr) == Reduce(k.m, w, t.i, t.cr, t.rr);
    }
  }

  lemma DoneIsFinal(k: Worker, w: nat)
    requires Good(k, w) && Done(k)
    ensures Final(k, w) == Run(k.m, k.spilled, k.ok)
  {
    if !k.ok {
      FailedStays(Run(k.m, k.spilled, k.ok), w, k.base, k.todo);
    }
  }

  // ---------------------------------------------------------------- progress

  /** How many more steps the worker can take at most. */
  ghost function Budget(k: Worker): nat {
    if Done(k) then 0
    else
      var len := |k.m.coeff|;
      |k.todo| * (len + 2) + (if k.hand.None? then 0 else if k.hand.value.i < len then 1 + len - k.hand.value.i else 1)
  }

  lemma StepSpendsBudget(k: Worker, w: nat)
    requires Good(k, w) && !Done(k)
    ensures Budget(Step(k, w)) < Budget(k)
  {
    var len, k' := |k.m.coeff|, Step(k, w);
    if k.hand.None? {
      Arith.Distribute(|k.todo| - 1, 1, len + 2);
      assert |k'.todo| * (len + 2) + (len + 2) == |k.todo| * (len + 2);
    } else {
      Arith.MulMono(0, |k.todo|, len + 2);
    }
  }

  // ---------------------------------------------------------------- interleavings

  ghost predicate AllGood(ws: seq<Worker>, w: nat) {
    forall t :: 0 <= t < |ws| ==> Good(ws[t], w)
  }

  predicate AllDone(ws: seq<Worker>) {
    forall t :: 0 <= t < |ws| ==> Done(ws[t])
  }

  /** Runs a schedule: each entry names the worker that takes the next step. */
  ghost function Exec(ws: seq<Worker>, w: nat, schedule: seq<nat>): (r: seq<Worker>)
    requires AllGood(ws, w) && forall i :: 0 <= i < |schedule| ==> schedule[i] < |ws|
    ensures AllGood(r, w) && |r| == |ws|
    decreases |schedule|
  {
    if |schedule| == 0 then ws
    else
      var t := schedule[0];
      assert t < |ws|;
      Exec(ws[t := Step(ws[t], w)], w, schedule[1..])
  }

  /** Whatever the schedule, every worker is on its way to the same final run. */
  lemma {:induction false} ExecKeepsFinal(ws: seq<Worker>, w: nat, schedule: seq<nat>)
    requires AllGood(ws, w) && forall i :: 0 <= i < |schedule| ==> schedule[i] < |ws|
    ensures forall t :: 0 <= t < |ws| ==> Final(Exec(ws, w, schedule)[t], w) == Final(ws[t], w)
    decreases |schedule|
  {
    if |schedule| > 0 {
      var t := schedule[0];
      assert t < |ws|;
      StepKeepsFinal(ws[t], w);
      ExecKeepsFinal(ws[t := Step(ws[t], w)], w, schedule[1..]);
    }
  }

  ghost function TotalBudget(ws: seq<Worker>): nat {
    if |ws| == 0 then 0 else TotalBudget(ws[..|ws| - 1]) + Budget(ws[|ws| - 1])
  }

  lemma {:induction false} TotalBudgetUpdate(ws: seq<Worker>, t: nat, k: Worker)
    requires t < |ws|
    ensures TotalBudget(ws[t := k]) + Budget(ws[t]) == TotalBudget(ws) + Budget(k)
  {
    var n := |ws| - 1;
    if t < n {
      TotalBudgetUpdate(ws[..n], t, k);
      assert ws[t := k][..n] == ws[..n][t := k];
    } else {
      assert ws[t := k][..n] == ws[..n];
    }
  }

  /** A schedule that only ever picks unfinished workers, and stops when there are none. */
  ghost predicate Busy(ws: seq<Worker>, w: nat, schedule: seq<nat>)
    requires AllGood(ws, w)
    decreases |schedule|
  {
    |schedule| == 0 ||
    (schedule[0] < |ws| && !Done(ws[schedule[0]]) &&
     Busy(ws[schedule[0] := Step(ws[schedule[0]], w)], w, schedule[1..]))
  }

  /** No such schedule is longer than the workers' total budget, so every build terminates. */
  lemma {:induction false} BusyTerminates(ws: seq<Worker>, w: nat, schedule: seq<nat>)
    requires AllGood(ws, w) && Busy(ws, w, schedule)
    ensures |schedule| <= TotalBudget(ws)
    decreases |schedule|
  {
    if |schedule| > 0 {
      var t := schedule[0];
      StepSpendsBudget(ws[t], w);
      TotalBudgetUpdate(ws, t, Step(ws[t], w));
      BusyTerminates(ws[t := Step(ws[t], w)], w, schedule[1..]);
    }
  }

  /** A schedule that finishes every worker always exists. */
  lemma {:induction false} ScheduleExists(ws: seq<Worker>, w: nat) returns (schedule: seq<nat>)
    requires AllGood(ws, w)
    ensures Busy(ws, w, schedule)
    ensures forall i :: 0 <= i < |schedule| ==> schedule[i] < |ws|
    ensures AllDone(Exec(ws, w, schedule))
    decreases TotalBudget(ws)
  {
    if t: nat :| t < |ws| && !Done(ws[t]) {
      StepSpendsBudget(ws[t], w);
      TotalBudgetUpdate(ws, t, Step(ws[t], w));
      var rest := ScheduleExists(ws[t := Step(ws[t], w)], w);
      schedule := [t] + rest;
      assert schedule[1..] == rest;
    } else {
      schedule := [];
    }
  }

  ghost function RunsOf(ws: seq<Worker>): (runs: seq<Run>)
    ensures |runs| == |ws|
  {
    seq(|ws|, t requires 0 <= t < |ws| => Run(ws[t].m, ws[t].spilled, ws[t].ok))
  }

  /** Two schedules that finish every worker leave the same slices, spills and verdicts. */
  lemma SchedulesAgree(ws: seq<Worker>, w: nat, a: seq<nat>, b: seq<nat>)
    requires AllGood(ws, w)
    requires forall i :: 0 <= i < |a| ==> a[i] < |ws|
    requires forall i :: 0 <= i < |b| ==> b[i] < |ws|
    requires AllDone(Exec(ws, w, a)) && AllDone(Exec(ws, w, b))
    ensures RunsOf(Exec(ws, w, a)) == RunsOf(Exec(ws, w, b))
  {
    hide Final, FeedFrom;
    ExecKeepsFinal(ws, w, a);
    ExecKeepsFinal(ws, w, b);
    var x, y := Exec(ws, w, a), Exec(ws, w, b);
    forall t | 0 <= t < |ws| ensures RunsOf(x)[t] == RunsOf(y)[t] {
      assert Good(x[t], w) && Good(y[t], w);
      DoneIsFinal(x[t], w);
      DoneIsFinal(y[t], w);
    }
  }

  // ---------------------------------------------------------------- the parallel build

  /** Before the first step: empty slices and full buckets. */
  ghost function Fresh(w: nat, bounds: seq<nat>, buckets: seq<seq<Equation>>): (ws: seq<Worker>)
    ensures |ws| == |buckets|
    requires |buckets| == |bounds| - 1
    requires forall t, u :: 0 <= t < u < |bounds| ==> bounds[t] < bounds[u]
  {
    seq(|buckets|, t requires 0 <= t < |buckets| =>
      Worker(bounds[t], Empty(bounds[t + 1] - bounds[t], w), buckets[t], None, [], true))
  }

  lemma FreshAt(w: nat, bounds: seq<nat>, buckets: seq<seq<Equation>>, t: nat)
    requires |buckets| == |bounds| - 1 && t < |buckets|
    requires forall t, u :: 0 <= t < u < |bounds| ==> bounds[t] < bounds[u]
    ensures bounds[t] < bounds[t + 1]
    ensures Fresh(w, bounds, buckets)[t]
         == Worker(bounds[t], Empty(bounds[t + 1] - bounds[t], w), buckets[t], None, [], true)
  {
  }

  /** The matrix `m` is the workers' slices, side by side. */
  ghost predicate Assembled(m: Matrix, bounds: seq<nat>, ws: seq<Worker>)
    requires |m.coeff| == |m.result| && Cuts(bounds, |m.coeff|)
  {
    && |ws| == |bounds| - 1
    && forall t :: 0 <= t < |ws| ==> ws[t].m == Slice(m, bounds[t], bounds[t + 1])
  }

  /** The workers' slices, side by side. */
  ghost function Join(ws: seq<Worker>): (m: Matrix)
    requires forall t :: 0 <= t < |ws| ==> |ws[t].m.coeff| == |ws[t].m.result|
    ensures |m.coeff| == |m.result|
  {
    if |ws| == 0 then Matrix([], [])
    else
      var p, last := Join(ws[..|ws| - 1]), ws[|ws| - 1].m;
      Matrix(p.coeff + last.coeff, p.result + last.result)
  }

  ghost predicate HoldsSlice(m: Matrix, lo: nat, hi: nat, s: Matrix) {
    lo <= hi <= |m.coeff| == |m.result| && Slice(m, lo, hi) == s
  }

  lemma HoldsExtended(p: Matrix, q: Matrix, lo: nat, hi: nat, s: Matrix)
    requires HoldsSlice(p, lo, hi, s) && |q.coeff| == |q.result|
    ensures HoldsSlice(Matrix(p.coeff + q.coeff, p.result + q.result), lo, hi, s)
  {
  }

  lemma HoldsLast(p: Matrix, q: Matrix)
    requires |p.coeff| == |p.result| && |q.coeff| == |q.result|
    ensures HoldsSlice(Matrix(p.coeff + q.coeff, p.result + q.result), |p.coeff|, |p.coeff| + |q.coeff|, q)
  {
  }

  /** Joined, the slices are back where the bounds say. */
  lemma {:induction false} JoinSlices(ws: seq<Worker>, bounds: seq<nat>, k: nat)
    requires k <= |ws| && |bounds| == |ws| + 1 && bounds[0] == 0
    requires forall t, u :: 0 <= t < u < |bounds| ==> bounds[t] < bounds[u]
    requires forall t :: 0 <= t < |ws| ==> |ws[t].m.coeff| == |ws[t].m.result| == bounds[t + 1] - bounds[t]
    ensures |Join(ws[..k]).coeff| == bounds[k]
    ensures forall t :: 0 <= t < k ==> HoldsSlice(Join(ws[..k]), bounds[t], bounds[t + 1], ws[t].m)
  {
    hide HoldsSlice;
    if k > 0 {
      JoinSlices(ws, bounds, k - 1);
      assert ws[..k][..k - 1] == ws[..k - 1];
      var p, last, m := Join(ws[..k - 1]), ws[k - 1].m, Join(ws[..k]);
      assert m == Matrix(p.coeff + last.coeff, p.result + last.result);
      forall t | 0 <= t < k ensures HoldsSlice(m, bounds[t], bounds[t + 1], ws[t].m) {
        if t < k - 1 {
          HoldsExtended(p, last, bounds[t], bounds[t + 1], ws[t].m);
        } else {
          HoldsLast(p, last);
        }
      }
    }
  }

  lemma FreshGood(w: nat, n: nat, all: set<Equation>, bounds: seq<nat>, buckets: seq<seq<Equation>>,
                  deferred: seq<Equation>)
    requires w > 0 && Routed(all, bounds, n, w, buckets, deferred)
    ensures AllGood(Fresh(w, bounds, buckets), w)
  {
    hide Fresh, Empty;
    forall t | 0 <= t < |buckets| ensures Good(Fresh(w, bounds, buckets)[t], w) {
      FreshAt(w, bounds, buckets, t);
      EmptyValid(bounds[t + 1] - bounds[t], w);
      ValidLoopable(Empty(bounds[t + 1] - bounds[t], w), w, bounds[t + 1] - bounds[t]);
      ReadyFeedable(buckets[t], w, bounds[t], n - bounds[t]);
    }
  }

  /** A worker that has stopped holds what feeding its bucket in order would have produced. */
  lemma DoneRun(w: nat, lo: nat, hi: nat, bucket: seq<Equation>, k0: Worker, k: Worker)
    requires lo < hi && k0 == Worker(lo, Empty(hi - lo, w), bucket, None, [], true) && Good(k0, w)
    requires Good(k, w) && Done(k) && Final(k, w) == Final(k0, w) && |k.m.coeff| == hi - lo
    ensures BandedOne(k.m, w, lo, bucket, Run(k.m, k.spilled, k.ok))
  {
    FeedFromIsFeedAll(k0.m, w, k0.base, k0.todo);
    DoneIsFinal(k, w);
  }

  lemma {:induction false} ExecKeepsLength(ws: seq<Worker>, w: nat, schedule: seq<nat>)
    requires AllGood(ws, w) && forall i :: 0 <= i < |schedule| ==> schedule[i] < |ws|
    ensures forall t :: 0 <= t < |ws| ==> |Exec(ws, w, schedule)[t].m.coeff| == |ws[t].m.coeff|
    decreases |schedule|
  {
    if |schedule| > 0 {
      var t := schedule[0];
      assert t < |ws|;
      ExecKeepsLength(ws[t := Step(ws[t], w)], w, schedule[1..]);
    }
  }

  lemma JoinedSlices(w: nat, n: nat, bounds: seq<nat>, buckets: seq<seq<Equation>>, ws0: seq<Worker>, ws: seq<Worker>)
    requires Cuts(bounds, n) && |buckets| == |bounds| - 1
    requires ws0 == Fresh(w, bounds, buckets) && |ws| == |ws0| && AllGood(ws, w)
    requires forall t :: 0 <= t < |ws| ==> |ws[t].m.coeff| == |ws0[t].m.coeff|
    ensures |Join(ws).coeff| == n && Assembled(Join(ws), bounds, ws)
  {
    hide Fresh, Join, Done;
    forall t | 0 <= t < |ws| ensures |ws[t].m.coeff| == |ws[t].m.result| == bounds[t + 1] - bounds[t] {
      FreshAt(w, bounds, buckets, t);
      assert Good(ws[t], w);
    }
    JoinSlices(ws, bounds, |ws|);
    assert ws[..|ws|] == ws;
    forall t | 0 <= t < |ws| ensures ws[t].m == Slice(Join(ws), bounds[t], bounds[t + 1]) {
      assert HoldsSlice(Join(ws), bounds[t], bounds[t + 1], ws[t].m);
    }
  }

  lemma BandedIfDone(m: Matrix, w: nat, bounds: seq<nat>, buckets: seq<seq<Equation>>, ws0: seq<Worker>,
                     ws: seq<Worker>)
    requires |m.coeff| == |m.result| && Cuts(bounds, |m.coeff|) && |buckets| == |bounds| - 1
    requires ws0 == Fresh(w, bounds, buckets) && |ws| == |ws0|
    requires AllGood(ws0, w) && AllGood(ws, w) && AllDone(ws) && Assembled(m, bounds, ws)
    requires forall t :: 0 <= t < |ws| ==> Final(ws[t], w) == Final(ws0[t], w)
    ensures Banded(m, w, bounds, buckets, RunsOf(ws))
  {
    hide Fresh, Final, BandedOne, FeedAll;
    forall t | 0 <= t < |ws|
      ensures BandedOne(Slice(m, bounds[t], bounds[t + 1]), w, bounds[t], buckets[t], RunsOf(ws)[t])
    {
      FreshAt(w, bounds, buckets, t);
      assert ws[t].m == Slice(m, bounds[t], bounds[t + 1]);
      assert Final(ws[t], w) == Final(ws0[t], w) && Done(ws[t]);
      DoneRun(w, bounds[t], bounds[t + 1], buckets[t], ws0[t], ws[t]);
    }
  }

  /** Parallel equals sequential, for every interleaving of the workers' steps: once all workers
      have stopped, their slices side by side, with the deferred and spilled tail, are refused
      exactly when the whole system has no solution, and otherwise store exactly the whole
      system. */
  lemma AnyInterleaving(n: nat, w: nat, all: set<Equation>, bounds: seq<nat>, buckets: seq<seq<Equation>>,
                        deferred: seq<Equation>, schedule: seq<nat>)
    requires w > 0 && Routed(all, bounds, n, w, buckets, deferred)
    requires forall i :: 0 <= i < |schedule| ==> schedule[i] < |buckets|
    ensures AllGood(Fresh(w, bounds, buckets), w)
    ensures var ws := Exec(Fresh(w, bounds, buckets), w, schedule);
      var m, runs := Join(ws), RunsOf(ws);
      AllDone(ws) ==>
        && |m.coeff| == n && Valid(m, w, n) && Ready(deferred + Spills(runs), w, 0, n)
        && Banded(m, w, bounds, buckets, runs)
        && var tail := FeedAll(m, w, 0, deferred + Spills(runs));
           && (AllOk(runs) && tail.ok <==> Solvable(all, n))
           && (AllOk(runs) && tail.ok ==> Represents(tail.m, w, all))
  {
    hide FeedAll, Final, Fresh, Join, Step;
    FreshGood(w, n, all, bounds, buckets, deferred);
    var ws0 := Fresh(w, bounds, buckets);
    var ws := Exec(ws0, w, schedule);
    if AllDone(ws) {
      ExecKeepsFinal(ws0, w, schedule);
      ExecKeepsLength(ws0, w, schedule);
      JoinedSlices(w, n, bounds, buckets, ws0, ws);
      BandedIfDone(Join(ws), w, bounds, buckets, ws0, ws);
      ParallelMeaning(Join(ws), w, all, bounds, buckets, deferred, RunsOf(ws));
    }
  }

  /** Under this schedule every worker stops; `ok` says that neither they nor the sequential tail
      met an inconsistent equation, and `m` is then the matrix after the tail. */
  ghost predicate Ends(w: nat, bounds: seq<nat>, buckets: seq<seq<Equation>>, deferred: seq<Equation>,
                       schedule: seq<nat>, m: Matrix, ok: bool)
    requires |buckets| == |bounds| - 1 && forall t, u :: 0 <= t < u < |bounds| ==> bounds[t] < bounds[u]
  {
    && AllGood(Fresh(w, bounds, buckets), w)
    && (forall i :: 0 <= i < |schedule| ==> schedule[i] < |buckets|)
    && var ws := Exec(Fresh(w, bounds, buckets), w, schedule);
       var rest := deferred + Spills(RunsOf(ws));
       && AllDone(ws) && Loopable(Join(ws), w) && Feedable(rest, w, 0)
       && var tail := FeedAll(Join(ws), w, 0, rest);
          ok == (AllOk(RunsOf(ws)) && tail.ok) && (ok ==> m == tail.m)
  }

  /** However a parallel build ends, it was refused exactly when the whole system is inconsistent,
      and otherwise it stores the whole system. */
  lemma EndMeaning(n: nat, w: nat, all: set<Equation>, bounds: seq<nat>, buckets: seq<seq<Equation>>,
                   deferred: seq<Equation>, schedule: seq<nat>, m: Matrix, ok: bool)
    requires w > 0 && Routed(all, bounds, n, w, buckets, deferred)
    requires Ends(w, bounds, buckets, deferred, schedule, m, ok)
    ensures ok <==> Solvable(all, n)
    ensures ok ==> |m.coeff| == n && Represents(m, w, all)
  {
    hide FeedAll, Fresh, Join, Exec, Represents, Solvable;
    AnyInterleaving(n, w, all, bounds, buckets, deferred, schedule);
  }

  lemma GoodLengths(ws: seq<Worker>, w: nat)
    requires AllGood(ws, w)
    ensures forall t :: 0 <= t < |ws| ==> |ws[t].m.coeff| == |ws[t].m.result|
  {
  }

  lemma RoutedRises(all: set<Equation>, bounds: seq<nat>, n: nat, w: nat, buckets: seq<seq<Equation>>,
                    deferred: seq<Equation>)
    requires Routed(all, bounds, n, w, buckets, deferred)
    ensures |buckets| == |bounds| - 1 && forall t, u :: 0 <= t < u < |bounds| ==> bounds[t] < bounds[u]
  {
  }

  lemma StoppedEnds(n: nat, w: nat, all: set<Equation>, bounds: seq<nat>, buckets: seq<seq<Equation>>,
                    deferred: seq<Equation>, schedule: seq<nat>) returns (m: Matrix, ok: bool)
    requires w > 0 && Routed(all, bounds, n, w, buckets, deferred)
    requires forall i :: 0 <= i < |schedule| ==> schedule[i] < |buckets|
    requires AllGood(Fresh(w, bounds, buckets), w) && AllDone(Exec(Fresh(w, bounds, buckets), w, schedule))
    ensures Ends(w, bounds, buckets, deferred, schedule, m, ok)
  {
    hide FeedAll, Fresh, Join, Exec, Valid, Loopable, Ready, Feedable, Banded, Represents, Solvable, Spills,
      AllDone, Step, Done, Good, Routed;
    RoutedRises(all, bounds, n, w, buckets, deferred);
    AnyInterleaving(n, w, all, bounds, buckets, deferred, schedule);
    var ws := Exec(Fresh(w, bounds, buckets), w, schedule);
    var rest := deferred + Spills(RunsOf(ws));
    GoodLengths(ws, w);
    ValidLoopable(Join(ws), w, n);
    ReadyFeedable(rest, w, 0, n);
    var tail := FeedAll(Join(ws), w, 0, rest);
    m, ok := tail.m, AllOk(RunsOf(ws)) && tail.ok;
  }

  /** Every parallel build can end, and a schedule that has stopped all workers has ended it. */
  lemma EveryBuildEnds(n: nat, w: nat, all: set<Equation>, bounds: seq<nat>, buckets: seq<seq<Equation>>,
                       deferred: seq<Equation>)
    requires w > 0 && Routed(all, bounds, n, w, buckets, deferred)
    ensures AllGood(Fresh(w, bounds, buckets), w)
    ensures exists schedule, m, ok :: Ends(w, bounds, buckets, deferred, schedule, m, ok)
    ensures forall schedule: seq<nat> ::
      (forall i :: 0 <= i < |schedule| ==> schedule[i] < |buckets|)
      && AllDone(Exec(Fresh(w, bounds, buckets), w, schedule))
      ==> exists m, ok :: Ends(w, bounds, buckets, deferred, schedule, m, ok)
  {
    hide FeedAll, Fresh, Join, Exec;
    FreshGood(w, n, all, bounds, buckets, deferred);
    forall schedule: seq<nat>
      | (forall i :: 0 <= i < |schedule| ==> schedule[i] < |buckets|)
        && AllDone(Exec(Fresh(w, bounds, buckets), w, schedule))
      ensures exists m, ok :: Ends(w, bounds, buckets, deferred, schedule, m, ok)
    {
      var m, ok := StoppedEnds(n, w, all, bounds, buckets, deferred, schedule);
    }
    var schedule := ScheduleExists(Fresh(w, bounds, buckets), w);
  }
}
