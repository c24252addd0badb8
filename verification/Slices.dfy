/** Cutting the matrix into slices, one per thread, and putting it together again. */
module Slices {
  import opened Words
  import opened Band
  import opened Solutions
  import opened Runs

  /** Range bounds: they rise strictly from the first slot to one past the last. */
  ghost predicate Cuts(bounds: seq<nat>, n: nat) {
    && |bounds| >= 2 && bounds[0] == 0 && bounds[|bounds| - 1] == n
    && forall t, u :: 0 <= t < u < |bounds| ==> bounds[t] < bounds[u]
  }

  function Slice(m: Matrix, lo: nat, hi: nat): (s: Matrix)
    requires lo <= hi <= |m.coeff| == |m.result|
  {
    Matrix(m.coeff[lo..hi], m.result[lo..hi])
  }

  /** The range that slot `i` lies in. */
  lemma {:induction false} RangeOf(bounds: seq<nat>, n: nat, i: nat, k: nat) returns (t: nat)
    requires Cuts(bounds, n) && 0 < k < |bounds| && i < bounds[k]
    ensures t + 1 < |bounds| && bounds[t] <= i < bounds[t + 1]
  {
    if bounds[k - 1] <= i {
      t := k - 1;
    } else {
      t := RangeOf(bounds, n, i, k - 1);
    }
  }

  /** Slices share no slot and cover all of them, so the matrix is satisfied exactly when each
      slice is. */
  lemma SliceSol(m: Matrix, bounds: seq<nat>, x: seq<Bits32>)
    requires |m.coeff| == |m.result| && Cuts(bounds, |m.coeff|)
    ensures Sol(m, 0, x) <==> forall t :: 0 <= t < |bounds| - 1 ==>
      Sol(Slice(m, bounds[t], bounds[t + 1]), bounds[t], x)
  {
    if Sol(m, 0, x) {
      forall t | 0 <= t < |bounds| - 1 ensures Sol(Slice(m, bounds[t], bounds[t + 1]), bounds[t], x) {
        var s := Slice(m, bounds[t], bounds[t + 1]);
        forall i | 0 <= i < |s.coeff| ensures Dot(s.coeff[i], bounds[t] + i, x) == s.result[i] {
          assert Dot(m.coeff[bounds[t] + i], 0 + (bounds[t] + i), x) == m.result[bounds[t] + i];
        }
      }
    }
    if forall t :: 0 <= t < |bounds| - 1 ==> Sol(Slice(m, bounds[t], bounds[t + 1]), bounds[t], x) {
      forall i | 0 <= i < |m.coeff| ensures Dot(m.coeff[i], 0 + i, x) == m.result[i] {
        var t := RangeOf(bounds, |m.coeff|, i, |bounds| - 1);
        var s := Slice(m, bounds[t], bounds[t + 1]);
        assert Sol(s, bounds[t], x);
        assert Dot(s.coeff[i - bounds[t]], bounds[t] + (i - bounds[t]), x) == s.result[i - bounds[t]];
      }
    }
  }

  /** The band invariant of the whole follows from that of the slices, each within the slots
      that remain from its base on. */
  lemma SliceValid(m: Matrix, w: nat, bounds: seq<nat>)
    requires w > 0 && |m.coeff| == |m.result| && Cuts(bounds, |m.coeff|)
    requires forall t :: 0 <= t < |bounds| - 1 ==>
      Valid(Slice(m, bounds[t], bounds[t + 1]), w, |m.coeff| - bounds[t])
    ensures Valid(m, w, |m.coeff|)
  {
    var n := |m.coeff|;
    forall i | 0 <= i < n ensures RowValid(m.coeff[i], m.result[i], i, w, n) {
      var t := RangeOf(bounds, n, i, |bounds| - 1);
      var s, k := Slice(m, bounds[t], bounds[t + 1]), i - bounds[t];
      assert RowValid(s.coeff[k], s.result[k], k, w, n - bounds[t]);
      assert s.coeff[k] == m.coeff[i] && s.result[k] == m.result[i];
    }
  }

  /** The reduction loop on the whole matrix would come to a slot at or beyond `hi`. */
  ghost predicate Crosses(m: Matrix, w: nat, i: nat, cr: Word, rr: Bits32, hi: nat)
    requires Loopable(m, w) && RowReady(cr, w)
    decreases if i < |m.coeff| then |m.coeff| - i else 0
  {
    hi <= i || (var t := Iterate(m, w, i, cr, rr); t.Next? && Crosses(m, w, t.i, t.cr, t.rr, hi))
  }

  /** An outcome on a slice, told in slots of the whole matrix. */
  ghost function Moved(o: Outcome, lo: nat): (o': Outcome) {
    match o
    case Placed(p, c, r) => Placed(lo + p, c, r)
    case _ => o
  }

  /** One turn on a slice is the same turn on the whole matrix. */
  lemma SliceIterate(m: Matrix, w: nat, lo: nat, hi: nat, i: nat, cr: Word, rr: Bits32)
    requires Loopable(m, w) && lo <= hi <= |m.coeff| && lo + i < hi && RowReady(cr, w)
    ensures Loopable(Slice(m, lo, hi), w)
    ensures var s, t := Iterate(Slice(m, lo, hi), w, i, cr, rr), Iterate(m, w, lo + i, cr, rr);
      match s
      case Halt(o) => !o.Spilled? && t == Halt(Moved(o, lo))
      case Next(i', cr', rr') => i < i' && RowReady(cr', w) && t == Next(lo + i', cr', rr')
  {
    hide Xor, Shr, Ctz;
  }

  lemma IterateOutside(m: Matrix, w: nat, i: nat, cr: Word, rr: Bits32)
    requires Loopable(m, w) && RowReady(cr, w) && |m.coeff| <= i
    ensures Iterate(m, w, i, cr, rr) == Halt(Spilled)
  {
  }

  lemma SliceLoopable(m: Matrix, w: nat, lo: nat, hi: nat)
    requires Loopable(m, w) && lo <= hi <= |m.coeff|
    ensures |m.coeff| == |m.result|
    ensures Loopable(Slice(m, lo, hi), w) && |Slice(m, lo, hi).coeff| == hi - lo
  {
  }

  /** A reduction on a slice spills exactly when the same reduction on the whole matrix would
      cross the slice's upper bound; otherwise the two have the same outcome. */
  lemma {:induction false} SliceReduce(m: Matrix, w: nat, lo: nat, hi: nat, i: nat, cr: Word, rr: Bits32)
    requires Loopable(m, w) && lo <= hi <= |m.coeff| && RowReady(cr, w)
    ensures Loopable(Slice(m, lo, hi), w)
    ensures var o := Reduce(Slice(m, lo, hi), w, i, cr, rr);
      && (o.Spilled? <==> Crosses(m, w, lo + i, cr, rr, hi))
      && (!o.Spilled? ==> Reduce(m, w, lo + i, cr, rr) == Moved(o, lo))
    decreases if lo + i < hi then hi - lo - i else 0
  {
    hide Iterate, Loopable, Slice, Moved;
    SliceLoopable(m, w, lo, hi);
    if lo + i < hi {
      SliceIterate(m, w, lo, hi, i, cr, rr);
      var t := Iterate(Slice(m, lo, hi), w, i, cr, rr);
      if t.Next? {
        SliceReduce(m, w, lo, hi, t.i, t.cr, t.rr);
      }
    } else {
      IterateOutside(Slice(m, lo, hi), w, i, cr, rr);
    }
  }

  /** Every equation was routed to the bucket of a range, or deferred. */
  ghost predicate Routed(all: set<Equation>, bounds: seq<nat>, n: nat, w: nat, buckets: seq<seq<Equation>>,
                         deferred: seq<Equation>) {
    && Cuts(bounds, n) && |buckets| == |bounds| - 1
    && (forall t :: 0 <= t < |buckets| ==> Ready(buckets[t], w, bounds[t], n - bounds[t]))
    && Ready(deferred, w, 0, n)
    && (forall e :: e in all <==> e in deferred || exists t :: 0 <= t < |buckets| && e in buckets[t])
  }

  /** One slice has been banded with its bucket, starting from empty. */
  ghost predicate BandedOne(slice: Matrix, w: nat, base: nat, bucket: seq<Equation>, run: Run) {
    var empty := Empty(|slice.coeff|, w);
    && Loopable(empty, w) && Feedable(bucket, w, base)
    && run == FeedAll(empty, w, base, bucket)
    && run.m == slice
  }

  /** The slices of `m` have been banded, each with its own bucket. */
  ghost predicate Banded(m: Matrix, w: nat, bounds: seq<nat>, buckets: seq<seq<Equation>>, runs: seq<Run>)
    requires |m.coeff| == |m.result| && Cuts(bounds, |m.coeff|) && |buckets| == |bounds| - 1
  {
    && |runs| == |buckets|
    && forall t :: 0 <= t < |runs| ==>
         BandedOne(Slice(m, bounds[t], bounds[t + 1]), w, bounds[t], buckets[t], runs[t])
  }

  /** Ranges below `t` have been banded, the others are still empty. */
  ghost predicate Progress(m: Matrix, w: nat, bounds: seq<nat>, buckets: seq<seq<Equation>>, runs: seq<Run>, t: nat)
    requires |m.coeff| == |m.result| && Cuts(bounds, |m.coeff|) && |buckets| == |bounds| - 1
  {
    && |runs| == t <= |buckets|
    && (forall u :: 0 <= u < t ==> BandedOne(Slice(m, bounds[u], bounds[u + 1]), w, bounds[u], buckets[u], runs[u]))
    && (forall u :: t <= u < |buckets| ==> Slice(m, bounds[u], bounds[u + 1]) == Empty(bounds[u + 1] - bounds[u], w))
  }

  /** The matrices agree outside the slots `lo .. hi`. */
  ghost predicate KeptOutside(now: Matrix, was: Matrix, lo: nat, hi: nat) {
    && |now.coeff| == |was.coeff| == |now.result| == |was.result|
    && forall k :: 0 <= k < |now.coeff| && !(lo <= k < hi) ==>
         now.coeff[k] == was.coeff[k] && now.result[k] == was.result[k]
  }

  lemma KeptSlice(now: Matrix, was: Matrix, lo: nat, hi: nat, a: nat, b: nat)
    requires KeptOutside(now, was, lo, hi) && a <= b <= |now.coeff| && (b <= lo || hi <= a)
    ensures Slice(now, a, b) == Slice(was, a, b)
  {
  }

  /** A slice step is `add` on the whole matrix, or else a spill that changes nothing. */
  lemma SliceStepIsAdd(now: Matrix, was: Matrix, w: nat, lo: nat, hi: nat, i: nat, cr: Word, rr: Bits32)
    requires Loopable(was, w) && lo <= hi <= |was.coeff| && Loopable(Slice(was, lo, hi), w) && RowReady(cr, w)
    requires KeptOutside(now, was, lo, hi)
    requires Slice(now, lo, hi) == Apply(Slice(was, lo, hi), Reduce(Slice(was, lo, hi), w, i, cr, rr))
    ensures now == if Crosses(was, w, lo + i, cr, rr, hi) then was else Apply(was, Reduce(was, w, lo + i, cr, rr))
  {
    hide Reduce, Crosses, Loopable;
    SliceReduce(was, w, lo, hi, i, cr, rr);
    var o := Reduce(Slice(was, lo, hi), w, i, cr, rr);
    var next := if o.Spilled? then was else Apply(was, Moved(o, lo));
    forall k | 0 <= k < |was.coeff| ensures now.coeff[k] == next.coeff[k] && now.result[k] == next.result[k] {
      if lo <= k < hi {
        assert now.coeff[k] == Slice(now, lo, hi).coeff[k - lo] && now.result[k] == Slice(now, lo, hi).result[k - lo];
      }
    }
  }

  /** Banding range `t` leaves every other range as it was: threads do not race. */
  lemma ProgressStep(now: Matrix, was: Matrix, w: nat, bounds: seq<nat>, buckets: seq<seq<Equation>>,
                     runs: seq<Run>, t: nat, run: Run)
    requires |was.coeff| == |was.result| && Cuts(bounds, |was.coeff|) && |buckets| == |bounds| - 1
    requires Progress(was, w, bounds, buckets, runs, t) && t < |buckets|
    requires KeptOutside(now, was, bounds[t], bounds[t + 1])
    requires BandedOne(Slice(now, bounds[t], bounds[t + 1]), w, bounds[t], buckets[t], run)
    ensures Progress(now, w, bounds, buckets, runs + [run], t + 1)
  {
    hide BandedOne, Empty;
    forall u | 0 <= u < |buckets| && u != t
      ensures Slice(now, bounds[u], bounds[u + 1]) == Slice(was, bounds[u], bounds[u + 1])
    {
      if t < u {
        assert bounds[t + 1] <= bounds[u];
      } else {
        assert bounds[u + 1] <= bounds[t];
      }
      KeptSlice(now, was, bounds[t], bounds[t + 1], bounds[u], bounds[u + 1]);
    }
  }

  lemma ProgressStart(w: nat, n: nat, bounds: seq<nat>, buckets: seq<seq<Equation>>)
    requires Cuts(bounds, n) && |buckets| == |bounds| - 1
    ensures |Empty(n, w).coeff| == |Empty(n, w).result| == n
    ensures Progress(Empty(n, w), w, bounds, buckets, [], 0)
  {
  }

  ghost function Spills(runs: seq<Run>): (es: seq<Equation>) {
    if |runs| == 0 then [] else Spills(runs[..|runs| - 1]) + runs[|runs| - 1].spilled
  }

  lemma {:induction false} InSpills(runs: seq<Run>, e: Equation)
    ensures e in Spills(runs) <==> exists t :: 0 <= t < |runs| && e in runs[t].spilled
  {
    if |runs| > 0 {
      var k := |runs| - 1;
      InSpills(runs[..k], e);
      assert forall t :: 0 <= t < k ==> runs[..k][t] == runs[t];
      assert e in Spills(runs) <==> e in Spills(runs[..k]) || e in runs[k].spilled;
      if t :| 0 <= t < |runs| && e in runs[t].spilled && t != k {
        assert e in runs[..k][t].spilled;
      }
    }
  }

  ghost predicate AllOk(runs: seq<Run>) {
    forall t :: 0 <= t < |runs| ==> runs[t].ok
  }

  lemma EmptyReach(len: nat, w: nat, reach: nat)
    requires w > 0 && len <= reach
    ensures Valid(Empty(len, w), w, reach)
  {
  }

  lemma BandedSlice(m: Matrix, w: nat, bounds: seq<nat>, buckets: seq<seq<Equation>>, runs: seq<Run>,
                    x: seq<Bits32>, t: nat)
    requires w > 0 && |m.coeff| == |m.result| && Cuts(bounds, |m.coeff|) && |buckets| == |bounds| - 1
    requires forall t :: 0 <= t < |buckets| ==> Ready(buckets[t], w, bounds[t], |m.coeff| - bounds[t])
    requires Banded(m, w, bounds, buckets, runs) && t < |runs|
    ensures Valid(Slice(m, bounds[t], bounds[t + 1]), w, |m.coeff| - bounds[t])
    ensures runs[t].ok ==>
      (Sol(Slice(m, bounds[t], bounds[t + 1]), bounds[t], x) && SatAll(runs[t].spilled, x) <==> SatAll(buckets[t], x))
    ensures !runs[t].ok ==> !SatAll(buckets[t], x)
    ensures t == |runs| - 1 ==> runs[t].spilled == []
    ensures forall e :: e in runs[t].spilled ==> e in buckets[t]
  {
    hide FeedAll;
    var len := bounds[t + 1] - bounds[t];
    assert BandedOne(Slice(m, bounds[t], bounds[t + 1]), w, bounds[t], buckets[t], runs[t]);
    EmptyReach(len, w, |m.coeff| - bounds[t]);
    EmptySol(len, w, bounds[t], x);
    FeedAllMeaning(Empty(len, w), w, bounds[t], |m.coeff| - bounds[t], buckets[t], x);
  }

  /** Only equations of the buckets spill, and none from the last range. */
  lemma BandedSpills(m: Matrix, w: nat, bounds: seq<nat>, buckets: seq<seq<Equation>>, runs: seq<Run>)
    requires w > 0 && |m.coeff| == |m.result| && Cuts(bounds, |m.coeff|) && |buckets| == |bounds| - 1
    requires forall t :: 0 <= t < |buckets| ==> Ready(buckets[t], w, bounds[t], |m.coeff| - bounds[t])
    requires Banded(m, w, bounds, buckets, runs)
    ensures Valid(m, w, |m.coeff|)
    ensures runs[|runs| - 1].spilled == []
    ensures Ready(Spills(runs), w, 0, |m.coeff|)
  {
    hide FeedAll, BandedOne, Valid, Spills, Sol, SatAll, Slice;
    forall t | 0 <= t < |runs|
      ensures Valid(Slice(m, bounds[t], bounds[t + 1]), w, |m.coeff| - bounds[t])
      ensures t == |runs| - 1 ==> runs[t].spilled == []
    {
      BandedSlice(m, w, bounds, buckets, runs, [], t);
    }
    SliceValid(m, w, bounds);
    forall e | e in Spills(runs) ensures RowReady(e.row, w) && e.start + w <= |m.coeff| {
      InSpills(runs, e);
      var t :| 0 <= t < |runs| && e in runs[t].spilled;
      BandedSlice(m, w, bounds, buckets, runs, [], t);
      assert e in buckets[t];
    }
  }

  lemma SpillsSat(runs: seq<Run>, x: seq<Bits32>)
    ensures SatAll(Spills(runs), x) <==> forall t :: 0 <= t < |runs| ==> SatAll(runs[t].spilled, x)
  {
    forall e: Equation ensures e in Spills(runs) <==> exists t :: 0 <= t < |runs| && e in runs[t].spilled {
      InSpills(runs, e);
    }
    if SatAll(Spills(runs), x) {
      forall t, e | 0 <= t < |runs| && e in runs[t].spilled ensures Sat(e, x) {
        assert e in Spills(runs);
      }
    }
    if forall t :: 0 <= t < |runs| ==> SatAll(runs[t].spilled, x) {
      forall e | e in Spills(runs) ensures Sat(e, x) {
        var t :| 0 <= t < |runs| && e in runs[t].spilled;
        assert SatAll(runs[t].spilled, x);
      }
    }
  }

  /** Slice by slice, what was absorbed and what spilled add up to the buckets. */
  lemma BandedMeaning(m: Matrix, w: nat, bounds: seq<nat>, buckets: seq<seq<Equation>>, runs: seq<Run>, x: seq<Bits32>)
    requires w > 0 && |m.coeff| == |m.result| && Cuts(bounds, |m.coeff|) && |buckets| == |bounds| - 1
    requires forall t :: 0 <= t < |buckets| ==> Ready(buckets[t], w, bounds[t], |m.coeff| - bounds[t])
    requires Banded(m, w, bounds, buckets, runs)
    ensures AllOk(runs) ==> (Sol(m, 0, x) && SatAll(Spills(runs), x)
                             <==> forall t :: 0 <= t < |buckets| ==> SatAll(buckets[t], x))
    ensures !AllOk(runs) ==> exists t :: 0 <= t < |buckets| && !SatAll(buckets[t], x)
  {
    hide Sol, SatAll, Spills, BandedOne;
    SliceSol(m, bounds, x);
    SpillsSat(runs, x);
    if !AllOk(runs) {
      var t :| 0 <= t < |runs| && !runs[t].ok;
      BandedSlice(m, w, bounds, buckets, runs, x, t);
    } else if Sol(m, 0, x) && SatAll(Spills(runs), x) {
      forall t | 0 <= t < |buckets| ensures SatAll(buckets[t], x) {
        BandedSlice(m, w, bounds, buckets, runs, x, t);
      }
    } else if forall t :: 0 <= t < |buckets| ==> SatAll(buckets[t], x) {
      forall t | 0 <= t < |bounds| - 1 ensures Sol(Slice(m, bounds[t], bounds[t + 1]), bounds[t], x) {
        BandedSlice(m, w, bounds, buckets, runs, x, t);
      }
      forall t | 0 <= t < |runs| ensures SatAll(runs[t].spilled, x) {
        BandedSlice(m, w, bounds, buckets, runs, x, t);
      }
    }
  }

  ghost function Rows(m: Matrix): set<Equation>
    requires |m.coeff| == |m.result|
  {
    set i | 0 <= i < |m.coeff| :: Equation(i, m.coeff[i], m.result[i])
  }

  lemma RowsRepresent(m: Matrix, w: nat)
    requires Valid(m, w, |m.coeff|)
    ensures Represents(m, w, Rows(m))
  {
    forall x: seq<Bits32> | |x| == |m.coeff| ensures Sol(m, 0, x) <==> Solves(Rows(m), |m.coeff|, x) {
      if Solves(Rows(m), |m.coeff|, x) {
        forall i | 0 <= i < |m.coeff| ensures Dot(m.coeff[i], 0 + i, x) == m.result[i] {
          assert Sat(Equation(i, m.coeff[i], m.result[i]), x);
        }
      }
    }
  }

  lemma RoutedSat(all: set<Equation>, bounds: seq<nat>, n: nat, w: nat, buckets: seq<seq<Equation>>,
                  deferred: seq<Equation>, x: seq<Bits32>)
    requires Routed(all, bounds, n, w, buckets, deferred) && |x| == n
    ensures Solves(all, n, x) <==> SatAll(deferred, x) && forall t :: 0 <= t < |buckets| ==> SatAll(buckets[t], x)
  {
    if Solves(all, n, x) {
      forall t, e | 0 <= t < |buckets| && e in buckets[t] ensures Sat(e, x) {
        assert e in all;
      }
    }
    if SatAll(deferred, x) && forall t :: 0 <= t < |buckets| ==> SatAll(buckets[t], x) {
      forall e | e in all ensures Sat(e, x) {
        if e !in deferred {
          var t :| 0 <= t < |buckets| && e in buckets[t];
          assert SatAll(buckets[t], x);
        }
      }
    }
  }

  /** The parallel build, whatever the ranges and whatever spilled: a slice or the sequential
      tail is refused exactly when the whole system has no solution, and otherwise the matrix
      ends up storing exactly the whole system. */
  lemma ParallelMeaning(m: Matrix, w: nat, all: set<Equation>, bounds: seq<nat>, buckets: seq<seq<Equation>>,
                        deferred: seq<Equation>, runs: seq<Run>)
    requires w > 0 && |m.coeff| == |m.result| && Routed(all, bounds, |m.coeff|, w, buckets, deferred)
    requires Banded(m, w, bounds, buckets, runs)
    ensures Valid(m, w, |m.coeff|)
    ensures Ready(deferred + Spills(runs), w, 0, |m.coeff|)
    ensures var tail := FeedAll(m, w, 0, deferred + Spills(runs));
      && (AllOk(runs) && tail.ok <==> Solvable(all, |m.coeff|))
      && (AllOk(runs) && tail.ok ==> Represents(tail.m, w, all))
  {
    var n, rest := |m.coeff|, deferred + Spills(runs);
    BandedSpills(m, w, bounds, buckets, runs);
    RowsRepresent(m, w);
    WholeRun(m, w, Rows(m), rest);
    var tail := FeedAll(m, w, 0, rest);
    forall x: seq<Bits32> | |x| == n
      ensures AllOk(runs) ==> (Solves(Rows(m) + Equations(rest), n, x) <==> Solves(all, n, x))
      ensures !AllOk(runs) ==> !Solves(all, n, x)
    {
      BandedMeaning(m, w, bounds, buckets, runs, x);
      RoutedSat(all, bounds, n, w, buckets, deferred, x);
      assert SatAll(rest, x) <==> SatAll(deferred, x) && SatAll(Spills(runs), x) by {
        assert forall e :: e in rest <==> e in deferred || e in Spills(runs);
      }
      assert Solves(Rows(m) + Equations(rest), n, x) <==> Solves(Rows(m), n, x) && SatAll(rest, x) by {
        assert forall e :: e in Rows(m) + Equations(rest) <==> e in Rows(m) || e in rest;
      }
    }
    if AllOk(runs) && tail.ok {
      SameSolutions(tail.m, w, Rows(m) + Equations(rest), all);
    }
  }
}
