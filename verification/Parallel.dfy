/** Slot-range parallel construction of both families. Each range is banded by its own pass over
    its slice; keys that may leave their range, or did, are added to the whole matrix at the end.
    The methods write the passes one after the other; `AnyScheduleIsFilter` states the result for
    every interleaving of the threads' steps. */
module Parallel {
  import opened Words
  import opened Band
  import opened Solutions
  import opened Runs
  import opened Interleave
  import opened Encoding
  import opened Hash
  import opened Slices
  import opened Ranges
  import Pleat
  import opened Builders
  import opened Workers
  import H = Homogeneous

  // ---------------------------------------------------------------- slices of the homogeneous matrix

  /** How a reduction inside a slice ended. */
  datatype Fate = Took | Refused | Left

  ghost function FateOf(o: Outcome): Fate {
    match o
    case Inconsistent => Refused
    case Spilled => Left
    case _ => Took
  }

  ghost function HomogSlice(coeff: array<Word>, lo: nat, hi: nat): Matrix
    requires lo <= hi <= coeff.Length
    reads coeff
  {
    H.Homog(coeff[lo..hi])
  }

  ghost predicate SameOutside<T(!new)>(now: seq<T>, was: seq<T>, lo: nat, hi: nat) {
    |now| == |was| && forall k :: 0 <= k < |now| && !(lo <= k < hi) ==> now[k] == was[k]
  }

  /** The whole matrix is as `add` would leave it, or untouched because the step left its slice. */
  ghost predicate WholeStep(now: Matrix, was: Matrix, w: nat, start: nat, row: Word, rhs: Bits32, hi: nat, fate: Fate)
    requires Loopable(was, w) && RowReady(row, w)
  {
    && (fate == Left <==> Crosses(was, w, start, row, rhs, hi))
    && (fate == Left ==> now == was)
    && (fate != Left ==>
          var o := Reduce(was, w, start, row, rhs);
          !o.Spilled? && fate == FateOf(o) && now == Apply(was, o))
  }

  lemma StepOfWhole(now: Matrix, was: Matrix, w: nat, lo: nat, hi: nat, start: nat, row: Word, rhs: Bits32)
    requires Loopable(was, w) && lo <= hi <= |was.coeff| && lo <= start && RowReady(row, w)
    requires KeptOutside(now, was, lo, hi) && Loopable(Slice(was, lo, hi), w)
    requires Slice(now, lo, hi) == Apply(Slice(was, lo, hi), Reduce(Slice(was, lo, hi), w, start - lo, row, rhs))
    ensures WholeStep(now, was, w, start, row, rhs, hi, FateOf(Reduce(Slice(was, lo, hi), w, start - lo, row, rhs)))
  {
    hide Reduce, Crosses, Slice, Loopable;
    SliceReduce(was, w, lo, hi, start - lo, row, rhs);
    assert lo + (start - lo) == start;
    SliceStepIsAdd(now, was, w, lo, hi, start - lo, row, rhs);
  }

  lemma HomogSliceIsSlice(coeff: seq<Word>, lo: nat, hi: nat)
    requires lo <= hi <= |coeff|
    ensures Slice(H.Homog(coeff), lo, hi) == H.Homog(coeff[lo..hi])
  {
  }

  lemma HomogKept(now: seq<Word>, was: seq<Word>, lo: nat, hi: nat)
    requires SameOutside(now, was, lo, hi)
    ensures KeptOutside(H.Homog(now), H.Homog(was), lo, hi)
  {
  }

  lemma HomogStep(now: seq<Word>, was: seq<Word>, lo: nat, hi: nat, start: nat, row: Word)
    requires lo <= hi <= |was| && lo <= start && RowReady(row, H.W) && SameOutside(now, was, lo, hi)
    requires Loopable(H.Homog(was[lo..hi]), H.W)
    requires H.Homog(now[lo..hi])
         == Apply(H.Homog(was[lo..hi]), Reduce(H.Homog(was[lo..hi]), H.W, start - lo, row, ZERO32))
    ensures Loopable(H.Homog(was), H.W) ==>
      WholeStep(H.Homog(now), H.Homog(was), H.W, start, row, ZERO32, hi,
                FateOf(Reduce(H.Homog(was[lo..hi]), H.W, start - lo, row, ZERO32)))
  {
    hide Reduce, Loopable, WholeStep;
    HomogKept(now, was, lo, hi);
    HomogSliceIsSlice(now, lo, hi);
    HomogSliceIsSlice(was, lo, hi);
    if Loopable(H.Homog(was), H.W) {
      StepOfWhole(H.Homog(now), H.Homog(was), H.W, lo, hi, start, row, ZERO32);
    }
  }

  /** The reduction loop inside the slice `lo .. hi`. Leaving the slice is noticed before any row
      beyond it is read. */
  method InsertInSlice(coeff: array<Word>, lo: nat, hi: nat, start: nat, row: Word) returns (fate: Fate)
    requires lo <= hi <= coeff.Length && lo <= start && RowReady(row, H.W)
    requires Loopable(HomogSlice(coeff, lo, hi), H.W)
    modifies coeff
    ensures SameOutside(coeff[..], old(coeff[..]), lo, hi)
    ensures Loopable(HomogSlice(coeff, lo, hi), H.W)
    ensures var o := Reduce(old(HomogSlice(coeff, lo, hi)), H.W, start - lo, row, ZERO32);
      fate == FateOf(o) && fate != Refused && HomogSlice(coeff, lo, hi) == Apply(old(HomogSlice(coeff, lo, hi)), o)
    ensures Loopable(H.Homog(old(coeff[..])), H.W) ==>
      WholeStep(H.Homog(coeff[..]), H.Homog(old(coeff[..])), H.W, start, row, ZERO32, hi, fate)
  {
    hide Xor, Shr, Ctz, WholeStep, IsZero, H.AllZero;
    ghost var m, was := HomogSlice(coeff, lo, hi), coeff[..];
    ghost var o := Reduce(m, H.W, start - lo, row, ZERO32);
    H.HomogeneousNeverFails(m, start - lo, row);
    var len, i, cr := hi - lo, start - lo, row;
    fate := Took;
    while true
      invariant fate == Took && HomogSlice(coeff, lo, hi) == m && RowReady(cr, H.W) && unchanged(coeff)
      invariant Reduce(m, H.W, i, cr, ZERO32) == o
      decreases len - i
    {
      if i >= len {
        fate := Left;
        break;
      }
      var crAtI := coeff[lo + i];
      assert crAtI == m.coeff[i];
      if IsZero(crAtI) {
        coeff[lo + i] := cr;
        assert HomogSlice(coeff, lo, hi).coeff == Apply(m, o).coeff;
        break;
      }
      XorZeros(ZERO32, ZERO32);
      assert Iterate(m, H.W, i, cr, ZERO32).Next? ==> Iterate(m, H.W, i, cr, ZERO32).i > i;
      cr := Xor(cr, crAtI);
      if IsZero(cr) {
        break;
      }
      var tz := Ctz(cr);
      i := i + tz;
      cr := Shr(cr, tz);
    }
    HomogStep(coeff[..], was, lo, hi, start, row);
  }

  lemma FeedNone(m: Matrix, w: nat, base: nat, eqs: seq<Equation>)
    requires Loopable(m, w) && eqs == []
    ensures FeedAll(m, w, base, eqs) == Run(m, [], true)
  {
  }

  lemma FeedSnoc(m: Matrix, w: nat, base: nat, eqs: seq<Equation>, j: nat, next: nat, before: Run)
    requires Loopable(m, w) && Feedable(eqs, w, base) && j < |eqs| && next == j + 1
    requires FeedAll(m, w, base, eqs[..j]) == before && before.ok
    ensures Loopable(before.m, w) && RowReady(eqs[j].row, w) && base <= eqs[j].start
    ensures var o := Reduce(before.m, w, eqs[j].start - base, eqs[j].row, eqs[j].rhs);
      && (FateOf(o) == Took ==> FeedAll(m, w, base, eqs[..next]) == Run(Apply(before.m, o), before.spilled, true))
      && (FateOf(o) == Left ==> FeedAll(m, w, base, eqs[..next]) == Run(before.m, before.spilled + [eqs[j]], true))
      && (FateOf(o) == Refused ==> FeedAll(m, w, base, eqs[..next]) == Run(before.m, before.spilled, false))
  {
    hide Reduce, FeedAll, Loopable;
    assert eqs[j] in eqs;
    assert eqs[..next][..j] == eqs[..j] && eqs[..next][j] == eqs[j];
    FeedAllLast(m, w, base, eqs[..next], eqs[..j]);
  }

  /** One thread's pass: bands `keys` into slots `lo .. hi`, handing back those that left. */
  method BandSlice(coeff: array<Word>, lo: nat, hi: nat, numStarts: nat, seed: Bits64, keys: seq<Bits64>)
    returns (spilled: seq<Bits64>)
    requires lo <= hi <= coeff.Length && Loopable(HomogSlice(coeff, lo, hi), H.W)
    requires Feedable(EquationsOf(H.Hashed(seed, numStarts), keys), H.W, lo)
    modifies coeff
    ensures SameOutside(coeff[..], old(coeff[..]), lo, hi)
    ensures FeedAll(old(HomogSlice(coeff, lo, hi)), H.W, lo, EquationsOf(H.Hashed(seed, numStarts), keys))
         == Run(HomogSlice(coeff, lo, hi), EquationsOf(H.Hashed(seed, numStarts), spilled), true)
  {
    hide FeedAll, Reduce, RibbonHash, CoeffRow, Start;
    ghost var m, eqs := HomogSlice(coeff, lo, hi), EquationsOf(H.Hashed(seed, numStarts), keys);
    spilled := [];
    FeedNone(m, H.W, lo, eqs[..0]);
    for j := 0 to |keys|
      invariant SameOutside(coeff[..], old(coeff[..]), lo, hi)
      invariant Loopable(HomogSlice(coeff, lo, hi), H.W)
      invariant FeedAll(m, H.W, lo, eqs[..j])
           == Run(HomogSlice(coeff, lo, hi), EquationsOf(H.Hashed(seed, numStarts), spilled), true)
    {
      assert eqs[j] in eqs;
      ghost var before := Run(HomogSlice(coeff, lo, hi), EquationsOf(H.Hashed(seed, numStarts), spilled), true);
      var h := RibbonHash(keys[j], seed);
      var fate := InsertInSlice(coeff, lo, hi, Start(h, numStarts), CoeffRow(h));
      FeedSnoc(m, H.W, lo, eqs, j, j + 1, before);
      if fate == Left {
        assert EquationsOf(H.Hashed(seed, numStarts), spilled + [keys[j]])
             == EquationsOf(H.Hashed(seed, numStarts), spilled) + [eqs[j]];
        spilled := spilled + [keys[j]];
      }
    }
    assert eqs[..|keys|] == eqs;
  }

  /** All threads' passes over their slices. */
  method BandSlices(b: H.Banding, bounds: seq<nat>, buckets: seq<seq<Bits64>>)
    returns (spilled: seq<seq<Bits64>>, ghost runs: seq<Run>)
    requires b.Valid() && b.View() == Empty(b.coeffRows.Length, H.W)
    requires Cuts(bounds, b.coeffRows.Length) && |buckets| == |bounds| - 1
    requires forall t :: 0 <= t < |buckets| ==>
      Feedable(EquationsOf(H.Hashed(b.rawSeed, b.numStarts), buckets[t]), H.W, bounds[t])
    modifies b.coeffRows
    ensures Banded(b.View(), H.W, bounds, BucketEquations(H.Hashed(b.rawSeed, b.numStarts), buckets), runs)
    ensures AllOk(runs)
    ensures |spilled| == |runs| && forall t :: 0 <= t < |runs| ==>
      EquationsOf(H.Hashed(b.rawSeed, b.numStarts), spilled[t]) == runs[t].spilled
  {
    hide FeedAll, H.KeyEquation, Band.Valid;
    ghost var es := BucketEquations(H.Hashed(b.rawSeed, b.numStarts), buckets);
    ProgressStart(H.W, b.coeffRows.Length, bounds, es);
    spilled, runs := [], [];
    for t := 0 to |buckets|
      invariant Progress(b.View(), H.W, bounds, es, runs, t) && AllOk(runs)
      invariant |spilled| == t && forall u :: 0 <= u < t ==>
        EquationsOf(H.Hashed(b.rawSeed, b.numStarts), spilled[u]) == runs[u].spilled
    {
      var lo, hi := bounds[t], bounds[t + 1];
      ghost var was := b.coeffRows[..];
      HomogSliceIsSlice(was, lo, hi);
      EmptyValid(hi - lo, H.W);
      var left := BandSlice(b.coeffRows, lo, hi, b.numStarts, b.rawSeed, buckets[t]);
      ghost var run := Run(HomogSlice(b.coeffRows, lo, hi), EquationsOf(H.Hashed(b.rawSeed, b.numStarts), left), true);
      HomogSliceIsSlice(b.coeffRows[..], lo, hi);
      HomogKept(b.coeffRows[..], was, lo, hi);
      assert BandedOne(Slice(b.View(), lo, hi), H.W, lo, es[t], run);
      ProgressStep(b.View(), H.Homog(was), H.W, bounds, es, runs, t, run);
      spilled, runs := spilled + [left], runs + [run];
    }
  }

  lemma SpillsPrefix(runs: seq<Run>, t: nat)
    requires t <= |runs|
    ensures t == 0 ==> Spills(runs[..t]) == []
    ensures t < |runs| ==> Spills(runs[..t + 1]) == Spills(runs[..t]) + runs[t].spilled
  {
    if t < |runs| {
      assert runs[..t + 1][..t] == runs[..t];
    }
  }

  lemma {:induction false} TailFeedable(ds: seq<Equation>, runs: seq<Run>, w: nat, t: nat)
    requires t <= |runs| && Feedable(ds + Spills(runs), w, 0)
    ensures Feedable(ds + Spills(runs[..t]), w, 0)
    decreases |runs| - t
  {
    if t == |runs| {
      assert runs[..t] == runs;
    } else {
      TailFeedable(ds, runs, w, t + 1);
      SpillsPrefix(runs, t);
      forall e | e in ds + Spills(runs[..t]) ensures e in ds + Spills(runs[..t + 1]) {
      }
    }
  }

  /** The sequential tail: deferred keys, then each thread's spilled keys, on the whole matrix. */
  method AddTail(b: H.Banding, deferred: seq<Bits64>, spilled: seq<seq<Bits64>>, ghost runs: seq<Run>)
    requires b.Valid()
    requires |spilled| == |runs| && forall t :: 0 <= t < |runs| ==>
      EquationsOf(H.Hashed(b.rawSeed, b.numStarts), spilled[t]) == runs[t].spilled
    requires Feedable(EquationsOf(H.Hashed(b.rawSeed, b.numStarts), deferred) + Spills(runs), H.W, 0)
    modifies b.coeffRows
    ensures b.Valid()
    ensures FeedAll(old(b.View()), H.W, 0, EquationsOf(H.Hashed(b.rawSeed, b.numStarts), deferred) + Spills(runs))
         == Run(b.View(), [], true)
  {
    hide FeedAll, H.KeyEquation, Band.Valid, Spills, Loopable;
    ValidLoopable(b.View(), H.W, b.coeffRows.Length);
    ghost var m, ds := b.View(), EquationsOf(H.Hashed(b.rawSeed, b.numStarts), deferred);
    b.AddAll(deferred);
    SpillsPrefix(runs, 0);
    assert ds + Spills(runs[..0]) == ds;
    for t := 0 to |spilled|
      invariant b.Valid()
      invariant Feedable(ds + Spills(runs[..t]), H.W, 0)
      invariant FeedAll(m, H.W, 0, ds + Spills(runs[..t])) == Run(b.View(), [], true)
    {
      SpillsPrefix(runs, t);
      ghost var mid, a, c := b.View(), ds + Spills(runs[..t]), runs[t].spilled;
      assert ds + Spills(runs[..t + 1]) == a + c;
      TailFeedable(ds, runs, H.W, t + 1);
      b.AddAll(spilled[t]);
      FeedAllConcat(m, H.W, a, c, mid);
    }
    assert runs[..|runs|] == runs;
  }

  lemma HomogStarts(seed: Bits64, n: nat, keys: seq<Bits64>)
    requires H.W <= n
    ensures forall k :: k in keys ==> StartUnder(seed, n - H.W + 1)(k) < n
  {
    hide Start, RibbonHash;
  }

  lemma HomogHashed(seed: Bits64, n: nat, k: Bits64)
    requires H.W <= n
    ensures EquationValid(H.Hashed(seed, n - H.W + 1)(k), H.W, n)
    ensures H.Hashed(seed, n - H.W + 1)(k).start == StartUnder(seed, n - H.W + 1)(k)
  {
    hide RibbonHash, CoeffRow, Start;
    H.KeyEquationValid(seed, n, k);
  }

  lemma HomogRouted(keys: seq<Bits64>, seed: Bits64, n: nat, bounds: seq<nat>, umax: nat,
                    buckets: seq<seq<Bits64>>, deferred: seq<Bits64>)
    requires H.W <= n && Cuts(bounds, n) && |buckets| == |bounds| - 1
    requires var f := DestinationOf(bounds, n, umax, StartUnder(seed, n - H.W + 1));
      && (forall t :: 0 <= t < |buckets| ==> buckets[t] == Pleat.Pick(keys, f, t))
      && deferred == Pleat.Pick(keys, f, |buckets|)
    ensures Routed(EquationSet(H.Hashed(seed, n - H.W + 1), KeysOf(keys)), bounds, n, H.W,
                   BucketEquations(H.Hashed(seed, n - H.W + 1), buckets),
                   EquationsOf(H.Hashed(seed, n - H.W + 1), deferred))
  {
    hide H.KeyEquation, Routed, Pleat.Pick, EquationValid, DestinationOf, Cuts, StartUnder, H.Hashed;
    forall k | k in keys
      ensures EquationValid(H.Hashed(seed, n - H.W + 1)(k), H.W, n)
      ensures H.Hashed(seed, n - H.W + 1)(k).start == StartUnder(seed, n - H.W + 1)(k)
    {
      HomogHashed(seed, n, k);
    }
    RouteMeaning(keys, H.Hashed(seed, n - H.W + 1), StartUnder(seed, n - H.W + 1), bounds, n, umax,
                 H.W, buckets, deferred);
  }

  /** Routing, the threads' passes and the tail; the matrix then stores the whole system. */
  method FillParallel(b: H.Banding, keys: seq<Bits64>, bounds: seq<nat>, umax: nat)
    requires b.Valid() && b.View() == Empty(b.coeffRows.Length, H.W) && Cuts(bounds, b.coeffRows.Length)
    modifies b.coeffRows
    ensures b.Valid()
    ensures Represents(b.View(), H.W, EquationSet(H.Hashed(b.rawSeed, b.numStarts), KeysOf(keys)))
  {
    hide FeedAll, H.KeyEquation, Represents, Banded, Band.Valid, EquationSet;
    var n := b.coeffRows.Length;
    HomogStarts(b.rawSeed, n, keys);
    var buckets, deferred := Route(keys, StartUnder(b.rawSeed, b.numStarts), bounds, n, umax);
    ghost var es := BucketEquations(H.Hashed(b.rawSeed, b.numStarts), buckets);
    ghost var ds := EquationsOf(H.Hashed(b.rawSeed, b.numStarts), deferred);
    ghost var all := EquationSet(H.Hashed(b.rawSeed, b.numStarts), KeysOf(keys));
    HomogRouted(keys, b.rawSeed, n, bounds, umax, buckets, deferred);
    var spilled, runs := BandSlices(b, bounds, buckets);
    ParallelMeaning(b.View(), H.W, all, bounds, es, ds, runs);
    H.KeySetInside(b.rawSeed, n, KeysOf(keys));
    AddTail(b, deferred, spilled, runs);
  }

  /** Slot-range parallel build: the filter of the set of keys, as in arrival order. */
  method FromKeysParallel(keys: seq<Bits64>, seed: Bits64, windowShift: nat, threads: nat, raw: nat, r: nat, umax: nat)
    returns (soln: H.Solution)
    requires Shape(H.W, r) && NumSlotsFor(raw, H.W) <= umax
    ensures NumSlotsFor(raw, H.W) % H.W == 0 && H.W <= NumSlotsFor(raw, H.W)
    ensures soln == H.Filter(r, NumSlotsFor(raw, H.W), seed, KeysOf(keys))
  {
    hide FeedAll, H.Filter, H.KeyEquation, Represents, Routed, Banded;
    SlotCount(raw, H.W);
    var n := NumSlotsFor(raw, H.W);
    var b := new H.Banding(n, seed, r);
    var threads := Min(if threads < 1 then 1 else threads, n / H.W);
    if threads <= 1 {
      b.AddAll(keys);
      H.FedIsFilter(b.View(), r, seed, n, keys, KeysOf(keys));
    } else {
      var bounds := RangeBounds(threads, Pow2(windowShift), n, umax);
      FillParallel(b, keys, bounds, umax);
      H.StoredIsFilter(b.View(), r, seed, n, KeysOf(keys));
    }
    soln := b.Solve();
  }

  /** Whatever way the threads' steps interleave, and whatever they spill, a build that has ended
      has built the filter of the set of keys. */
  lemma AnyScheduleIsFilter(r: nat, seed: Bits64, n: nat, keys: set<Bits64>, bounds: seq<nat>,
                            buckets: seq<seq<Equation>>,
                            deferred: seq<Equation>, schedule: seq<nat>, m: Matrix, ok: bool)
    requires Shape(H.W, r) && H.W <= n && n % H.W == 0
    requires Routed(EquationSet(H.Hashed(seed, n - H.W + 1), keys), bounds, n, H.W, buckets, deferred)
    requires Ends(H.W, bounds, buckets, deferred, schedule, m, ok)
    ensures ok && |m.coeff| == |m.result| == n
    ensures H.Solution(r, Segments(BackSolve(m, H.Fill), H.W, r), n - H.W + 1, seed) == H.Filter(r, n, seed, keys)
  {
    hide Ends, Routed, EquationSet, H.Filter, Segments, BackSolve, Solvable;
    EndMeaning(n, H.W, EquationSet(H.Hashed(seed, n - H.W + 1), keys), bounds, buckets, deferred, schedule, m, ok);
    H.KeySetInside(seed, n, keys);
    H.StoredIsFilter(m, r, seed, n, keys);
  }
}
