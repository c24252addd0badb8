/** Slot-range parallel construction of the standard family, under the retry over seeds. */
module ParallelStd {
  import opened Words
  import opened Band
  import opened Solutions
  import opened Runs
  import opened Interleave
  import opened Encoding
  import opened Hash
  import opened Hash128
  import opened Options
  import opened Slices
  import opened Ranges
  import Pleat
  import opened Builders
  import opened Parallel
  import opened Workers
  import S = Standard

  ghost function StdSlice(coeff: array<Word>, result: array<Bits32>, lo: nat, hi: nat): Matrix
    requires lo <= hi <= coeff.Length == result.Length
    reads coeff, result
  {
    Matrix(coeff[lo..hi], result[lo..hi])
  }

  lemma StdKept(coeff: seq<Word>, result: seq<Bits32>, coeff': seq<Word>, result': seq<Bits32>, lo: nat, hi: nat)
    requires |coeff| == |result| && SameOutside(coeff', coeff, lo, hi) && SameOutside(result', result, lo, hi)
    ensures KeptOutside(Matrix(coeff', result'), Matrix(coeff, result), lo, hi)
  {
  }

  lemma StdStep(now: Matrix, was: Matrix, lo: nat, hi: nat, start: nat, row: Word, rhs: Bits32, slice: Matrix,
                m: Matrix)
    requires |was.coeff| == |was.result| && lo <= hi <= |was.coeff| && lo <= start && RowReady(row, S.W128)
    requires SameOutside(now.coeff, was.coeff, lo, hi) && SameOutside(now.result, was.result, lo, hi)
    requires m == Slice(was, lo, hi) && slice == Slice(now, lo, hi) && Loopable(m, S.W128)
    requires slice == Apply(m, Reduce(m, S.W128, start - lo, row, rhs))
    ensures Loopable(was, S.W128) ==>
      WholeStep(now, was, S.W128, start, row, rhs, hi, FateOf(Reduce(m, S.W128, start - lo, row, rhs)))
  {
    hide Reduce, Loopable, WholeStep;
    StdKept(was.coeff, was.result, now.coeff, now.result, lo, hi);
    if Loopable(was, S.W128) {
      StepOfWhole(now, was, S.W128, lo, hi, start, row, rhs);
    }
  }

  /** The reduction loop inside the slice `lo .. hi`. */
  method InsertInSlice128(coeff: array<Word>, result: array<Bits32>, lo: nat, hi: nat, start: nat, row: Word,
                          rhs: Bits32)
    returns (fate: Fate)
    requires lo <= hi <= coeff.Length == result.Length && lo <= start && RowReady(row, S.W128)
    requires Loopable(StdSlice(coeff, result, lo, hi), S.W128)
    modifies coeff, result
    ensures SameOutside(coeff[..], old(coeff[..]), lo, hi) && SameOutside(result[..], old(result[..]), lo, hi)
    ensures Loopable(StdSlice(coeff, result, lo, hi), S.W128)
    ensures var o := Reduce(old(StdSlice(coeff, result, lo, hi)), S.W128, start - lo, row, rhs);
      fate == FateOf(o) && StdSlice(coeff, result, lo, hi) == Apply(old(StdSlice(coeff, result, lo, hi)), o)
    ensures Loopable(Matrix(old(coeff[..]), old(result[..])), S.W128) ==>
      WholeStep(Matrix(coeff[..], result[..]), Matrix(old(coeff[..]), old(result[..])), S.W128,
                start, row, rhs, hi, fate)
  {
    hide Xor, Shr, Ctz, WholeStep;
    ghost var m, was := StdSlice(coeff, result, lo, hi), Matrix(coeff[..], result[..]);
    ghost var o := Reduce(m, S.W128, start - lo, row, rhs);
    var len, i, cr := hi - lo, start - lo, row;
    var rr: Bits32 := rhs;
    fate := Took;
    while true
      invariant fate == Took && StdSlice(coeff, result, lo, hi) == m && RowReady(cr, S.W128)
      invariant unchanged(coeff) && unchanged(result)
      invariant Reduce(m, S.W128, i, cr, rr) == o
      decreases len - i
    {
      if i >= len {
        fate := Left;
        break;
      }
      var crAtI := coeff[lo + i];
      assert crAtI == m.coeff[i] && result[lo + i] == m.result[i];
      if IsZero(crAtI) {
        coeff[lo + i] := cr;
        result[lo + i] := rr;
        assert StdSlice(coeff, result, lo, hi) == Apply(m, o);
        break;
      }
      assert Iterate(m, S.W128, i, cr, rr).Next? ==> Iterate(m, S.W128, i, cr, rr).i > i;
      cr := Xor(cr, crAtI);
      rr := Xor(rr, result[lo + i]);
      if IsZero(cr) {
        fate := if IsZero(rr) then Took else Refused;
        break;
      }
      var tz := Ctz(cr);
      i := i + tz;
      cr := Shr(cr, tz);
    }
    StdStep(Matrix(coeff[..], result[..]), was, lo, hi, start, row, rhs, StdSlice(coeff, result, lo, hi), m);
  }

  /** One thread's pass: None on an inconsistent dependence, otherwise the keys that left. */
  method BandRange128(coeff: array<Word>, result: array<Bits32>, lo: nat, hi: nat, numStarts: nat, raw: Bits32,
                      keys: seq<Bits64>)
    returns (spilled: Option<seq<Bits64>>, ghost run: Run)
    requires lo <= hi <= coeff.Length == result.Length && Loopable(StdSlice(coeff, result, lo, hi), S.W128)
    requires Feedable(EquationsOf(S.Hashed(raw, numStarts), keys), S.W128, lo)
    modifies coeff, result
    ensures SameOutside(coeff[..], old(coeff[..]), lo, hi) && SameOutside(result[..], old(result[..]), lo, hi)
    ensures run
         == FeedAll(old(StdSlice(coeff, result, lo, hi)), S.W128, lo, EquationsOf(S.Hashed(raw, numStarts), keys))
    ensures run.m == StdSlice(coeff, result, lo, hi) && run.ok == spilled.Some?
    ensures spilled.Some? ==> run.spilled == EquationsOf(S.Hashed(raw, numStarts), spilled.value)
  {
    hide FeedAll, Reduce, RibbonHash, CoeffRow128, ResultRow, Start;
    ghost var m, eqs := StdSlice(coeff, result, lo, hi), EquationsOf(S.Hashed(raw, numStarts), keys);
    var left := [];
    FeedNone(m, S.W128, lo, eqs[..0]);
    for j := 0 to |keys|
      invariant SameOutside(coeff[..], old(coeff[..]), lo, hi) && SameOutside(result[..], old(result[..]), lo, hi)
      invariant Loopable(StdSlice(coeff, result, lo, hi), S.W128)
      invariant FeedAll(m, S.W128, lo, eqs[..j])
             == Run(StdSlice(coeff, result, lo, hi), EquationsOf(S.Hashed(raw, numStarts), left), true)
    {
      assert eqs[j] in eqs;
      ghost var before := Run(StdSlice(coeff, result, lo, hi), EquationsOf(S.Hashed(raw, numStarts), left), true);
      var h := RibbonHash(keys[j], Extend(raw, 64));
      var fate := InsertInSlice128(coeff, result, lo, hi, Start(h, numStarts), CoeffRow128(h), ResultRow(h));
      FeedSnoc(m, S.W128, lo, eqs, j, j + 1, before);
      if fate == Refused {
        FailedPrefix(m, S.W128, lo, eqs, j + 1);
        return None, FeedAll(m, S.W128, lo, eqs);
      }
      if fate == Left {
        assert EquationsOf(S.Hashed(raw, numStarts), left + [keys[j]])
             == EquationsOf(S.Hashed(raw, numStarts), left) + [eqs[j]];
        left := left + [keys[j]];
      }
    }
    assert eqs[..|keys|] == eqs;
    return Some(left), FeedAll(m, S.W128, lo, eqs);
  }

  /** What the threads handed back says what their runs were. */
  ghost predicate Reports(raw: Bits32, numStarts: nat, results: seq<Option<seq<Bits64>>>, runs: seq<Run>) {
    && |results| == |runs|
    && forall t :: 0 <= t < |runs| ==>
         && runs[t].ok == results[t].Some?
         && (results[t].Some? ==> EquationsOf(S.Hashed(raw, numStarts), results[t].value) == runs[t].spilled)
  }

  /** All threads' passes over their slices; a thread that fails does not stop the others. */
  method BandRanges128(b: S.Banding128, bounds: seq<nat>, buckets: seq<seq<Bits64>>)
    returns (results: seq<Option<seq<Bits64>>>, ghost runs: seq<Run>)
    requires b.Valid() && b.View() == Empty(b.coeffRows.Length, S.W128)
    requires Cuts(bounds, b.coeffRows.Length) && |buckets| == |bounds| - 1
    requires forall t :: 0 <= t < |buckets| ==>
      Feedable(EquationsOf(S.Hashed(b.rawSeed, b.numStarts), buckets[t]), S.W128, bounds[t])
    modifies b.coeffRows, b.resultRows
    ensures |b.View().coeff| == |b.View().result|
    ensures Banded(b.View(), S.W128, bounds, BucketEquations(S.Hashed(b.rawSeed, b.numStarts), buckets), runs)
    ensures Reports(b.rawSeed, b.numStarts, results, runs)
  {
    hide FeedAll, S.KeyEquation, Band.Valid;
    assert b.resultRows.Length == b.coeffRows.Length by {
      assert |b.View().result| == |Empty(b.coeffRows.Length, S.W128).result|;
    }
    ghost var es := BucketEquations(S.Hashed(b.rawSeed, b.numStarts), buckets);
    ProgressStart(S.W128, b.coeffRows.Length, bounds, es);
    results, runs := [], [];
    for t := 0 to |buckets|
      invariant Progress(b.View(), S.W128, bounds, es, runs, t)
      invariant Reports(b.rawSeed, b.numStarts, results, runs)
    {
      var lo, hi := bounds[t], bounds[t + 1];
      ghost var was := b.View();
      assert StdSlice(b.coeffRows, b.resultRows, lo, hi) == Slice(was, lo, hi);
      EmptyValid(hi - lo, S.W128);
      var left, run := BandRange128(b.coeffRows, b.resultRows, lo, hi, b.numStarts, b.rawSeed, buckets[t]);
      assert StdSlice(b.coeffRows, b.resultRows, lo, hi) == Slice(b.View(), lo, hi);
      StdKept(was.coeff, was.result, b.coeffRows[..], b.resultRows[..], lo, hi);
      assert BandedOne(Slice(b.View(), lo, hi), S.W128, lo, es[t], run);
      ProgressStep(b.View(), was, S.W128, bounds, es, runs, t, run);
      results, runs := results + [left], runs + [run];
    }
  }

  lemma {:induction false} SpillsExtend(runs: seq<Run>, t: nat)
    requires t <= |runs|
    ensures Spills(runs[..t]) <= Spills(runs)
    decreases |runs| - t
  {
    if t == |runs| {
      assert runs[..t] == runs;
    } else {
      SpillsExtend(runs, t + 1);
      SpillsPrefix(runs, t);
    }
  }

  /** The sequential tail; false as soon as a key is refused. */
  method AddTail128(b: S.Banding128, deferred: seq<Bits64>, results: seq<Option<seq<Bits64>>>, ghost runs: seq<Run>)
    returns (ok: bool)
    requires b.Valid() && Reports(b.rawSeed, b.numStarts, results, runs) && AllOk(runs)
    requires Feedable(EquationsOf(S.Hashed(b.rawSeed, b.numStarts), deferred) + Spills(runs), S.W128, 0)
    modifies b.coeffRows, b.resultRows
    ensures b.Valid()
    ensures FeedAll(old(b.View()), S.W128, 0, EquationsOf(S.Hashed(b.rawSeed, b.numStarts), deferred) + Spills(runs))
         == Run(b.View(), [], ok)
  {
    hide FeedAll, S.KeyEquation, Band.Valid, Spills, Loopable;
    ValidLoopable(b.View(), S.W128, b.coeffRows.Length);
    ghost var m, ds := b.View(), EquationsOf(S.Hashed(b.rawSeed, b.numStarts), deferred);
    ghost var all := ds + Spills(runs);
    ok := b.AddWhileConsistent(deferred);
    if !ok {
      assert all[..|ds|] == ds;
      FailedPrefix(m, S.W128, 0, all, |ds|);
      return;
    }
    SpillsPrefix(runs, 0);
    assert ds + Spills(runs[..0]) == ds;
    for t := 0 to |results|
      invariant b.Valid()
      invariant Feedable(ds + Spills(runs[..t]), S.W128, 0)
      invariant FeedAll(m, S.W128, 0, ds + Spills(runs[..t])) == Run(b.View(), [], true)
    {
      SpillsPrefix(runs, t);
      ghost var mid, a, c := b.View(), ds + Spills(runs[..t]), runs[t].spilled;
      assert ds + Spills(runs[..t + 1]) == a + c;
      TailFeedable(ds, runs, S.W128, t + 1);
      ok := b.AddWhileConsistent(results[t].value);
      FeedAllConcat(m, S.W128, a, c, mid);
      if !ok {
        SpillsExtend(runs, t + 1);
        assert all[..|a + c|] == a + c;
        FailedPrefix(m, S.W128, 0, all, |a + c|);
        return;
      }
    }
    assert runs[..|runs|] == runs;
    return true;
  }

  lemma StdStarts(raw: Bits32, n: nat, keys: seq<Bits64>)
    requires S.W128 <= n
    ensures forall k :: k in keys ==> StartUnder(Extend(raw, 64), n - S.W128 + 1)(k) < n
  {
    hide Start, RibbonHash;
  }

  lemma StdHashed(raw: Bits32, n: nat, k: Bits64)
    requires S.W128 <= n
    ensures EquationValid(S.Hashed(raw, n - S.W128 + 1)(k), S.W128, n)
    ensures S.Hashed(raw, n - S.W128 + 1)(k).start == StartUnder(Extend(raw, 64), n - S.W128 + 1)(k)
  {
    hide RibbonHash, CoeffRow128, ResultRow, Start;
    S.KeyEquationValid(raw, n, k);
  }

  lemma StdRouted(keys: seq<Bits64>, raw: Bits32, n: nat, bounds: seq<nat>, umax: nat,
                  buckets: seq<seq<Bits64>>, deferred: seq<Bits64>)
    requires S.W128 <= n && Cuts(bounds, n) && |buckets| == |bounds| - 1
    requires var f := DestinationOf(bounds, n, umax, StartUnder(Extend(raw, 64), n - S.W128 + 1));
      && (forall t :: 0 <= t < |buckets| ==> buckets[t] == Pleat.Pick(keys, f, t))
      && deferred == Pleat.Pick(keys, f, |buckets|)
    ensures Routed(EquationSet(S.Hashed(raw, n - S.W128 + 1), KeysOf(keys)), bounds, n, S.W128,
                   BucketEquations(S.Hashed(raw, n - S.W128 + 1), buckets),
                   EquationsOf(S.Hashed(raw, n - S.W128 + 1), deferred))
  {
    hide S.KeyEquation, Routed, Pleat.Pick, EquationValid, DestinationOf, Cuts, StartUnder, S.Hashed;
    forall k | k in keys
      ensures EquationValid(S.Hashed(raw, n - S.W128 + 1)(k), S.W128, n)
      ensures S.Hashed(raw, n - S.W128 + 1)(k).start == StartUnder(Extend(raw, 64), n - S.W128 + 1)(k)
    {
      StdHashed(raw, n, k);
    }
    RouteMeaning(keys, S.Hashed(raw, n - S.W128 + 1), StartUnder(Extend(raw, 64), n - S.W128 + 1), bounds, n, umax,
                 S.W128, buckets, deferred);
  }

  /** One parallel attempt under a seed, with the contract of the sequential one: it succeeds
      exactly when the seed's whole system is solvable. */
  method TryParallel(b: S.Banding128, keys: seq<Bits64>, bounds: seq<nat>, umax: nat, ordinal: nat) returns (ok: bool)
    requires b.Valid() && Cuts(bounds, b.coeffRows.Length)
    modifies b, b.coeffRows, b.resultRows
    ensures b.Valid() && b.ordinalSeed == WordOfNat(ordinal, 32) && b.rawSeed == S.RawSeed(ordinal)
    ensures ok <==> S.SeedSolves(b.coeffRows.Length, KeysOf(keys), ordinal)
    ensures ok ==> Represents(b.View(), S.W128,
      EquationSet(S.Hashed(S.RawSeed(ordinal), b.coeffRows.Length - S.W128 + 1), KeysOf(keys)))
  {
    hide FeedAll, S.KeyEquation, Represents, Banded, Band.Valid, EquationSet, Solvable;
    b.Reset(ordinal);
    var n := b.coeffRows.Length;
    StdStarts(b.rawSeed, n, keys);
    var buckets, deferred := Route(keys, StartUnder(Extend(b.rawSeed, 64), b.numStarts), bounds, n, umax);
    ghost var es := BucketEquations(S.Hashed(b.rawSeed, b.numStarts), buckets);
    ghost var ds := EquationsOf(S.Hashed(b.rawSeed, b.numStarts), deferred);
    ghost var all := EquationSet(S.Hashed(b.rawSeed, b.numStarts), KeysOf(keys));
    StdRouted(keys, b.rawSeed, n, bounds, umax, buckets, deferred);
    var results, runs := BandRanges128(b, bounds, buckets);
    ParallelMeaning(b.View(), S.W128, all, bounds, es, ds, runs);
    if t :| 0 <= t < |results| && results[t].None? {
      assert !runs[t].ok;
      return false;
    }
    ok := AddTail128(b, deferred, results, runs);
  }

  /** Tries the ordinal seeds in turn, each with a parallel attempt. */
  method FindSeedParallel(numSlots: nat, keys: seq<Bits64>, bounds: seq<nat>, umax: nat, r: nat)
    returns (b: S.Banding128?, ghost seed: nat)
    requires Shape(S.W128, r) && numSlots % S.W128 == 0 && S.W128 <= numSlots && Cuts(bounds, numSlots)
    ensures b == null ==> NoneBelow(S.SEED_COUNT, numSlots, KeysOf(keys))
    ensures b != null ==> b.Valid() && b.r == r && seed < S.SEED_COUNT && Solved(b, numSlots, KeysOf(keys), seed)
  {
    hide S.SeedSolves, Represents, EquationSet, NoneBelow;
    hide S.RawSeed, Solvable;
    NoneBelowZero(numSlots, KeysOf(keys));
    var m := new S.Banding128(numSlots, r);
    for ordinal := 0 to S.SEED_COUNT
      invariant m.Valid() && m.coeffRows.Length == numSlots
      invariant NoneBelow(ordinal, numSlots, KeysOf(keys))
    {
      var ok := TryParallel(m, keys, bounds, umax, ordinal);
      if ok {
        return m, ordinal;
      }
      NoneBelowNext(ordinal, numSlots, KeysOf(keys));
    }
    return null, 0;
  }

  /** Parallel build under the seed retry: the same seed, segments and None case as in arrival
      order. */
  method BuildStd128Parallel(keys: seq<Bits64>, windowShift: nat, threads: nat, raw: nat, r: nat, umax: nat)
    returns (soln: Option<S.Solution128>)
    requires Shape(S.W128, r) && NumSlotsFor(raw, S.W128) <= umax
    ensures NumSlotsFor(raw, S.W128) % S.W128 == 0 && S.W128 <= NumSlotsFor(raw, S.W128)
    ensures soln == S.Filter(r, NumSlotsFor(raw, S.W128), KeysOf(keys))
  {
    hide S.SeedSolves, EquationSet, S.Filter, Represents, FeedAll, BoundAt, NumSlotsFor, RibbonHash, S.RawSeed,
      Segments, BackSolve, Cuts;
    SlotCount(raw, S.W128);
    var n := NumSlotsFor(raw, S.W128);
    if threads <= 1 || n / S.W128 < 2 {
      soln := BuildStd128(keys, Some(windowShift), raw, r);
      return;
    }
    var window := Pow2(windowShift);
    var threads := Min(threads, DivCeil(n, window));
    DivCeilMeaning(n, window);
    var bounds := RangeBounds(threads, window, n, umax);
    ghost var keySet := KeysOf(keys);
    var b, o := FindSeedParallel(n, keys, bounds, umax, r);
    if b == null {
      S.NotFoundIsNone(r, n, keySet);
      return None;
    }
    S.FoundIsFilter(b.View(), r, n, keySet, o);
    var s := b.IntoSolution();
    return Some(s);
  }

  // ---------------------------------------------------------------- any interleaving

  /** One seed's attempt: its buckets and deferred equations, the schedule its threads followed,
      and how it ended. */
  datatype SeedRun = SeedRun(buckets: seq<seq<Equation>>, deferred: seq<Equation>, schedule: seq<nat>,
                             m: Matrix, ok: bool)

  ghost predicate RanSeed(a: SeedRun, n: nat, keys: set<Bits64>, bounds: seq<nat>, ordinal: nat)
    requires S.W128 <= n
  {
    && Routed(EquationSet(S.Hashed(S.RawSeed(ordinal), n - S.W128 + 1), keys), bounds, n, S.W128, a.buckets, a.deferred)
    && Ends(S.W128, bounds, a.buckets, a.deferred, a.schedule, a.m, a.ok)
  }

  lemma RanSeedMeaning(a: SeedRun, n: nat, keys: set<Bits64>, bounds: seq<nat>, ordinal: nat)
    requires S.W128 <= n && RanSeed(a, n, keys, bounds, ordinal)
    ensures a.ok <==> S.SeedSolves(n, keys, ordinal)
    ensures a.ok ==>
      |a.m.coeff| == n && Represents(a.m, S.W128, EquationSet(S.Hashed(S.RawSeed(ordinal), n - S.W128 + 1), keys))
  {
    hide Ends, Routed, EquationSet, S.RawSeed, Represents, Solvable;
    EndMeaning(n, S.W128, EquationSet(S.Hashed(S.RawSeed(ordinal), n - S.W128 + 1), keys), bounds,
               a.buckets, a.deferred, a.schedule, a.m, a.ok);
  }

  /** A retry over seeds, each with threads that interleave in any way: it ends with the filter of
      the set of keys, or after 64 refused seeds when the set has none. */
  lemma AnySchedulesAreFilter(r: nat, n: nat, keys: set<Bits64>, bounds: seq<nat>, tried: seq<SeedRun>)
    requires Shape(S.W128, r) && S.W128 <= n && n % S.W128 == 0
    requires 0 < |tried| <= S.SEED_COUNT
    requires forall o :: 0 <= o < |tried| ==> RanSeed(tried[o], n, keys, bounds, o)
    requires forall o :: 0 <= o < |tried| - 1 ==> !tried[o].ok
    requires tried[|tried| - 1].ok || |tried| == S.SEED_COUNT
    ensures var o := |tried| - 1; var last := tried[o];
      if last.ok then
        && |last.m.coeff| == |last.m.result| == n
        && S.Filter(r, n, keys) == Some(S.Solution128(r, Segments(BackSolve(last.m, S.NoFill), S.W128, r),
                                          n - S.W128 + 1, S.RawSeed(o), WordOfNat(o, 32)))
      else S.Filter(r, n, keys) == None
  {
    hide RanSeed, S.SeedSolves, S.Filter, EquationSet, S.RawSeed, WordOfNat;
    forall o: nat | o < |tried| ensures tried[o].ok <==> S.SeedSolves(n, keys, o) {
      RanSeedMeaning(tried[o], n, keys, bounds, o);
    }
    var o := |tried| - 1;
    if tried[o].ok {
      RanSeedMeaning(tried[o], n, keys, bounds, o);
      S.FoundIsFilter(tried[o].m, r, n, keys, o);
    } else {
      S.NotFoundIsNone(r, n, keys);
    }
  }
}
