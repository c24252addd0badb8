/** Arrival-order and pleated construction of both families. Every builder returns the filter of
    its set of keys, so all of them agree bit for bit. */
module Builders {
  import opened Arith
  import opened Words
  import opened Solutions
  import opened Runs
  import opened Interleave
  import opened Encoding
  import opened Hash
  import Hash128
  import opened Options
  import opened Pleat
  import Ranges
  import H = Homogeneous
  import S = Standard

  /** Slots for an estimate of `raw` slots: rounded up to whole blocks, at least two of them. */
  function NumSlotsFor(raw: nat, w: nat): (s: nat)
    requires w > 0
  {
    var s := Ranges.DivCeil(raw, w) * w;
    var s := if s == w then s + w else s;
    if s < 2 * w then 2 * w else s
  }

  /** The slot estimate of the standard family: its overhead factor `1 + (4 + r / 4) / 128` is a
      multiple of one 512th, so for fewer than two to the 43 keys the product loses no bit before
      it is truncated. */
  function Estimate128(keys: nat, r: nat): nat {
    keys * (528 + r) / 512
  }

  lemma RealProduct(a: nat, b: nat)
    ensures (a * b) as real == a as real * b as real
  {
  }

  /** The estimate is the overhead factor times the number of keys, rounded down. */
  lemma EstimateIsFloor(keys: nat, r: nat)
    ensures ((1.0 + (4.0 + r as real * 0.25) / (8.0 * 16.0)) * keys as real).Floor == Estimate128(keys, r)
  {
    var p := keys * (528 + r);
    assert (1.0 + (4.0 + r as real * 0.25) / (8.0 * 16.0)) * 512.0 == 528.0 + r as real;
    assert (528.0 + r as real) * keys as real == p as real by {
      RealProduct(528 + r, keys);
    }
    var x := (1.0 + (4.0 + r as real * 0.25) / (8.0 * 16.0)) * keys as real;
    assert x * 512.0 == p as real;
    DivMod(p, 512);
    var q := p / 512;
    assert q as real * 512.0 <= x * 512.0 < (q + 1) as real * 512.0;
  }

  lemma SlotsOf256(r: nat)
    requires 1 <= r <= 32
    ensures NumSlotsFor(Estimate128(256, r), 128) == 384
  {
    DivModUnique(256 * (528 + r), 264 + r / 2, 512, 256 * (r % 2));
    DivModUnique(264 + r / 2 + 127, 3, 128, r / 2 + 7);
  }

  /** The slot count is the least whole number of blocks that covers the estimate and is no less
      than two blocks. */
  lemma NumSlotsLeast(raw: nat, w: nat, blocks: nat)
    requires w > 0
    ensures NumSlotsFor(raw, w) % w == 0
    ensures raw <= NumSlotsFor(raw, w) && 2 * w <= NumSlotsFor(raw, w)
    ensures raw <= blocks * w && 2 <= blocks ==> NumSlotsFor(raw, w) <= blocks * w
  {
    var q := Ranges.DivCeil(raw, w);
    Ranges.DivCeilMeaning(raw, w);
    DivModUnique(q * w, q, w, 0);
    DivModUnique(2 * w, 2, w, 0);
    if raw <= blocks * w && 2 <= blocks {
      MulMono(2, blocks, w);
      if blocks < q {
        MulStep(blocks, q, w);
      } else {
        MulMono(q, blocks, w);
      }
    }
    if q == 0 {
    } else if q == 1 {
    } else {
      MulMono(2, q, w);
    }
  }

  lemma SlotCount(raw: nat, w: nat)
    requires w > 0
    ensures NumSlotsFor(raw, w) % w == 0 && 2 * w <= NumSlotsFor(raw, w)
  {
    NumSlotsLeast(raw, w, 2);
  }

  /** A list and a permutation of it have the same set of keys. */
  lemma SameKeySet(a: seq<Bits64>, b: seq<Bits64>)
    requires multiset(a) == multiset(b)
    ensures KeysOf(a) == KeysOf(b)
  {
    forall k ensures k in a <==> k in b {
      assert k in a <==> k in multiset(a);
      assert k in b <==> k in multiset(b);
    }
  }

  // ---------------------------------------------------------------- homogeneous

  /** Arrival order. `raw` is the floating-point slot estimate for the number of keys. */
  method FromKeys(keys: seq<Bits64>, seed: Bits64, raw: nat, r: nat) returns (soln: H.Solution)
    requires Shape(H.W, r)
    ensures NumSlotsFor(raw, H.W) % H.W == 0 && H.W <= NumSlotsFor(raw, H.W)
    ensures soln == H.Filter(r, NumSlotsFor(raw, H.W), seed, KeysOf(keys))
  {
    hide FeedAll, H.Filter;
    SlotCount(raw, H.W);
    var n := NumSlotsFor(raw, H.W);
    var b := new H.Banding(n, seed, r);
    b.AddAll(keys);
    H.FedIsFilter(b.View(), r, seed, n, keys, KeysOf(keys));
    soln := b.Solve();
  }

  function StartOf(seed: Bits64, numStarts: nat, k: Bits64): (s: nat)
    ensures 0 < numStarts ==> s < numStarts
  {
    var h := RibbonHash(k, seed);
    if 0 < numStarts then StartRange(h, numStarts); Start(h, numStarts) else Start(h, numStarts)
  }

  function StartUnder(seed: Bits64, numStarts: nat): Bits64 -> nat {
    k => StartOf(seed, numStarts, k)
  }

  method PleatBy(keys: seq<Bits64>, startOf: Bits64 -> nat, numStarts: nat, windowShift: nat)
    returns (ordered: seq<Bits64>)
    requires forall k :: k in keys ==> startOf(k) < numStarts
    ensures ordered
         == Folded(keys, WindowFunction(startOf, windowShift), PleatPlan(numStarts, windowShift).NumWindows())
    ensures multiset(ordered) == multiset(keys)
  {
    var plan := PleatPlan(numStarts, windowShift);
    var out := new Bits64[|keys|](_ => seq(64, _ => false));
    var _ := PleatInto(plan, keys, startOf, out);
    ghost var f := WindowFunction(startOf, windowShift);
    forall k | k in keys ensures f(k) < plan.NumWindows() {
      WindowInRange(plan, startOf(k));
    }
    FoldedPermutes(keys, f, plan.NumWindows());
    ordered := out[..];
  }

  /** Folds keys by the window of their start slot under a seed. */
  method PleatByStart(keys: seq<Bits64>, seed: Bits64, numStarts: nat, windowShift: nat) returns (ordered: seq<Bits64>)
    requires 0 < numStarts
    ensures multiset(ordered) == multiset(keys)
  {
    ordered := PleatBy(keys, StartUnder(seed, numStarts), numStarts, windowShift);
  }

  /** Pleated: one counting pass folds the keys into window order first. */
  method FromKeysPleated(keys: seq<Bits64>, seed: Bits64, windowShift: nat, raw: nat, r: nat) returns (soln: H.Solution)
    requires Shape(H.W, r)
    ensures NumSlotsFor(raw, H.W) % H.W == 0 && H.W <= NumSlotsFor(raw, H.W)
    ensures soln == H.Filter(r, NumSlotsFor(raw, H.W), seed, KeysOf(keys))
  {
    hide FeedAll, H.Filter;
    SlotCount(raw, H.W);
    var n := NumSlotsFor(raw, H.W);
    var numStarts := n - H.W + 1;
    var ordered := PleatByStart(keys, seed, numStarts, windowShift);
    var b := new H.Banding(n, seed, r);
    b.AddAll(ordered);
    SameKeySet(ordered, keys);
    H.FedIsFilter(b.View(), r, seed, n, ordered, KeysOf(keys));
    soln := b.Solve();
  }

  // ---------------------------------------------------------------- standard

  ghost predicate NoneBelow(o: nat, n: nat, keys: set<Bits64>)
    requires S.W128 <= n
  {
    forall p: nat :: p < o ==> !S.SeedSolves(n, keys, p)
  }

  lemma NoneBelowZero(n: nat, keys: set<Bits64>)
    requires S.W128 <= n
    ensures NoneBelow(0, n, keys)
  {
  }

  lemma NoneBelowNext(o: nat, n: nat, keys: set<Bits64>)
    requires S.W128 <= n && NoneBelow(o, n, keys) && !S.SeedSolves(n, keys, o)
    ensures NoneBelow(o + 1, n, keys)
  {
    hide S.SeedSolves;
  }

  /** The matrix holds the whole system of the least solving seed. */
  ghost predicate Solved(b: S.Banding128, n: nat, keys: set<Bits64>, o: nat)
    requires S.W128 <= n
    reads b, b.coeffRows, b.resultRows
  {
    && b.coeffRows.Length == b.resultRows.Length == n
    && b.ordinalSeed == WordOfNat(o, 32) && b.rawSeed == S.RawSeed(o)
    && S.SeedSolves(n, keys, o) && NoneBelow(o, n, keys)
    && Represents(b.View(), S.W128, EquationSet(S.Hashed(S.RawSeed(o), n - S.W128 + 1), keys))
  }

  /** One attempt: reset to the seed, order the keys, add them until one is refused. */
  method TrySeed(b: S.Banding128, keys: seq<Bits64>, shift: Option<nat>, ordinal: nat) returns (ok: bool)
    requires b.Valid()
    modifies b, b.coeffRows, b.resultRows
    ensures b.Valid() && b.ordinalSeed == WordOfNat(ordinal, 32) && b.rawSeed == S.RawSeed(ordinal)
    ensures ok <==> S.SeedSolves(b.coeffRows.Length, KeysOf(keys), ordinal)
    ensures ok ==> Represents(b.View(), S.W128,
      EquationSet(S.Hashed(S.RawSeed(ordinal), b.coeffRows.Length - S.W128 + 1), KeysOf(keys)))
  {
    hide FeedAll, S.SeedSolves, Represents;
    b.Reset(ordinal);
    var ordered := keys;
    if shift.Some? {
      ordered := PleatByStart(keys, Hash128.Extend(b.rawSeed, 64), b.numStarts, shift.value);
    }
    SameKeySet(ordered, keys);
    ok := b.AddWhileConsistent(ordered);
    S.AttemptMeaning(b.View(), b.coeffRows.Length, ordered, KeysOf(keys), ordinal, ok);
  }

  /** Tries the ordinal seeds in turn until one takes in every key. With `shift` the keys are
      pleated first, anew for each seed; the order does not matter to the outcome. */
  method FindSeed(numSlots: nat, keys: seq<Bits64>, shift: Option<nat>, r: nat)
    returns (b: S.Banding128?, ghost seed: nat)
    requires Shape(S.W128, r) && numSlots % S.W128 == 0 && S.W128 <= numSlots
    ensures b == null ==> NoneBelow(S.SEED_COUNT, numSlots, KeysOf(keys))
    ensures b != null ==> b.Valid() && b.r == r && seed < S.SEED_COUNT && Solved(b, numSlots, KeysOf(keys), seed)
  {
    hide S.SeedSolves, Represents, EquationSet, NoneBelow;
    assert NoneBelow(0, numSlots, KeysOf(keys)) by {
      NoneBelowZero(numSlots, KeysOf(keys));
    }
    var m := new S.Banding128(numSlots, r);
    for ordinal := 0 to S.SEED_COUNT
      invariant m.Valid() && m.coeffRows.Length == numSlots
      invariant NoneBelow(ordinal, numSlots, KeysOf(keys))
    {
      var ok := TrySeed(m, keys, shift, ordinal);
      if ok {
        return m, ordinal;
      }
      NoneBelowNext(ordinal, numSlots, KeysOf(keys));
    }
    return null, 0;
  }

  /** Arrival order (`shift` is None) or pleated; either way the filter of the set of keys. */
  method BuildStd128(keys: seq<Bits64>, shift: Option<nat>, raw: nat, r: nat) returns (soln: Option<S.Solution128>)
    requires Shape(S.W128, r)
    ensures NumSlotsFor(raw, S.W128) % S.W128 == 0 && S.W128 <= NumSlotsFor(raw, S.W128)
    ensures soln == S.Filter(r, NumSlotsFor(raw, S.W128), KeysOf(keys))
  {
    hide S.SeedSolves, EquationSet, S.Filter, Represents, FeedAll;
    SlotCount(raw, S.W128);
    var n := NumSlotsFor(raw, S.W128);
    ghost var keySet := KeysOf(keys);
    var b, o := FindSeed(n, keys, shift, r);
    if b == null {
      S.NotFoundIsNone(r, n, keySet);
      return None;
    }
    S.FoundIsFilter(b.View(), r, n, keySet, o);
    var s := b.IntoSolution();
    return Some(s);
  }
}
