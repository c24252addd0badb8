/** The homogeneous family (64-bit rows, all right-hand sides zero): the banding matrix, its
    elimination and back-substitution, and the query on the solved filter. */
module Homogeneous {
  import opened Arith
  import opened Words
  import opened Band
  import opened Solutions
  import opened Runs
  import opened Interleave
  import opened Encoding
  import opened Hash

  const W: nat := 64

  /** The pseudorandom data that an empty slot is filled with: `(i as u64 * K) as u32`. */
  function Fill(i: nat): Bits32 {
    WordOfNat(i * 0x9E37_79B1_85EB_CA87 % TWO64, 32)
  }

  function KeyEquation(rawSeed: Bits64, numStarts: nat, key: Bits64): (e: Equation) {
    var h := RibbonHash(key, rawSeed);
    Equation(Start(h, numStarts), CoeffRow(h), ZERO32)
  }

  /** The hashing of keys to equations, as a function of the key alone. */
  function Hashed(rawSeed: Bits64, numStarts: nat): (eqOf: Bits64 -> Equation)
    ensures forall k :: eqOf(k) == KeyEquation(rawSeed, numStarts, k)
  {
    (k: Bits64) => KeyEquation(rawSeed, numStarts, k)
  }

  /** The hash delivers what elimination needs: the row fits below the last slot. */
  lemma KeyEquationValid(rawSeed: Bits64, n: nat, key: Bits64)
    requires W <= n
    ensures EquationValid(KeyEquation(rawSeed, n - W + 1, key), W, n)
  {
    hide RibbonHash, CoeffRow, Start;
    StartFits(RibbonHash(key, rawSeed), n, W);
  }

  lemma KeyEquationsReady(rawSeed: Bits64, n: nat, keys: seq<Bits64>)
    requires W <= n
    ensures Ready(EquationsOf(Hashed(rawSeed, n - W + 1), keys), W, 0, n)
  {
    var eqs := EquationsOf(Hashed(rawSeed, n - W + 1), keys);
    forall i | 0 <= i < |eqs| ensures EquationValid(eqs[i], W, n) {
      KeyEquationValid(rawSeed, n, keys[i]);
    }
    AllReady(eqs, W, n);
  }

  lemma KeyInSet(rawSeed: Bits64, numStarts: nat, keys: set<Bits64>, key: Bits64)
    requires key in keys
    ensures KeyEquation(rawSeed, numStarts, key) in EquationSet(Hashed(rawSeed, numStarts), keys)
  {
  }

  /** The zero vector solves every homogeneous system. */
  lemma {:induction false} DotZeroVector(v: Word, i: nat, n: nat)
    ensures Dot(v, i, seq(n, _ => ZERO32)) == ZERO32
  {
    if |v| > 0 {
      DotZeroVector(v[1..], i + 1, n);
      XorZeros(ZERO32, ZERO32);
    }
  }

  lemma AlwaysSolvable(s: set<Equation>, n: nat)
    requires forall e :: e in s ==> e.rhs == ZERO32
    ensures Solvable(s, n)
  {
    var x: seq<Bits32> := seq(n, _ => ZERO32);
    forall e | e in s ensures Sat(e, x) {
      DotZeroVector(e.row, e.start, n);
    }
    assert Solves(s, n, x);
  }

  lemma KeySetInside(rawSeed: Bits64, n: nat, keys: set<Bits64>)
    requires W <= n && n % W == 0
    ensures var s := EquationSet(Hashed(rawSeed, n - W + 1), keys); Inside(s, W, n) && Solvable(s, n)
  {
    var s := EquationSet(Hashed(rawSeed, n - W + 1), keys);
    forall e | e in s ensures EquationValid(e, W, n) && e.rhs == ZERO32 {
      var k :| k in keys && e == KeyEquation(rawSeed, n - W + 1, k);
      KeyEquationValid(rawSeed, n, k);
    }
    AlwaysSolvable(s, n);
  }

  /** The solved, queryable filter with `r` result columns. */
  datatype Solution = Solution(r: nat, segments: seq<Word>, numStarts: nat, rawSeed: Bits64) {
    function NumSlots(): nat {
      numStarts + W - 1
    }

    /** What a query relies on. */
    predicate WellFormed() {
      0 < numStarts && WellShaped(segments, NumSlots(), W, r)
    }
  }

  /** The filter of a set of keys, without reference to how it is built. */
  ghost function Filter(r: nat, n: nat, rawSeed: Bits64, keys: set<Bits64>): (soln: Solution)
    requires Shape(W, r) && W <= n && n % W == 0
  {
    KeySetInside(rawSeed, n, keys);
    Solution(r, Encoded(EquationSet(Hashed(rawSeed, n - W + 1), keys), W, n, Fill, r), n - W + 1, rawSeed)
  }

  /** The key's row has even parity in every column. */
  ghost predicate Member(soln: Solution, key: Bits64)
    requires soln.WellFormed()
  {
    var e := KeyEquation(soln.rawSeed, soln.numStarts, key);
    KeyEquationValid(soln.rawSeed, soln.NumSlots(), key);
    Matches(soln.segments, soln.NumSlots(), W, soln.r, e.start, e.row, e.rhs)
  }

  /** What an encoded system answers for any key: whether the low `r` columns of the key's sum
      over the canonical solution are zero; they are whenever the key's equation is in it. */
  lemma Answer(s: set<Equation>, n: nat, soln: Solution, key: Bits64)
    requires W <= n && Shape(W, soln.r) && Inside(s, W, n) && Solvable(s, n)
    requires soln.segments == Encoded(s, W, n, Fill, soln.r) && soln.numStarts == n - W + 1
    ensures soln.WellFormed()
    ensures exists x :: Canonical(s, n, Fill, x)
    ensures var e := KeyEquation(soln.rawSeed, soln.numStarts, key);
      && (Member(soln, key) <==> forall j :: 0 <= j < soln.r ==>
            Dot(e.row, e.start, CanonicalSolution(s, n, Fill))[j] == ZERO32[j])
      && (e in s ==> Member(soln, key))
  {
    hide Solvable, Encoded, Canonical, Dot, Matches, RibbonHash, CoeffRow, Start;
    KeyEquationValid(soln.rawSeed, n, key);
    EncodedMatches(s, W, n, Fill, soln.r, KeyEquation(soln.rawSeed, soln.numStarts, key));
  }

  lemma FilterWellFormed(r: nat, n: nat, rawSeed: Bits64, keys: set<Bits64>)
    requires Shape(W, r) && W <= n && n % W == 0
    ensures Filter(r, n, rawSeed, keys).WellFormed()
    ensures Filter(r, n, rawSeed, keys).r == r && Filter(r, n, rawSeed, keys).numStarts == n - W + 1
  {
    hide EquationSet, Inside, Solvable, Encoded;
    KeySetInside(rawSeed, n, keys);
    EncodedShape(EquationSet(Hashed(rawSeed, n - W + 1), keys), W, n, Fill, r);
  }

  /** No false negatives: a filter answers yes for every key it was built from. */
  lemma NoFalseNegatives(r: nat, n: nat, rawSeed: Bits64, keys: set<Bits64>, key: Bits64)
    requires Shape(W, r) && W <= n && n % W == 0 && key in keys
    ensures Filter(r, n, rawSeed, keys).WellFormed()
    ensures Member(Filter(r, n, rawSeed, keys), key)
  {
    hide KeyEquation, Encoded, Canonical, Dot, Solvable, Inside;
    KeySetInside(rawSeed, n, keys);
    KeyInSet(rawSeed, n - W + 1, keys, key);
    Answer(EquationSet(Hashed(rawSeed, n - W + 1), keys), n, Filter(r, n, rawSeed, keys), key);
  }

  /** A matrix that stores the key set's equations solves to its filter. */
  lemma StoredIsFilter(m: Matrix, r: nat, rawSeed: Bits64, n: nat, keys: set<Bits64>)
    requires Shape(W, r) && W <= n && n % W == 0 && |m.coeff| == n
    requires Represents(m, W, EquationSet(Hashed(rawSeed, n - W + 1), keys))
    ensures Solution(r, Segments(BackSolve(m, Fill), W, r), n - W + 1, rawSeed) == Filter(r, n, rawSeed, keys)
  {
    hide KeyEquation, Segments, Represents, Encoded, Solvable, Inside;
    KeySetInside(rawSeed, n, keys);
    EncodedUnique(m, W, EquationSet(Hashed(rawSeed, n - W + 1), keys), Fill, r);
  }

  /** A matrix fed, from empty, with any list of the keys solves to the filter of the key set. */
  lemma FedIsFilter(m: Matrix, r: nat, rawSeed: Bits64, n: nat, list: seq<Bits64>, keys: set<Bits64>)
    requires Shape(W, r) && W <= n && n % W == 0 && keys == KeysOf(list)
    requires Loopable(Empty(n, W), W) && Feedable(EquationsOf(Hashed(rawSeed, n - W + 1), list), W, 0)
    requires FeedAll(Empty(n, W), W, 0, EquationsOf(Hashed(rawSeed, n - W + 1), list)) == Run(m, [], true)
    ensures |m.coeff| == |m.result| == n
    ensures Solution(r, Segments(BackSolve(m, Fill), W, r), n - W + 1, rawSeed) == Filter(r, n, rawSeed, keys)
  {
    hide FeedAll, KeyEquation, Segments, Represents, Encoded, Solvable, Ready, Inside;
    var eqs, s := EquationsOf(Hashed(rawSeed, n - W + 1), list), EquationSet(Hashed(rawSeed, n - W + 1), keys);
    KeyEquationsReady(rawSeed, n, list);
    EquationsOfSet(Hashed(rawSeed, n - W + 1), list);
    FedMeaning(m, W, n, eqs, s, true);
    KeySetInside(rawSeed, n, keys);
    EncodedUnique(m, W, s, Fill, r);
  }

  /** A matrix without right-hand sides. */
  ghost function Homog(coeff: seq<Word>): (m: Matrix) {
    Matrix(coeff, seq(|coeff|, _ => ZERO32))
  }

  ghost predicate AllZero(m: Matrix) {
    m.result == seq(|m.coeff|, _ => ZERO32)
  }

  /** Without right-hand sides nothing is ever inconsistent, and none appears. */
  lemma {:induction false} HomogeneousNeverFails(m: Matrix, i: nat, cr: Word)
    requires Loopable(m, W) && RowReady(cr, W) && AllZero(m)
    ensures var o := Reduce(m, W, i, cr, ZERO32);
      !o.Inconsistent? && (o.Placed? ==> o.rhs == ZERO32) && AllZero(Apply(m, o))
    decreases if i < |m.coeff| then |m.coeff| - i else 0
  {
    XorZeros(ZERO32, ZERO32);
    var t := Iterate(m, W, i, cr, ZERO32);
    if t.Next? {
      HomogeneousNeverFails(m, t.i, t.cr);
    }
  }

  /** The column loop of a query, once the key is hashed: two blocks, masked and joined. */
  method Probe(segments: seq<Word>, ghost n: nat, r: nat, startSlot: nat, cr: Word) returns (present: bool)
    requires WellShaped(segments, n, W, r) && startSlot + W <= n && |cr| == W
    ensures present <==> Matches(segments, n, W, r, startSlot, cr, ZERO32)
  {
    hide Parity, Xor;
    var segmentNum := startSlot / W * r;
    var startBit := startSlot % W;
    var crLeft := Shl(cr, startBit);
    var crRight := Shr(cr, (W - startBit) % W);
    var maybe := if startBit != 0 then r else 0;
    for i := 0 to r
      invariant forall j :: 0 <= j < i ==>
        Parity(And(SlotWindow(segments, n, W, r, startSlot, j), cr)) == ZERO32[j]
    {
      QueryRefines(segments, n, W, r, startSlot, cr, i);
      assert segmentNum + i == LowIndex(startSlot, W, r, i);
      assert segmentNum + maybe + i == HighIndex(startSlot, W, r, i);
      var word := Or(And(segments[segmentNum + i], crLeft), And(segments[segmentNum + maybe + i], crRight));
      if Parity(word) {
        return false;
      }
    }
    return true;
  }

  method Contains(soln: Solution, key: Bits64) returns (present: bool)
    requires soln.WellFormed()
    ensures present <==> Member(soln, key)
  {
    KeyEquationValid(soln.rawSeed, soln.NumSlots(), key);
    var h := RibbonHash(key, soln.rawSeed);
    present := Probe(soln.segments, soln.NumSlots(), soln.r, Start(h, soln.numStarts), CoeffRow(h));
  }

  class Banding {
    const r: nat
    const coeffRows: array<Word>
    const numStarts: nat
    const rawSeed: Bits64

    ghost function View(): Matrix
      reads coeffRows
    {
      Homog(coeffRows[..])
    }

    ghost predicate Valid()
      reads coeffRows
    {
      && Shape(W, r)
      && coeffRows.Length % W == 0
      && coeffRows.Length == numStarts + W - 1 && 0 < numStarts
      && Band.Valid(View(), W, coeffRows.Length)
    }

    constructor (numSlots: nat, rawSeed: Bits64, r: nat)
      requires numSlots % W == 0 && W <= numSlots && Shape(W, r)
      ensures Valid() && fresh(coeffRows)
      ensures this.r == r && this.rawSeed == rawSeed && numStarts == numSlots - W + 1
      ensures View() == Empty(numSlots, W)
    {
      this.r := r;
      this.rawSeed := rawSeed;
      coeffRows := new Word[numSlots](_ => Zeros(W));
      numStarts := numSlots - W + 1;
      new;
      assert coeffRows[..] == seq(numSlots, _ => Zeros(W));
      EmptyValid(numSlots, W);
    }

    /** The reduction loop, once the key is hashed. */
    method Insert(start: nat, row: Word) returns (ok: bool)
      requires Valid()
      requires RowReady(row, W) && start + W <= coeffRows.Length
      modifies coeffRows
      ensures Valid() && ok
      ensures var o := Reduce(old(View()), W, start, row, ZERO32);
        && (o.Placed? || o.Redundant?)
        && View() == Apply(old(View()), o)
    {
      hide Xor, Shr, Ctz;
      var n := coeffRows.Length;
      ghost var m := View();
      ghost var o := Reduce(m, W, start, row, ZERO32);
      assert Fits(row, start, n);
      ReducePlace(m, W, n, start, row, ZERO32);
      HomogeneousNeverFails(m, start, row);
      var i, cr := start, row;
      while true
        invariant View() == m && RowReady(cr, W) && Fits(cr, i, n)
        invariant Reduce(m, W, i, cr, ZERO32) == o
        decreases n - i
      {
        assert i + 0 < n;
        IterateFits(m, W, n, i, cr, ZERO32);
        var crAtI := coeffRows[i];
        if IsZero(crAtI) {
          coeffRows[i] := cr;
          assert View().coeff == Apply(m, o).coeff;
          return true;
        }
        XorZeros(ZERO32, ZERO32);
        cr := Xor(cr, crAtI);
        if IsZero(cr) {
          return true;
        }
        var tz := Ctz(cr);
        i := i + tz;
        cr := Shr(cr, tz);
      }
    }

    /** Reduces the key's row down the band. The matrix becomes what the outcome says; a
        homogeneous row is placed or redundant, never refused. */
    method Add(key: Bits64) returns (ok: bool)
      requires Valid()
      modifies coeffRows
      ensures Valid() && ok
      ensures var e := KeyEquation(rawSeed, numStarts, key); var o := Reduce(old(View()), W, e.start, e.row, e.rhs);
        && (o.Placed? || o.Redundant?)
        && View() == Apply(old(View()), o)
    {
      KeyEquationValid(rawSeed, coeffRows.Length, key);
      var h := RibbonHash(key, rawSeed);
      ok := Insert(Start(h, numStarts), CoeffRow(h));
    }

    method AddAll(keys: seq<Bits64>)
      requires Valid()
      modifies coeffRows
      ensures Valid()
      ensures Ready(EquationsOf(Hashed(rawSeed, numStarts), keys), W, 0, coeffRows.Length)
      ensures FeedAll(old(View()), W, 0, EquationsOf(Hashed(rawSeed, numStarts), keys)) == Run(View(), [], true)
    {
      ghost var m, eqs := View(), EquationsOf(Hashed(rawSeed, numStarts), keys);
      KeyEquationsReady(rawSeed, coeffRows.Length, keys);
      for i := 0 to |keys|
        invariant Valid()
        invariant FeedAll(m, W, 0, eqs[..i]) == Run(View(), [], true)
      {
        ghost var before := View();
        var _ := Add(keys[i]);
        FeedNext(m, W, eqs, i, before, eqs[i]);
      }
      assert eqs[..|keys|] == eqs;
    }

    /** Rolls the state over the slots of one block, highest first. An empty slot loads its
        pseudorandom fill, an occupied one loads zero. */
    method RollBlock(state: array<Word>, startSlot: nat)
      requires Valid() && state != coeffRows
      requires state.Length == r && startSlot + W <= coeffRows.Length
      requires Shows(state[..], View(), W, Fill, startSlot + W)
      modifies state
      ensures Shows(state[..], View(), W, Fill, startSlot)
    {
      hide Fill, BackSolveFrom, Window, Roll;
      ghost var m := View();
      var i := startSlot + W;
      while i > startSlot
        invariant startSlot <= i <= startSlot + W
        invariant Shows(state[..], m, W, Fill, i)
      {
        i := i - 1;
        var cr := coeffRows[i];
        var rr := if IsZero(cr) then Fill(i) else ZERO32;
        ghost var was := state[..];
        RollSlot(state, cr, rr);
        ShowsNext(was, state[..], m, W, Fill, i);
      }
    }

    /** One block: the state, carried over from the block above, rolls on and is stored. */
    method SolveBlock(segs: array<Word>, state: array<Word>, block: nat, startSlot: nat, ghost base: nat,
                      ghost numBlocks: nat)
      requires Valid() && state != coeffRows && segs != coeffRows && segs != state
      requires block < numBlocks && startSlot == block * W && base == block * r
      requires startSlot + W <= coeffRows.Length
      requires state.Length == r && segs.Length == numBlocks * r
      requires Shows(state[..], View(), W, Fill, startSlot + W)
      requires Filled(segs[..], BackSolve(View(), Fill), W, r, base + r)
      modifies segs, state
      ensures Shows(state[..], View(), W, Fill, startSlot)
      ensures Filled(segs[..], BackSolve(View(), Fill), W, r, base)
    {
      ghost var m := View();
      RollBlock(state, startSlot);
      ghost var was := segs[..];
      StoreBlock(segs, state, block, numBlocks);
      FilledBlock(segs[..], was, state[..], m, W, Fill, block, startSlot, base);
    }

    /** Interleaved back-substitution with one rolling word per column. */
    method BackSubstitute() returns (data: seq<Word>)
      requires Valid()
      ensures data == Segments(BackSolve(View(), Fill), W, r)
    {
      hide SegmentOf, Segments, BackSolve, Fill, Band.Valid, Window;
      var n := coeffRows.Length;
      ghost var m := View();
      ghost var x := BackSolve(m, Fill);
      var numBlocks := n / W;
      DivMod(n, W);
      var segs := new Word[numBlocks * r](_ => Zeros(W));
      var state := new Word[r](_ => Zeros(W));
      InitialState(state[..], m, W, Fill);
      var block := numBlocks;
      while block > 0
        invariant 0 <= block <= numBlocks
        invariant Shows(state[..], m, W, Fill, block * W)
        invariant Filled(segs[..], x, W, r, block * r)
      {
        MulStep(block - 1, numBlocks, W);
        Distribute(block - 1, 1, W);
        Distribute(block - 1, 1, r);
        block := block - 1;
        SolveBlock(segs, state, block, block * W, block * r, numBlocks);
      }
      FilledAll(segs[..], x, W, r);
      data := segs[..];
    }

    method Solve() returns (soln: Solution)
      requires Valid()
      ensures soln == Solution(r, Segments(Band.BackSolve(View(), Fill), W, r), numStarts, rawSeed)
    {
      var data := BackSubstitute();
      soln := Solution(r, data, numStarts, rawSeed);
    }
  }
}
