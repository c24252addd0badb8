/** The standard family (128-bit rows, hashed right-hand sides): a banding matrix that can refuse
    a key, the retry over ordinal seeds, and the query. */
module Standard {
  import opened Arith
  import opened Words
  import opened Band
  import opened Solutions
  import opened Runs
  import opened Interleave
  import opened Encoding
  import opened Hash
  import opened Hash128
  import opened Options
  import Columns

  const W128: nat := 128
  const SEED_COUNT: nat := 64

  /** Empty slots hold zero: non-homogeneous back-substitution loads the stored result row. */
  function NoFill(i: nat): Bits32 {
    ZERO32
  }

  function KeyEquation(rawSeed: Bits32, numStarts: nat, key: Bits64): (e: Equation) {
    var h := RibbonHash(key, Extend(rawSeed, 64));
    Equation(Start(h, numStarts), CoeffRow128(h), ResultRow(h))
  }

  /** The hashing of keys to equations, as a function of the key alone. */
  function Hashed(rawSeed: Bits32, numStarts: nat): (eqOf: Bits64 -> Equation)
    ensures forall k :: eqOf(k) == KeyEquation(rawSeed, numStarts, k)
  {
    (k: Bits64) => KeyEquation(rawSeed, numStarts, k)
  }

  lemma KeyEquationValid(rawSeed: Bits32, n: nat, key: Bits64)
    requires W128 <= n
    ensures EquationValid(KeyEquation(rawSeed, n - W128 + 1, key), W128, n)
  {
    hide RibbonHash, ResultRow, CoeffRow128, Start;
    StartFits(RibbonHash(key, Extend(rawSeed, 64)), n, W128);
  }

  lemma KeyEquationsReady(rawSeed: Bits32, n: nat, keys: seq<Bits64>)
    requires W128 <= n
    ensures Ready(EquationsOf(Hashed(rawSeed, n - W128 + 1), keys), W128, 0, n)
  {
    var eqs := EquationsOf(Hashed(rawSeed, n - W128 + 1), keys);
    forall i | 0 <= i < |eqs| ensures EquationValid(eqs[i], W128, n) {
      KeyEquationValid(rawSeed, n, keys[i]);
    }
    AllReady(eqs, W128, n);
  }

  // ---------------------------------------------------------------- the filter of a key set

  datatype Solution128 = Solution128(r: nat, segments: seq<Word>, numStarts: nat, rawSeed: Bits32,
                                        ordinalSeed: Bits32) {
    function NumSlots(): nat {
      numStarts + W128 - 1
    }

    predicate WellFormed() {
      0 < numStarts && WellShaped(segments, NumSlots(), W128, r)
    }
  }

  function RawSeed(ordinal: nat): Bits32 {
    OrdinalToRawSeed(WordOfNat(ordinal, 32))
  }

  /** The seed's whole system is solvable in all 32 result columns. */
  ghost predicate SeedSolves(n: nat, keys: set<Bits64>, ordinal: nat)
    requires W128 <= n
  {
    Solvable(EquationSet(Hashed(RawSeed(ordinal), n - W128 + 1), keys), n)
  }

  lemma KeySetInside(n: nat, keys: set<Bits64>, rawSeed: Bits32)
    requires W128 <= n && n % W128 == 0
    ensures Inside(EquationSet(Hashed(rawSeed, n - W128 + 1), keys), W128, n)
  {
    var s := EquationSet(Hashed(rawSeed, n - W128 + 1), keys);
    forall e | e in s ensures EquationValid(e, W128, n) {
      var k :| k in keys && e == KeyEquation(rawSeed, n - W128 + 1, k);
      KeyEquationValid(rawSeed, n, k);
    }
  }

  /** Back-substitution loads the stored result row of every slot, empty ones included, whose
      slots come out zero in all 32 columns. */
  lemma EmptySlotsZero(m: Matrix, i: nat)
    requires Valid(m, W128, |m.coeff|) && i < |m.coeff|
    ensures Load(m, NoFill, i) == m.result[i]
    ensures IsZero(m.coeff[i]) ==> BackSolve(m, NoFill)[i] == seq(32, _ => false)
  {
    hide BackSolve, Dot;
    SolveSlot(m, W128, NoFill, i);
    IsZero32(m.result[i]);
    assert IsZero(seq(32, _ => false));
    IsZero32(seq(32, _ => false));
  }

  /** The filter for one solving seed. */
  ghost function SeedFilter(r: nat, n: nat, keys: set<Bits64>, ordinal: nat): (soln: Solution128)
    requires Shape(W128, r) && W128 <= n && n % W128 == 0 && SeedSolves(n, keys, ordinal)
  {
    KeySetInside(n, keys, RawSeed(ordinal));
    Solution128(r, Encoded(EquationSet(Hashed(RawSeed(ordinal), n - W128 + 1), keys), W128, n, NoFill, r),
                n - W128 + 1, RawSeed(ordinal), WordOfNat(ordinal, 32))
  }

  lemma SeedFilterWellFormed(r: nat, n: nat, keys: set<Bits64>, ordinal: nat)
    requires Shape(W128, r) && W128 <= n && n % W128 == 0 && SeedSolves(n, keys, ordinal)
    ensures var soln := SeedFilter(r, n, keys, ordinal);
      soln.WellFormed() && soln.r == r && soln.numStarts == n - W128 + 1
      && soln.rawSeed == RawSeed(ordinal) && soln.ordinalSeed == WordOfNat(ordinal, 32)
  {
    hide EquationSet, Inside, Solvable, Encoded, RawSeed;
    KeySetInside(n, keys, RawSeed(ordinal));
    EncodedShape(EquationSet(Hashed(RawSeed(ordinal), n - W128 + 1), keys), W128, n, NoFill, r);
  }

  ghost function Attempts(n: nat, keys: set<Bits64>): nat -> bool
    requires W128 <= n
  {
    (o: nat) => SeedSolves(n, keys, o)
  }

  /** The least solving ordinal seed, among the seeds tried. */
  ghost function LeastSeed(n: nat, keys: set<Bits64>): (o: Option<nat>)
    requires W128 <= n
  {
    Least(Attempts(n, keys), 0, SEED_COUNT)
  }

  lemma LeastSeedMeaning(n: nat, keys: set<Bits64>)
    requires W128 <= n
    ensures match LeastSeed(n, keys)
      case None => forall p: nat :: p < SEED_COUNT ==> !SeedSolves(n, keys, p)
      case Some(o) => o < SEED_COUNT && SeedSolves(n, keys, o) && forall p: nat :: p < o ==> !SeedSolves(n, keys, p)
  {
    hide SeedSolves;
    assert forall p: nat :: SeedSolves(n, keys, p) == Attempts(n, keys)(p);
    LeastIsLeast(Attempts(n, keys), 0, SEED_COUNT);
  }

  /** The filter of a set of keys, without reference to how it is built: none when no seed in
      range solves, otherwise that of the least seed that does. */
  ghost function Filter(r: nat, n: nat, keys: set<Bits64>): (soln: Option<Solution128>)
    requires Shape(W128, r) && W128 <= n && n % W128 == 0
  {
    LeastSeedMeaning(n, keys);
    match LeastSeed(n, keys)
    case None => None
    case Some(o) => Some(SeedFilter(r, n, keys, o))
  }

  /** One attempt: feeding the keys under a seed succeeds exactly when the seed solves, and then
      the matrix stores the seed's whole system. */
  lemma AttemptMeaning(m: Matrix, n: nat, list: seq<Bits64>, keys: set<Bits64>, ordinal: nat, ok: bool)
    requires W128 <= n && n % W128 == 0 && keys == KeysOf(list)
    requires Loopable(Empty(n, W128), W128)
    requires Feedable(EquationsOf(Hashed(RawSeed(ordinal), n - W128 + 1), list), W128, 0)
    requires FeedAll(Empty(n, W128), W128, 0, EquationsOf(Hashed(RawSeed(ordinal), n - W128 + 1), list))
         == Run(m, [], ok)
    ensures |m.coeff| == |m.result| == n
    ensures ok <==> SeedSolves(n, keys, ordinal)
    ensures ok ==> Represents(m, W128, EquationSet(Hashed(RawSeed(ordinal), n - W128 + 1), keys))
  {
    hide FeedAll, KeyEquation;
    var raw := RawSeed(ordinal);
    var eqs, s := EquationsOf(Hashed(raw, n - W128 + 1), list), EquationSet(Hashed(raw, n - W128 + 1), keys);
    KeyEquationsReady(raw, n, list);
    EquationsOfSet(Hashed(raw, n - W128 + 1), list);
    FedMeaning(m, W128, n, eqs, s, ok);
  }

  /** The seed's system is solvable in result column `j`. */
  ghost predicate SeedSolvesColumn(n: nat, keys: set<Bits64>, ordinal: nat, j: nat)
    requires W128 <= n
  {
    Columns.ColumnSolvable(EquationSet(Hashed(RawSeed(ordinal), n - W128 + 1), keys), n, j)
  }

  /** When an attempt is refused although all `r` columns a query reads could be solved: exactly
      when some column at or above `r` cannot. */
  lemma RefusedForUnusedColumns(m: Matrix, n: nat, list: seq<Bits64>, keys: set<Bits64>, ordinal: nat, ok: bool, r: nat)
    requires W128 <= n && n % W128 == 0 && keys == KeysOf(list) && r <= 32
    requires Loopable(Empty(n, W128), W128)
    requires Feedable(EquationsOf(Hashed(RawSeed(ordinal), n - W128 + 1), list), W128, 0)
    requires FeedAll(Empty(n, W128), W128, 0, EquationsOf(Hashed(RawSeed(ordinal), n - W128 + 1), list))
         == Run(m, [], ok)
    ensures ok <==> forall j :: 0 <= j < 32 ==> SeedSolvesColumn(n, keys, ordinal, j)
    ensures var used := forall j :: 0 <= j < r ==> SeedSolvesColumn(n, keys, ordinal, j);
      !ok && used <==> used && exists j :: r <= j < 32 && !SeedSolvesColumn(n, keys, ordinal, j)
  {
    hide FeedAll, EquationsOf, EquationSet, RawSeed, Columns.ColumnSolvable, Solvable;
    AttemptMeaning(m, n, list, keys, ordinal, ok);
    var s := EquationSet(Hashed(RawSeed(ordinal), n - W128 + 1), keys);
    Columns.SolvableByColumns(s, n);
    forall j | 0 <= j < 32 ensures Columns.ColumnSolvable(s, n, j) <==> SeedSolvesColumn(n, keys, ordinal, j) {
    }
  }

  lemma SolvedIsSeedFilter(m: Matrix, r: nat, n: nat, keys: set<Bits64>, ordinal: nat)
    requires Shape(W128, r) && W128 <= n && n % W128 == 0 && |m.coeff| == n
    requires Represents(m, W128, EquationSet(Hashed(RawSeed(ordinal), n - W128 + 1), keys))
    requires SeedSolves(n, keys, ordinal)
    ensures SeedFilter(r, n, keys, ordinal)
         == Solution128(r, Segments(BackSolve(m, NoFill), W128, r), n - W128 + 1,
                        RawSeed(ordinal), WordOfNat(ordinal, 32))
  {
    hide Represents, EquationSet, Inside, BackSolve, Segments;
    KeySetInside(n, keys, RawSeed(ordinal));
    EncodedUnique(m, W128, EquationSet(Hashed(RawSeed(ordinal), n - W128 + 1), keys), NoFill, r);
  }

  lemma LeastIsFilter(r: nat, n: nat, keys: set<Bits64>, ordinal: nat)
    requires Shape(W128, r) && W128 <= n && n % W128 == 0 && ordinal < SEED_COUNT
    requires SeedSolves(n, keys, ordinal) && forall p: nat :: p < ordinal ==> !SeedSolves(n, keys, p)
    ensures Filter(r, n, keys) == Some(SeedFilter(r, n, keys, ordinal))
  {
    hide SeedSolves, SeedFilter;
    LeastUnique(Attempts(n, keys), 0, SEED_COUNT, Some(ordinal));
  }

  /** The least seed that solves gives the filter. */
  lemma FoundIsFilter(m: Matrix, r: nat, n: nat, keys: set<Bits64>, ordinal: nat)
    requires Shape(W128, r) && W128 <= n && n % W128 == 0 && |m.coeff| == n && ordinal < SEED_COUNT
    requires Represents(m, W128, EquationSet(Hashed(RawSeed(ordinal), n - W128 + 1), keys))
    requires SeedSolves(n, keys, ordinal) && forall p: nat :: p < ordinal ==> !SeedSolves(n, keys, p)
    ensures Filter(r, n, keys)
         == Some(Solution128(r, Segments(BackSolve(m, NoFill), W128, r), n - W128 + 1,
                             RawSeed(ordinal), WordOfNat(ordinal, 32)))
  {
    SolvedIsSeedFilter(m, r, n, keys, ordinal);
    LeastIsFilter(r, n, keys, ordinal);
  }

  lemma NotFoundIsNone(r: nat, n: nat, keys: set<Bits64>)
    requires Shape(W128, r) && W128 <= n && n % W128 == 0
    requires forall p: nat :: p < SEED_COUNT ==> !SeedSolves(n, keys, p)
    ensures Filter(r, n, keys) == None
  {
    hide SeedSolves, SeedFilter;
    LeastUnique(Attempts(n, keys), 0, SEED_COUNT, None);
  }

  // ---------------------------------------------------------------- query

  /** Every column of the key's row has the parity the key's result row asks for. */
  ghost predicate Member(soln: Solution128, key: Bits64)
    requires soln.WellFormed()
  {
    var e := KeyEquation(soln.rawSeed, soln.numStarts, key);
    KeyEquationValid(soln.rawSeed, soln.NumSlots(), key);
    Matches(soln.segments, soln.NumSlots(), W128, soln.r, e.start, e.row, e.rhs)
  }

  /** No false negatives, for any seed that solves. */
  lemma NoFalseNegatives(r: nat, n: nat, keys: set<Bits64>, key: Bits64, ordinal: nat)
    requires Shape(W128, r) && W128 <= n && n % W128 == 0 && key in keys && SeedSolves(n, keys, ordinal)
    ensures SeedFilter(r, n, keys, ordinal).WellFormed()
    ensures Member(SeedFilter(r, n, keys, ordinal), key)
  {
    hide KeyEquation;
    var raw := RawSeed(ordinal);
    var s, e := EquationSet(Hashed(raw, n - W128 + 1), keys), KeyEquation(raw, n - W128 + 1, key);
    KeySetInside(n, keys, raw);
    KeyEquationValid(raw, n, key);
    EncodedMatches(s, W128, n, NoFill, r, e);
  }

  /** Whatever filter is returned answers yes for every key it was built from. */
  lemma FilterHasNoFalseNegatives(r: nat, n: nat, keys: set<Bits64>, key: Bits64)
    requires Shape(W128, r) && W128 <= n && n % W128 == 0 && key in keys && Filter(r, n, keys).Some?
    ensures Filter(r, n, keys).value.WellFormed() && Member(Filter(r, n, keys).value, key)
  {
    hide SeedFilter, SeedSolves, Member, EquationSet;
    LeastSeedMeaning(n, keys);
    NoFalseNegatives(r, n, keys, key, LeastSeed(n, keys).value);
  }

  /** No filter is returned exactly when none of the 64 seeds solves; otherwise the filter is that
      of the least seed that does. */
  lemma FilterSeed(r: nat, n: nat, keys: set<Bits64>)
    requires Shape(W128, r) && W128 <= n && n % W128 == 0
    ensures Filter(r, n, keys).None? <==> forall o: nat :: o < 64 ==> !SeedSolves(n, keys, o)
    ensures Filter(r, n, keys).Some? ==> exists o: nat ::
      o < 64 && SeedSolves(n, keys, o) && (forall p: nat :: p < o ==> !SeedSolves(n, keys, p))
      && Filter(r, n, keys).value == SeedFilter(r, n, keys, o)
  {
    hide SeedFilter, SeedSolves, LeastSeed;
    LeastSeedMeaning(n, keys);
    if LeastSeed(n, keys).Some? {
      var o := LeastSeed(n, keys).value;
      assert Filter(r, n, keys) == Some(SeedFilter(r, n, keys, o));
    }
  }

  /** The parity of a 128-bit word, taken after folding its halves. */
  function FoldedParity(v: Word): bool
    requires |v| == W128
  {
    Parity(Xor(v[..64], v[64..]))
  }

  lemma FoldKeepsParity(v: Word)
    requires |v| == W128
    ensures FoldedParity(v) == Parity(v)
  {
    ParityXor(v[..64], v[64..]);
    ParityConcat(v[..64], v[64..]);
    assert v[..64] + v[64..] == v;
  }

  /** The folded parity of the joined word of column `i`, with the blocks taken as slices. */
  lemma ColumnParity(segments: seq<Word>, n: nat, r: nat, startSlot: nat, cr: Word, i: nat,
                     seg: nat, startBit: nat, lo: seq<Word>, hi: seq<Word>)
    requires WellShaped(segments, n, W128, r) && startSlot + W128 <= n && |cr| == W128 && i < r
    requires seg == startSlot / W128 * r && startBit == startSlot % W128
    requires var maybe := if startBit != 0 then r else 0;
      seg + maybe + r <= |segments| && lo == segments[seg..seg + r] && hi == segments[seg + maybe..seg + maybe + r]
    ensures FoldedParity(Or(And(lo[i], Shl(cr, startBit)), And(hi[i], Shr(cr, (W128 - startBit) % W128))))
         == Parity(And(SlotWindow(segments, n, W128, r, startSlot, i), cr))
  {
    hide Parity, FoldedParity, And, Or, Shl, Shr, SlotWindow;
    QueryRefines(segments, n, W128, r, startSlot, cr, i);
    assert lo[i] == segments[LowIndex(startSlot, W128, r, i)];
    assert hi[i] == segments[HighIndex(startSlot, W128, r, i)];
    FoldKeepsParity(Or(And(lo[i], Shl(cr, startBit)), And(hi[i], Shr(cr, (W128 - startBit) % W128))));
  }

  /** The column loop of a query, over the two blocks taken as slices. */
  method Probe(segments: seq<Word>, ghost n: nat, r: nat, startSlot: nat, cr: Word, expected: Bits32)
    returns (present: bool)
    requires WellShaped(segments, n, W128, r) && startSlot + W128 <= n && |cr| == W128
    ensures present <==> Matches(segments, n, W128, r, startSlot, cr, expected)
  {
    hide Parity, FoldedParity, And, Or, Shl, Shr, SlotWindow;
    var seg := startSlot / W128 * r;
    var startBit := startSlot % W128;
    var crLeft := Shl(cr, startBit);
    var crRight := Shr(cr, (W128 - startBit) % W128);
    var maybe := if startBit != 0 then r else 0;
    QueryBounds(segments, n, W128, r, startSlot);
    var lo := segments[seg..seg + r];
    var hi := segments[seg + maybe..seg + maybe + r];
    for i := 0 to r
      invariant forall j :: 0 <= j < i ==>
        Parity(And(SlotWindow(segments, n, W128, r, startSlot, j), cr)) == expected[j]
    {
      ColumnParity(segments, n, r, startSlot, cr, i, seg, startBit, lo, hi);
      var word := Or(And(lo[i], crLeft), And(hi[i], crRight));
      if FoldedParity(word) != expected[i] {
        return false;
      }
    }
    return true;
  }

  method Contains(soln: Solution128, key: Bits64) returns (present: bool)
    requires soln.WellFormed()
    ensures present <==> Member(soln, key)
  {
    KeyEquationValid(soln.rawSeed, soln.NumSlots(), key);
    var h := RibbonHash(key, Extend(soln.rawSeed, 64));
    present := Probe(soln.segments, soln.NumSlots(), soln.r, Start(h, soln.numStarts), CoeffRow128(h), ResultRow(h));
  }

  // ---------------------------------------------------------------- the matrix

  class Banding128 {
    const r: nat
    const coeffRows: array<Word>
    const resultRows: array<Bits32>
    const numStarts: nat
    var rawSeed: Bits32
    var ordinalSeed: Bits32

    ghost function View(): Matrix
      reads coeffRows, resultRows
    {
      Matrix(coeffRows[..], resultRows[..])
    }

    ghost predicate Valid()
      reads coeffRows, resultRows
    {
      && Shape(W128, r)
      && coeffRows.Length % W128 == 0
      && coeffRows.Length == numStarts + W128 - 1 && 0 < numStarts
      && Band.Valid(View(), W128, coeffRows.Length)
    }

    constructor (numSlots: nat, r: nat)
      requires numSlots % W128 == 0 && W128 <= numSlots && Shape(W128, r)
      ensures Valid() && fresh(coeffRows) && fresh(resultRows)
      ensures this.r == r && numStarts == numSlots - W128 + 1
      ensures View() == Empty(numSlots, W128)
    {
      this.r := r;
      coeffRows := new Word[numSlots](_ => Zeros(W128));
      resultRows := new Bits32[numSlots](_ => ZERO32);
      numStarts := numSlots - W128 + 1;
      rawSeed := ZERO32;
      ordinalSeed := ZERO32;
      new;
      assert coeffRows[..] == seq(numSlots, _ => Zeros(W128));
      assert resultRows[..] == seq(numSlots, _ => ZERO32);
      EmptyValid(numSlots, W128);
    }

    /** Clears the matrix and ties the raw seed to the ordinal seed. */
    method Reset(ordinal: nat)
      requires Valid()
      modifies this, coeffRows, resultRows
      ensures Valid() && View() == Empty(coeffRows.Length, W128)
      ensures ordinalSeed == WordOfNat(ordinal, 32) && rawSeed == RawSeed(ordinal)
    {
      hide OrdinalToRawSeed, WordOfNat;
      for i := 0 to coeffRows.Length
        invariant forall k :: 0 <= k < i ==> coeffRows[k] == Zeros(W128)
      {
        coeffRows[i] := Zeros(W128);
      }
      for i := 0 to resultRows.Length
        invariant forall k :: 0 <= k < i ==> resultRows[k] == ZERO32
        invariant forall k :: 0 <= k < coeffRows.Length ==> coeffRows[k] == Zeros(W128)
      {
        resultRows[i] := ZERO32;
      }
      ordinalSeed := WordOfNat(ordinal, 32);
      rawSeed := OrdinalToRawSeed(ordinalSeed);
      assert coeffRows[..] == seq(coeffRows.Length, _ => Zeros(W128));
      assert resultRows[..] == seq(coeffRows.Length, _ => ZERO32);
      EmptyValid(coeffRows.Length, W128);
    }

    /** The reduction loop, once the key is hashed. */
    method Insert(start: nat, row: Word, rhs: Bits32) returns (ok: bool)
      requires Valid()
      requires RowReady(row, W128) && start + W128 <= coeffRows.Length
      modifies coeffRows, resultRows
      ensures Valid()
      ensures var o := Reduce(old(View()), W128, start, row, rhs);
        !o.Spilled? && View() == Apply(old(View()), o) && ok == !o.Inconsistent?
    {
      hide Xor, Shr, Ctz;
      var n := coeffRows.Length;
      ghost var m := View();
      ghost var o := Reduce(m, W128, start, row, rhs);
      assert Fits(row, start, n);
      ReducePlace(m, W128, n, start, row, rhs);
      var i, cr := start, row;
      var rr: Bits32 := rhs;
      while true
        invariant View() == m && RowReady(cr, W128) && Fits(cr, i, n)
        invariant Reduce(m, W128, i, cr, rr) == o
        decreases n - i
      {
        assert i + 0 < n;
        IterateFits(m, W128, n, i, cr, rr);
        var crAtI := coeffRows[i];
        if IsZero(crAtI) {
          coeffRows[i] := cr;
          resultRows[i] := rr;
          assert View() == Apply(m, o);
          return true;
        }
        cr := Xor(cr, crAtI);
        rr := Xor(rr, resultRows[i]);
        if IsZero(cr) {
          return IsZero(rr);
        }
        var tz := Ctz(cr);
        i := i + tz;
        cr := Shr(cr, tz);
      }
    }

    /** Reduces the key's row down the band; false means an inconsistent dependence. */
    method Add(key: Bits64) returns (ok: bool)
      requires Valid()
      modifies coeffRows, resultRows
      ensures Valid()
      ensures var e := KeyEquation(rawSeed, numStarts, key); var o := Reduce(old(View()), W128, e.start, e.row, e.rhs);
        !o.Spilled? && View() == Apply(old(View()), o) && ok == !o.Inconsistent?
    {
      KeyEquationValid(rawSeed, coeffRows.Length, key);
      var h := RibbonHash(key, Extend(rawSeed, 64));
      ok := Insert(Start(h, numStarts), CoeffRow128(h), ResultRow(h));
    }

    /** Adds keys until one is refused. */
    method AddWhileConsistent(keys: seq<Bits64>) returns (ok: bool)
      requires Valid()
      modifies coeffRows, resultRows
      ensures Valid()
      ensures Ready(EquationsOf(Hashed(rawSeed, numStarts), keys), W128, 0, coeffRows.Length)
      ensures FeedAll(old(View()), W128, 0, EquationsOf(Hashed(rawSeed, numStarts), keys)) == Run(View(), [], ok)
    {
      ghost var m, eqs := View(), EquationsOf(Hashed(rawSeed, numStarts), keys);
      KeyEquationsReady(rawSeed, coeffRows.Length, keys);
      for i := 0 to |keys|
        invariant Valid()
        invariant FeedAll(m, W128, 0, eqs[..i]) == Run(View(), [], true)
      {
        ghost var before := View();
        var accepted := Add(keys[i]);
        FeedNext(m, W128, eqs, i, before, eqs[i]);
        if !accepted {
          FailedPrefix(m, W128, 0, eqs, i + 1);
          return false;
        }
      }
      assert eqs[..|keys|] == eqs;
      return true;
    }

    method RollBlock(state: array<Word>, startSlot: nat)
      requires Valid() && state != coeffRows
      requires state.Length == r && startSlot + W128 <= coeffRows.Length
      requires Shows(state[..], View(), W128, NoFill, startSlot + W128)
      modifies state
      ensures Shows(state[..], View(), W128, NoFill, startSlot)
    {
      hide BackSolveFrom, Window, Roll;
      ghost var m := View();
      var i := startSlot + W128;
      while i > startSlot
        invariant startSlot <= i <= startSlot + W128
        invariant Shows(state[..], m, W128, NoFill, i)
      {
        i := i - 1;
        var cr := coeffRows[i];
        var rr := resultRows[i];
        IsZero32(rr);
        ghost var was := state[..];
        RollSlot(state, cr, rr);
        ShowsNext(was, state[..], m, W128, NoFill, i);
      }
    }

    /** One block: the state, carried over from the block above, rolls on and is stored. */
    method SolveBlock(segs: array<Word>, state: array<Word>, block: nat, startSlot: nat, ghost base: nat,
                      ghost numBlocks: nat)
      requires Valid() && state != coeffRows && segs != coeffRows && segs != state
      requires block < numBlocks && startSlot == block * W128 && base == block * r
      requires startSlot + W128 <= coeffRows.Length
      requires state.Length == r && segs.Length == numBlocks * r
      requires Shows(state[..], View(), W128, NoFill, startSlot + W128)
      requires Filled(segs[..], BackSolve(View(), NoFill), W128, r, base + r)
      modifies segs, state
      ensures Shows(state[..], View(), W128, NoFill, startSlot)
      ensures Filled(segs[..], BackSolve(View(), NoFill), W128, r, base)
    {
      ghost var m := View();
      RollBlock(state, startSlot);
      ghost var was := segs[..];
      StoreBlock(segs, state, block, numBlocks);
      FilledBlock(segs[..], was, state[..], m, W128, NoFill, block, startSlot, base);
    }

    /** Interleaved back-substitution with one rolling word per column. */
    method BackSubstitute() returns (data: seq<Word>)
      requires Valid()
      ensures data == Segments(BackSolve(View(), NoFill), W128, r)
    {
      hide SegmentOf, Segments, BackSolve, NoFill, Window;
      var n := coeffRows.Length;
      ghost var m := View();
      ghost var x := BackSolve(m, NoFill);
      var numBlocks := n / W128;
      DivMod(n, W128);
      var segs := new Word[numBlocks * r](_ => Zeros(W128));
      var state := new Word[r](_ => Zeros(W128));
      InitialState(state[..], m, W128, NoFill);
      var block := numBlocks;
      while block > 0
        invariant 0 <= block <= numBlocks
        invariant Shows(state[..], m, W128, NoFill, block * W128)
        invariant Filled(segs[..], x, W128, r, block * r)
      {
        MulStep(block - 1, numBlocks, W128);
        Distribute(block - 1, 1, W128);
        Distribute(block - 1, 1, r);
        block := block - 1;
        SolveBlock(segs, state, block, block * W128, block * r, numBlocks);
      }
      FilledAll(segs[..], x, W128, r);
      data := segs[..];
    }

    method IntoSolution() returns (soln: Solution128)
      requires Valid()
      ensures soln == Solution128(r, Segments(BackSolve(View(), NoFill), W128, r), numStarts, rawSeed, ordinalSeed)
    {
      var data := BackSubstitute();
      soln := Solution128(r, data, numStarts, rawSeed, ordinalSeed);
    }
  }
}
