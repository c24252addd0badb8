/** The banded linear system over GF(2) that every builder eliminates.

    A slot holds a 32-bit value, one bit for each possible result column, so one equation here
    stands for 32 equations over GF(2) with the same coefficient row. The homogeneous family
    is the case in which every right-hand side is zero. */
module Band {
  import opened Words

  /** `row` covers slots `start .. start + |row|`; `rhs` is the wanted sum of the selected slots. */
  datatype Equation = Equation(start: nat, row: Word, rhs: Bits32)

  /** The matrix, or one contiguous slice of it: the stored row of each slot, all zero when the
      slot is empty. Row `i` of a slice with base `b` is an equation starting at slot `b + i`. */
  datatype Matrix = Matrix(coeff: seq<Word>, result: seq<Bits32>)

  // ---------------------------------------------------------------- inner products

  function At(x: seq<Bits32>, i: nat): Bits32 {
    if i < |x| then x[i] else ZERO32
  }

  function Term(b: bool, x: seq<Bits32>, i: nat): Bits32 {
    if b then At(x, i) else ZERO32
  }

  /** Sum (exclusive or) of the slots of `x` selected by `v`, with bit 0 of `v` on slot `i`. */
  function Dot(v: Word, i: nat, x: seq<Bits32>): Bits32 {
    if |v| == 0 then ZERO32 else Xor(Term(v[0], x, i), Dot(v[1..], i + 1, x))
  }

  lemma {:induction false} DotXor(a: Word, b: Word, i: nat, x: seq<Bits32>)
    requires |a| == |b|
    ensures Dot(Xor(a, b), i, x) == Xor(Dot(a, i, x), Dot(b, i, x))
  {
    if |a| > 0 {
      DotXor(a[1..], b[1..], i + 1, x);
      assert Xor(a, b)[1..] == Xor(a[1..], b[1..]);
      XorSwap(Term(a[0], x, i), Dot(a[1..], i + 1, x), Term(b[0], x, i), Dot(b[1..], i + 1, x));
      assert Term(Xor(a, b)[0], x, i) == Xor(Term(a[0], x, i), Term(b[0], x, i));
    }
  }

  lemma {:induction false} DotZero(v: Word, i: nat, x: seq<Bits32>)
    requires IsZero(v)
    ensures Dot(v, i, x) == ZERO32
  {
    if |v| > 0 {
      DotZero(v[1..], i + 1, x);
      XorZeros(ZERO32, ZERO32);
    }
  }

  lemma {:induction false} DotPadded(v: Word, t: nat, i: nat, x: seq<Bits32>)
    ensures Dot(v + Zeros(t), i, x) == Dot(v, i, x)
  {
    if |v| == 0 {
      assert v + Zeros(t) == Zeros(t);
      DotZero(Zeros(t), i, x);
    } else {
      DotPadded(v[1..], t, i + 1, x);
      assert (v + Zeros(t))[1..] == v[1..] + Zeros(t);
    }
  }

  lemma {:induction false} DotSkip(v: Word, t: nat, i: nat, x: seq<Bits32>)
    requires t <= |v| && IsZero(v[..t])
    ensures Dot(v, i, x) == Dot(v[t..], i + t, x)
  {
    if t > 0 {
      assert !v[..t][0];
      assert v[1..][..t - 1] == v[..t][1..];
      DotSkip(v[1..], t - 1, i + 1, x);
      assert v[1..][t - 1..] == v[t..];
      XorZeros(Dot(v[1..], i + 1, x), ZERO32);
    } else {
      assert v[t..] == v;
    }
  }

  /** Shifting out trailing zeros while advancing the slot keeps the equation. */
  lemma DotShift(v: Word, t: nat, i: nat, x: seq<Bits32>)
    requires t <= |v| && IsZero(v[..t])
    ensures Dot(Shr(v, t), i + t, x) == Dot(v, i, x)
  {
    DotSkip(v, t, i, x);
    DotPadded(v[t..], t, i + t, x);
  }

  ghost predicate AgreeFrom(x: seq<Bits32>, y: seq<Bits32>, i: nat) {
    |x| == |y| && forall k :: i <= k < |x| ==> x[k] == y[k]
  }

  lemma {:induction false} DotLocal(v: Word, i: nat, x: seq<Bits32>, y: seq<Bits32>)
    requires AgreeFrom(x, y, i)
    ensures Dot(v, i, x) == Dot(v, i, y)
  {
    if |v| > 0 {
      DotLocal(v[1..], i + 1, x, y);
    }
  }

  /** Two vectors that agree above slot `i` see a row with a set low bit differ by slot `i`. */
  lemma DotPivot(v: Word, i: nat, x: seq<Bits32>, y: seq<Bits32>)
    requires |v| > 0 && v[0] && AgreeFrom(x, y, i + 1) && i < |x|
    ensures Xor(Dot(v, i, x), Dot(v, i, y)) == Xor(x[i], y[i])
  {
    DotLocal(v[1..], i + 1, x, y);
    var d := Dot(v[1..], i + 1, x);
    XorSwap(x[i], d, y[i], d);
    XorCancel(d, d);
    XorZeros(Xor(x[i], y[i]), Xor(d, d));
  }

  // ---------------------------------------------------------------- the band invariant

  /** No set bit of `v`, placed at slot `i`, reaches slot `reach`. */
  predicate Fits(v: Word, i: nat, reach: nat) {
    forall k :: 0 <= k < |v| && v[k] ==> i + k < reach
  }

  predicate RowValid(c: Word, r: Bits32, i: nat, w: nat, reach: nat) {
    && |c| == w
    && (IsZero(c) ==> IsZero(r))
    && (!IsZero(c) ==> c[0] && Fits(c, i, reach))
  }

  /** Every stored row has width `w`, its low bit set, and its support below `reach` (counted
      from the first slot of the matrix); empty slots hold a zero result. */
  ghost predicate Valid(m: Matrix, w: nat, reach: nat) {
    && w > 0
    && |m.coeff| == |m.result| <= reach
    && forall i :: 0 <= i < |m.coeff| ==> RowValid(m.coeff[i], m.result[i], i, w, reach)
  }

  function Empty(n: nat, w: nat): (m: Matrix) {
    Matrix(seq(n, _ => Zeros(w)), seq(n, _ => ZERO32))
  }

  lemma EmptyValid(n: nat, w: nat)
    requires w > 0
    ensures Valid(Empty(n, w), w, n)
  {
  }

  /** What a caller must bring to elimination: a full-width row with its low bit set. */
  predicate RowReady(cr: Word, w: nat) {
    |cr| == w && w > 0 && cr[0]
  }

  /** An equation that lies inside `n` slots. */
  predicate EquationValid(e: Equation, w: nat, n: nat) {
    RowReady(e.row, w) && e.start + w <= n
  }

  // ---------------------------------------------------------------- elimination

  datatype Outcome =
    | Placed(slot: nat, row: Word, rhs: Bits32)  // became the stored row of an empty slot
    | Redundant                                // reduced to 0 = 0
    | Inconsistent                             // reduced to 0 = r with r not 0
    | Spilled                                  // left the slice

  datatype Turn = Halt(outcome: Outcome) | Next(i: nat, cr: Word, rr: Bits32)

  /** One turn of the reduction loop on row `cr` with right-hand side `rr` at slot `i`. */
  function Iterate(m: Matrix, w: nat, i: nat, cr: Word, rr: Bits32): (t: Turn)
    requires |m.coeff| == |m.result| && RowReady(cr, w)
    requires forall k :: 0 <= k < |m.coeff| ==> |m.coeff[k]| == w
    requires forall k :: 0 <= k < |m.coeff| && !IsZero(m.coeff[k]) ==> m.coeff[k][0]
    ensures t.Next? ==> i < t.i && i < |m.coeff| && RowReady(t.cr, w)
  {
    if i >= |m.coeff| then Halt(Spilled)
    else if IsZero(m.coeff[i]) then Halt(Placed(i, cr, rr))
    else
      var c := Xor(cr, m.coeff[i]);
      var r := Xor(rr, m.result[i]);
      if IsZero(c) then Halt(if IsZero(r) then Redundant else Inconsistent)
      else
        var tz := Ctz(c);
        assert !c[0];
        Next(i + tz, Shr(c, tz), r)
  }

  ghost predicate Loopable(m: Matrix, w: nat) {
    && |m.coeff| == |m.result|
    && (forall k :: 0 <= k < |m.coeff| ==> |m.coeff[k]| == w)
    && (forall k :: 0 <= k < |m.coeff| && !IsZero(m.coeff[k]) ==> m.coeff[k][0])
  }

  /** The reduction loop, run to its end. */
  ghost function Reduce(m: Matrix, w: nat, i: nat, cr: Word, rr: Bits32): (o: Outcome)
    requires Loopable(m, w) && RowReady(cr, w)
    ensures o.Placed? ==> i <= o.slot < |m.coeff| && IsZero(m.coeff[o.slot]) && RowReady(o.row, w)
    decreases if i < |m.coeff| then |m.coeff| - i else 0
  {
    match Iterate(m, w, i, cr, rr)
    case Halt(o) => o
    case Next(i', cr', rr') => Reduce(m, w, i', cr', rr')
  }

  /** The matrix after an outcome: only a placement changes it. */
  function Apply(m: Matrix, o: Outcome): Matrix
    requires |m.coeff| == |m.result|
    requires o.Placed? ==> o.slot < |m.coeff|
  {
    if o.Placed? then Matrix(m.coeff[o.slot := o.row], m.result[o.slot := o.rhs]) else m
  }

  // ---------------------------------------------------------------- solutions

  /** `x` satisfies every stored row of the slice `m` that begins at slot `base`. */
  ghost predicate Sol(m: Matrix, base: nat, x: seq<Bits32>)
    requires |m.coeff| == |m.result|
  {
    forall i :: 0 <= i < |m.coeff| ==> Dot(m.coeff[i], base + i, x) == m.result[i]
  }

  ghost predicate Sat(e: Equation, x: seq<Bits32>) {
    Dot(e.row, e.start, x) == e.rhs
  }

  lemma DotAllZero(w: nat, x: seq<Bits32>)
    ensures forall i: nat :: Dot(Zeros(w), i, x) == ZERO32
  {
    forall i: nat ensures Dot(Zeros(w), i, x) == ZERO32 {
      DotZero(Zeros(w), i, x);
    }
  }

  lemma EmptySol(n: nat, w: nat, base: nat, x: seq<Bits32>)
    ensures Sol(Empty(n, w), base, x)
  {
    DotAllZero(w, x);
  }

  lemma ValidLoopable(m: Matrix, w: nat, reach: nat)
    requires Valid(m, w, reach)
    ensures Loopable(m, w)
  {
  }

  /** What one turn preserves: on solutions of the stored rows, the row in hand means the same
      before and after, and a row that has reached zero has decided the question. */
  lemma IterateSound(m: Matrix, w: nat, base: nat, i: nat, cr: Word, rr: Bits32, x: seq<Bits32>)
    requires Loopable(m, w) && RowReady(cr, w) && Sol(m, base, x)
    ensures match Iterate(m, w, i, cr, rr)
      case Next(i', cr', rr') => Dot(cr', base + i', x) == rr' <==> Dot(cr, base + i, x) == rr
      case Halt(Placed(p, c, r)) => p == i && c == cr && r == rr
      case Halt(Redundant) => Dot(cr, base + i, x) == rr
      case Halt(Inconsistent) => Dot(cr, base + i, x) != rr
      case Halt(Spilled) => i >= |m.coeff|
  {
    hide Xor, Dot, Shr, Ctz;
    if i < |m.coeff| && !IsZero(m.coeff[i]) {
      var c, r := Xor(cr, m.coeff[i]), Xor(rr, m.result[i]);
      var d := Dot(cr, base + i, x);
      DotXor(cr, m.coeff[i], base + i, x);
      assert Dot(c, base + i, x) == Xor(d, m.result[i]);
      XorCancel(d, m.result[i]);
      XorCancel(rr, m.result[i]);
      if IsZero(c) {
        DotZero(c, base + i, x);
        XorCancel(Xor(d, m.result[i]), r);
        XorZeros(r, ZERO32);
      } else {
        DotShift(c, Ctz(c), base + i, x);
      }
    }
  }

  /** The support of the row in hand never reaches past `reach`. */
  lemma IterateFits(m: Matrix, w: nat, reach: nat, i: nat, cr: Word, rr: Bits32)
    requires Valid(m, w, reach) && RowReady(cr, w) && Fits(cr, i, reach)
    ensures var t := Iterate(m, w, i, cr, rr); t.Next? ==> Fits(t.cr, t.i, reach)
  {
    var t := Iterate(m, w, i, cr, rr);
    if t.Next? {
      var c := Xor(cr, m.coeff[i]);
      var tz := Ctz(c);
      assert Fits(c, i, reach);
      forall k | 0 <= k < |t.cr| && t.cr[k] ensures t.i + k < reach {
        assert k < w - tz && c[tz + k];
      }
    }
  }

  /** What an outcome says about whether `x` satisfied the row that was reduced. */
  ghost predicate Verdict(o: Outcome, base: nat, satisfied: bool, x: seq<Bits32>) {
    match o
    case Placed(p, c, r) => Dot(c, base + p, x) == r <==> satisfied
    case Redundant => satisfied
    case Inconsistent => !satisfied
    case Spilled => true
  }

  /** Reduction preserves the meaning of the row, for slices and whole matrices alike. */
  lemma {:induction false} ReduceSound(m: Matrix, w: nat, base: nat, i: nat, cr: Word, rr: Bits32, x: seq<Bits32>)
    requires Loopable(m, w) && RowReady(cr, w) && Sol(m, base, x)
    ensures Verdict(Reduce(m, w, i, cr, rr), base, Dot(cr, base + i, x) == rr, x)
    decreases if i < |m.coeff| then |m.coeff| - i else 0
  {
    hide Iterate, Dot, Xor, Sol;
    IterateSound(m, w, base, i, cr, rr, x);
    var t := Iterate(m, w, i, cr, rr);
    if t.Next? {
      ReduceSound(m, w, base, t.i, t.cr, t.rr, x);
    }
  }

  /** Where a reduction can end, and what keeps the band invariant. The row in hand never
      leaves `reach`, so a matrix that is as long as its reach never spills. */
  lemma {:induction false} ReducePlace(m: Matrix, w: nat, reach: nat, i: nat, cr: Word, rr: Bits32)
    requires Valid(m, w, reach) && RowReady(cr, w) && Fits(cr, i, reach)
    ensures var o := Reduce(m, w, i, cr, rr);
      && (o.Placed? ==> Fits(o.row, o.slot, reach))
      && Valid(Apply(m, o), w, reach)
      && (o.Spilled? ==> |m.coeff| < reach)
    decreases if i < |m.coeff| then |m.coeff| - i else 0
  {
    assert i + 0 < reach;
    IterateFits(m, w, reach, i, cr, rr);
    var t := Iterate(m, w, i, cr, rr);
    if t.Next? {
      ReducePlace(m, w, reach, t.i, t.cr, t.rr);
    }
  }

  lemma IsZero32(v: Bits32)
    ensures IsZero(v) <==> v == ZERO32
  {
  }

  /** Placing a row on an empty slot adds exactly that row's equation. */
  lemma PlaceSol(m: Matrix, w: nat, reach: nat, base: nat, p: nat, c: Word, r: Bits32, x: seq<Bits32>)
    requires Valid(m, w, reach) && p < |m.coeff| && IsZero(m.coeff[p])
    ensures Sol(Apply(m, Placed(p, c, r)), base, x) <==> Sol(m, base, x) && Dot(c, base + p, x) == r
  {
    var m' := Apply(m, Placed(p, c, r));
    DotZero(m.coeff[p], base + p, x);
    IsZero32(m.result[p]);
    if Sol(m', base, x) {
      assert Dot(m'.coeff[p], base + p, x) == m'.result[p];
      forall i | 0 <= i < |m.coeff| ensures Dot(m.coeff[i], base + i, x) == m.result[i] {
        if i != p {
          assert Dot(m'.coeff[i], base + i, x) == m'.result[i];
        }
      }
    }
  }

  /** The meaning of adding one equation to a slice: the solutions afterwards are the old ones
      that satisfy it; a spill or a refusal leaves the slice as it was. */
  lemma AddMeaning(m: Matrix, w: nat, reach: nat, base: nat, i: nat, cr: Word, rr: Bits32, x: seq<Bits32>)
    requires Valid(m, w, reach) && RowReady(cr, w) && Fits(cr, i, reach)
    ensures var o := Reduce(m, w, i, cr, rr);
      && (o.Placed? || o.Redundant? ==>
            (Sol(Apply(m, o), base, x) <==> Sol(m, base, x) && Dot(cr, base + i, x) == rr))
      && (o.Inconsistent? ==> !(Sol(m, base, x) && Dot(cr, base + i, x) == rr))
  {
    hide Reduce, Dot, Fits;
    var o := Reduce(m, w, i, cr, rr);
    ReducePlace(m, w, reach, i, cr, rr);
    if Sol(m, base, x) {
      ReduceSound(m, w, base, i, cr, rr, x);
    }
    if o.Placed? {
      PlaceSol(m, w, reach, base, o.slot, o.row, o.rhs, x);
    }
  }

  // ---------------------------------------------------------------- back-substitution, slot by slot

  /** The right-hand side that back-substitution loads for slot `i`. */
  function Load(m: Matrix, fill: nat -> Bits32, i: nat): Bits32
    requires i < |m.coeff| == |m.result|
  {
    if IsZero(m.coeff[i]) then fill(i) else m.result[i]
  }

  /** Slots `i ..` solved from the highest down; the slots below `i` are still zero. */
  function BackSolveFrom(m: Matrix, fill: nat -> Bits32, i: nat): (x: seq<Bits32>)
    requires i <= |m.coeff| == |m.result|
    ensures |x| == |m.coeff|
    decreases |m.coeff| - i
  {
    if i == |m.coeff| then seq(|m.coeff|, _ => ZERO32)
    else
      var t := BackSolveFrom(m, fill, i + 1);
      t[i := Xor(Load(m, fill, i), Dot(m.coeff[i], i, t))]
  }

  function BackSolve(m: Matrix, fill: nat -> Bits32): (x: seq<Bits32>)
    requires |m.coeff| == |m.result|
    ensures |x| == |m.coeff|
  {
    BackSolveFrom(m, fill, 0)
  }

  lemma {:induction false} SolveFromBelow(m: Matrix, fill: nat -> Bits32, i: nat)
    requires i <= |m.coeff| == |m.result|
    ensures forall k :: 0 <= k < i ==> BackSolveFrom(m, fill, i)[k] == ZERO32
    decreases |m.coeff| - i
  {
    if i < |m.coeff| {
      SolveFromBelow(m, fill, i + 1);
    }
  }

  /** Later (lower) slots do not disturb the slots already solved. */
  lemma {:induction false} SolveStable(m: Matrix, fill: nat -> Bits32, i: nat)
    requires i <= |m.coeff| == |m.result|
    ensures AgreeFrom(BackSolve(m, fill), BackSolveFrom(m, fill, i), i)
  {
    if i > 0 {
      SolveStable(m, fill, i - 1);
    }
  }

  /** Each slot of the solution, in terms of the whole solution: an empty slot holds its fill
      and an occupied one satisfies its row. */
  lemma SolveSlot(m: Matrix, w: nat, fill: nat -> Bits32, i: nat)
    requires Valid(m, w, |m.coeff|) && i < |m.coeff|
    ensures IsZero(m.coeff[i]) ==> BackSolve(m, fill)[i] == fill(i)
    ensures Dot(m.coeff[i], i, BackSolve(m, fill)) == m.result[i]
  {
    var x, t, c := BackSolve(m, fill), BackSolveFrom(m, fill, i + 1), m.coeff[i];
    SolveStable(m, fill, i);
    SolveFromBelow(m, fill, i + 1);
    if IsZero(c) {
      DotZero(c, i, t);
      DotZero(c, i, x);
      XorZeros(fill(i), ZERO32);
      IsZero32(m.result[i]);
    } else {
      var load, d := m.result[i], Dot(c, i, t);
      assert x[i] == Xor(load, d) && t[i] == ZERO32;
      DotPivot(c, i, x, t);
      XorZeros(x[i], t[i]);
      assert Xor(Dot(c, i, x), d) == Xor(load, d);
      XorCancel(Dot(c, i, x), d);
      XorCancel(load, d);
    }
  }

  /** Back-substitution always constructs a solution, whatever the fill. */
  lemma SolveSol(m: Matrix, w: nat, fill: nat -> Bits32)
    requires Valid(m, w, |m.coeff|)
    ensures Sol(m, 0, BackSolve(m, fill))
  {
    forall i | 0 <= i < |m.coeff| ensures Dot(m.coeff[i], 0 + i, BackSolve(m, fill)) == m.result[i] {
      SolveSlot(m, w, fill, i);
    }
  }
}
