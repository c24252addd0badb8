/** Solution sets. The occupied slots and the final solution are read off the set of equations
    alone, so neither depends on the order, the multiplicity or the builder that added them. */
module Solutions {
  import opened Words
  import opened Band

  ghost predicate Solves(s: set<Equation>, n: nat, x: seq<Bits32>) {
    |x| == n && forall e :: e in s ==> Sat(e, x)
  }

  /** All 32 columns at once: this is the consistency the standard family checks. */
  ghost predicate Solvable(s: set<Equation>, n: nat) {
    exists x :: Solves(s, n, x)
  }

  /** Slot `i` is free: the equations and the slots above `i` do not determine it. */
  ghost predicate Free(s: set<Equation>, n: nat, i: nat) {
    exists x, y :: Solves(s, n, x) && Solves(s, n, y) && i < n && AgreeFrom(x, y, i + 1) && x[i] != y[i]
  }

  /** `x` solves the equations and every free slot holds its prescribed fill. */
  ghost predicate Canonical(s: set<Equation>, n: nat, fill: nat -> Bits32, x: seq<Bits32>) {
    && Solves(s, n, x)
    && forall i :: 0 <= i < n && Free(s, n, i) ==> x[i] == fill(i)
  }

  /** At most one canonical solution exists: the highest slot in which two of them differed
      would be free, and so would hold its fill in both. */
  lemma CanonicalUnique(s: set<Equation>, n: nat, fill: nat -> Bits32, x: seq<Bits32>, y: seq<Bits32>)
    requires Canonical(s, n, fill, x) && Canonical(s, n, fill, y)
    ensures x == y
  {
    var i: nat := n;
    while i > 0
      invariant i <= n && AgreeFrom(x, y, i)
    {
      i := i - 1;
      if x[i] != y[i] {
        assert Free(s, n, i);
      }
    }
  }

  /** The matrix stores exactly the solutions of the equation set. */
  ghost predicate Represents(m: Matrix, w: nat, s: set<Equation>) {
    && Valid(m, w, |m.coeff|)
    && forall x :: |x| == |m.coeff| ==> (Sol(m, 0, x) <==> Solves(s, |m.coeff|, x))
  }

  lemma EmptyRepresents(n: nat, w: nat)
    requires w > 0
    ensures Represents(Empty(n, w), w, {})
  {
    forall x: seq<Bits32> ensures Sol(Empty(n, w), 0, x) {
      EmptySol(n, w, 0, x);
    }
  }

  /** Solutions of a matrix that agree on its empty slots from `i` up agree on all of them. */
  lemma {:induction false} SolAgree(m: Matrix, w: nat, x: seq<Bits32>, y: seq<Bits32>, i: nat)
    requires Valid(m, w, |m.coeff|) && i <= |m.coeff| == |x| == |y|
    requires Sol(m, 0, x) && Sol(m, 0, y)
    requires forall k :: i <= k < |x| && IsZero(m.coeff[k]) ==> x[k] == y[k]
    ensures AgreeFrom(x, y, i)
    decreases |m.coeff| - i
  {
    if i < |x| {
      SolAgree(m, w, x, y, i + 1);
      if !IsZero(m.coeff[i]) {
        DotPivot(m.coeff[i], i, x, y);
        assert Dot(m.coeff[i], 0 + i, x) == Dot(m.coeff[i], 0 + i, y);
        XorCancel(m.result[i], m.result[i]);
        XorCancel(x[i], y[i]);
      }
    }
  }

  function Flip(v: Bits32): (r: Bits32)
    ensures r != v
  {
    assert v[0 := !v[0]][0] != v[0];
    v[0 := !v[0]]
  }

  /** An empty slot can be changed in any solution without touching the slots above it. */
  lemma EmptySlotMoves(m: Matrix, w: nat, p: nat, y: seq<Bits32>) returns (x: seq<Bits32>)
    requires Valid(m, w, |m.coeff|) && p < |m.coeff| == |y| && IsZero(m.coeff[p]) && Sol(m, 0, y)
    ensures |x| == |y| && Sol(m, 0, x) && AgreeFrom(x, y, p + 1) && x[p] != y[p]
  {
    var fill: nat -> Bits32 := k => if k == p then Flip(y[p]) else At(y, k);
    x := BackSolve(m, fill);
    SolveSol(m, w, fill);
    forall k | 0 <= k < |x| && IsZero(m.coeff[k]) ensures x[k] == fill(k) {
      SolveSlot(m, w, fill, k);
    }
    SolAgree(m, w, x, y, p + 1);
    assert x[p] == fill(p) == Flip(y[p]);
  }

  /** Pivot invariance: the empty slots are exactly the free slots of the equation set. */
  lemma EmptyIffFree(m: Matrix, w: nat, s: set<Equation>, i: nat)
    requires Represents(m, w, s) && i < |m.coeff|
    ensures IsZero(m.coeff[i]) <==> Free(s, |m.coeff|, i)
  {
    var n := |m.coeff|;
    if IsZero(m.coeff[i]) {
      var y := BackSolve(m, _ => ZERO32);
      SolveSol(m, w, _ => ZERO32);
      var x := EmptySlotMoves(m, w, i, y);
      assert Solves(s, n, x) && Solves(s, n, y);
    } else if Free(s, n, i) {
      var x, y :| Solves(s, n, x) && Solves(s, n, y) && i < n && AgreeFrom(x, y, i + 1) && x[i] != y[i];
      assert Sol(m, 0, x) && Sol(m, 0, y);
      DotPivot(m.coeff[i], i, x, y);
      assert Dot(m.coeff[i], 0 + i, x) == Dot(m.coeff[i], 0 + i, y);
      XorCancel(m.result[i], m.result[i]);
      XorCancel(x[i], y[i]);
    }
  }

  function Occupied(m: Matrix): set<nat> {
    set i: nat | i < |m.coeff| && !IsZero(m.coeff[i])
  }

  /** Back-substitution of any matrix for the equations yields their canonical solution. */
  lemma SolveCanonical(m: Matrix, w: nat, s: set<Equation>, fill: nat -> Bits32)
    requires Represents(m, w, s)
    ensures Canonical(s, |m.coeff|, fill, BackSolve(m, fill))
  {
    SolveSol(m, w, fill);
    forall i | 0 <= i < |m.coeff| && Free(s, |m.coeff|, i) ensures BackSolve(m, fill)[i] == fill(i) {
      EmptyIffFree(m, w, s, i);
      SolveSlot(m, w, fill, i);
    }
  }

  lemma SameOccupied(m: Matrix, m': Matrix, w: nat, s: set<Equation>)
    requires Represents(m, w, s) && Represents(m', w, s) && |m.coeff| == |m'.coeff|
    ensures Occupied(m) == Occupied(m')
  {
    hide Represents, Free;
    forall i | 0 <= i < |m.coeff| ensures IsZero(m.coeff[i]) <==> IsZero(m'.coeff[i]) {
      EmptyIffFree(m, w, s, i);
      EmptyIffFree(m', w, s, i);
    }
  }

  /** Two matrices for the same equations have the same occupied slots, hence the same rank,
      and back-substitute to the same solution, although their stored rows may differ. */
  lemma SameEquationsSameSolution(m: Matrix, m': Matrix, w: nat, s: set<Equation>, fill: nat -> Bits32)
    requires Represents(m, w, s) && Represents(m', w, s) && |m.coeff| == |m'.coeff|
    ensures Occupied(m) == Occupied(m') && |Occupied(m)| == |Occupied(m')|
    ensures BackSolve(m, fill) == BackSolve(m', fill)
  {
    hide Canonical, Occupied;
    SameOccupied(m, m', w, s);
    SolveCanonical(m, w, s, fill);
    SolveCanonical(m', w, s, fill);
    CanonicalUnique(s, |m.coeff|, fill, BackSolve(m, fill), BackSolve(m', fill));
  }

  /** The solution of an equation set, named without reference to any elimination. */
  ghost function CanonicalSolution(s: set<Equation>, n: nat, fill: nat -> Bits32): (x: seq<Bits32>)
    requires exists x :: Canonical(s, n, fill, x)
    ensures Canonical(s, n, fill, x)
  {
    var x :| Canonical(s, n, fill, x);
    x
  }

  lemma PlacedExcludes(m: Matrix, w: nat, e: Equation, p: nat, c: Word, r: Bits32, y: seq<Bits32>)
    requires Valid(m, w, |m.coeff|) && EquationValid(e, w, |m.coeff|)
    requires Reduce(m, w, e.start, e.row, e.rhs) == Placed(p, c, r)
    requires |y| == |m.coeff| && Sol(m, 0, y) && Sat(e, y)
    ensures exists x :: |x| == |m.coeff| && Sol(m, 0, x) && !Sat(e, x)
  {
    hide Xor, Dot, Reduce;
    var x := EmptySlotMoves(m, w, p, y);
    ReduceSound(m, w, 0, e.start, e.row, e.rhs, x);
    ReduceSound(m, w, 0, e.start, e.row, e.rhs, y);
    DotPivot(c, p, x, y);
    XorCancel(x[p], y[p]);
    XorCancel(Dot(c, p, x), r);
    assert !Sat(e, x);
  }

  /** The exact meaning of adding one equation to a whole matrix. */
  lemma AddExact(m: Matrix, w: nat, e: Equation)
    requires Valid(m, w, |m.coeff|) && EquationValid(e, w, |m.coeff|)
    ensures var o := Reduce(m, w, e.start, e.row, e.rhs); var n := |m.coeff|;
      && !o.Spilled?
      && Valid(Apply(m, o), w, n)
      && (o.Inconsistent? <==> forall x :: |x| == n && Sol(m, 0, x) ==> !Sat(e, x))
      && (o.Redundant? <==> forall x :: |x| == n && Sol(m, 0, x) ==> Sat(e, x))
      && (Apply(m, o) == m <==> !o.Placed?)
      && (!o.Inconsistent? ==>
            forall x :: |x| == n ==> (Sol(Apply(m, o), 0, x) <==> Sol(m, 0, x) && Sat(e, x)))
  {
    var o, n := Reduce(m, w, e.start, e.row, e.rhs), |m.coeff|;
    assert Fits(e.row, e.start, n);
    ReducePlace(m, w, n, e.start, e.row, e.rhs);
    forall x: seq<Bits32> | |x| == n
      ensures !o.Inconsistent? ==> (Sol(Apply(m, o), 0, x) <==> Sol(m, 0, x) && Sat(e, x))
      ensures o.Inconsistent? ==> !(Sol(m, 0, x) && Sat(e, x))
    {
      AddMeaning(m, w, n, 0, e.start, e.row, e.rhs, x);
    }
    if !o.Inconsistent? {
      var y := BackSolve(Apply(m, o), _ => ZERO32);
      SolveSol(Apply(m, o), w, _ => ZERO32);
      assert Sol(m, 0, y) && Sat(e, y);
      if o.Placed? {
        PlacedExcludes(m, w, e, o.slot, o.row, o.rhs, y);
        assert Apply(m, o).coeff[o.slot] == o.row;
      }
    } else {
      SolveSol(m, w, _ => ZERO32);
    }
  }

  /** Adding an accepted equation a second time is accepted and changes nothing. */
  lemma ReaddIsNoOp(m: Matrix, w: nat, e: Equation)
    requires Valid(m, w, |m.coeff|) && EquationValid(e, w, |m.coeff|)
    ensures var o := Reduce(m, w, e.start, e.row, e.rhs); var m' := Apply(m, o);
      !o.Inconsistent? ==> Valid(m', w, |m.coeff|) && Reduce(m', w, e.start, e.row, e.rhs) == Redundant
  {
    hide Reduce;
    var o := Reduce(m, w, e.start, e.row, e.rhs);
    AddExact(m, w, e);
    if !o.Inconsistent? {
      AddExact(Apply(m, o), w, e);
    }
  }
}
