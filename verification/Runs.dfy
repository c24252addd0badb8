/** Feeding a list of equations to a slice of the matrix, in order. A whole matrix is the slice
    with base 0 and nothing beyond it; there, nothing ever spills. */
module Runs {
  import opened Words
  import opened Band
  import opened Solutions

  /** The slice afterwards, the equations that left it (in order), and whether every equation
      met so far was consistent. */
  datatype Run = Run(m: Matrix, spilled: seq<Equation>, ok: bool)

  /** What a list of equations must satisfy to be fed to a slice: they start inside it or above
      its base, and lie below `reach` slots counted from the base. */
  ghost predicate Ready(eqs: seq<Equation>, w: nat, base: nat, reach: nat) {
    forall e :: e in eqs ==> RowReady(e.row, w) && base <= e.start && e.start + w <= base + reach
  }

  lemma AllReady(eqs: seq<Equation>, w: nat, n: nat)
    requires forall i :: 0 <= i < |eqs| ==> EquationValid(eqs[i], w, n)
    ensures Ready(eqs, w, 0, n)
  {
  }

  ghost predicate Feedable(eqs: seq<Equation>, w: nat, base: nat) {
    forall e :: e in eqs ==> RowReady(e.row, w) && base <= e.start
  }

  lemma ReadyFeedable(eqs: seq<Equation>, w: nat, base: nat, reach: nat)
    requires Ready(eqs, w, base, reach)
    ensures Feedable(eqs, w, base)
  {
  }

  /** One equation fed to a run that is still going; a failed run is over. */
  ghost function Feed(r: Run, w: nat, base: nat, e: Equation): (r': Run)
    requires Loopable(r.m, w) && RowReady(e.row, w) && base <= e.start
    ensures Loopable(r'.m, w) && |r'.m.coeff| == |r.m.coeff|
  {
    if !r.ok then r
    else
      var o := Reduce(r.m, w, e.start - base, e.row, e.rhs);
      match o
      case Inconsistent => Run(r.m, r.spilled, false)
      case Spilled => Run(r.m, r.spilled + [e], true)
      case _ => Run(Apply(r.m, o), r.spilled, true)
  }

  ghost function FeedAll(m: Matrix, w: nat, base: nat, eqs: seq<Equation>): (r: Run)
    requires Loopable(m, w) && Feedable(eqs, w, base)
    ensures Loopable(r.m, w) && |r.m.coeff| == |m.coeff|
  {
    if |eqs| == 0 then Run(m, [], true)
    else Feed(FeedAll(m, w, base, eqs[..|eqs| - 1]), w, base, eqs[|eqs| - 1])
  }

  lemma FeedAllLast(m: Matrix, w: nat, base: nat, eqs: seq<Equation>, init: seq<Equation>)
    requires Loopable(m, w) && Feedable(eqs, w, base) && |eqs| > 0 && init == eqs[..|eqs| - 1]
    ensures eqs[|eqs| - 1] in eqs && Feedable(init, w, base)
    ensures FeedAll(m, w, base, eqs) == Feed(FeedAll(m, w, base, init), w, base, eqs[|eqs| - 1])
  {
  }

  /** One more equation of the list, on a run that has spilled nothing. */
  lemma FeedNext(m0: Matrix, w: nat, eqs: seq<Equation>, i: nat, m: Matrix, e: Equation)
    requires Loopable(m0, w) && Feedable(eqs, w, 0) && i < |eqs| && e == eqs[i]
    requires FeedAll(m0, w, 0, eqs[..i]) == Run(m, [], true)
    requires Loopable(m, w) && RowReady(e.row, w)
    ensures var o := Reduce(m, w, e.start, e.row, e.rhs);
      !o.Spilled? ==> FeedAll(m0, w, 0, eqs[..i + 1]) == Run(Apply(m, o), [], !o.Inconsistent?)
  {
    assert eqs[..i + 1][..i] == eqs[..i];
  }

  /** Feeding two lists in turn is feeding their concatenation. */
  lemma {:induction false} FeedAllConcat(m: Matrix, w: nat, a: seq<Equation>, b: seq<Equation>, mid: Matrix)
    requires Loopable(m, w) && Feedable(a, w, 0) && Feedable(b, w, 0) && Feedable(a + b, w, 0)
    requires FeedAll(m, w, 0, a) == Run(mid, [], true)
    ensures Loopable(mid, w) && FeedAll(m, w, 0, a + b) == FeedAll(mid, w, 0, b)
    decreases |b|
  {
    if |b| == 0 {
      assert a + b == a;
    } else {
      var init := b[..|b| - 1];
      assert (a + b)[..|a + b| - 1] == a + init;
      FeedAllConcat(m, w, a, init, mid);
    }
  }

  /** A refused prefix refuses the whole list, with the same matrix. */
  lemma {:induction false} FailedPrefix(m: Matrix, w: nat, base: nat, eqs: seq<Equation>, i: nat)
    requires Loopable(m, w) && Feedable(eqs, w, base) && i <= |eqs|
    requires !FeedAll(m, w, base, eqs[..i]).ok
    ensures FeedAll(m, w, base, eqs) == FeedAll(m, w, base, eqs[..i])
    decreases |eqs| - i
  {
    if i == |eqs| {
      assert eqs[..i] == eqs;
    } else {
      assert eqs[..i + 1][..i] == eqs[..i];
      FailedPrefix(m, w, base, eqs, i + 1);
    }
  }

  ghost predicate SatAll(eqs: seq<Equation>, x: seq<Bits32>) {
    forall e :: e in eqs ==> Sat(e, x)
  }

  lemma FeedMeaning(r: Run, w: nat, base: nat, reach: nat, e: Equation, x: seq<Bits32>)
    requires Valid(r.m, w, reach) && r.ok
    requires RowReady(e.row, w) && base <= e.start && e.start + w <= base + reach
    ensures var r' := Feed(r, w, base, e);
      && Valid(r'.m, w, reach)
      && (r'.ok ==> (Sol(r'.m, base, x) && SatAll(r'.spilled, x)
                     <==> Sol(r.m, base, x) && SatAll(r.spilled, x) && Sat(e, x)))
      && (!r'.ok ==> !(Sol(r.m, base, x) && Sat(e, x)))
      && (reach == |r.m.coeff| ==> r'.spilled == r.spilled)
  {
    hide Reduce, Dot, Sol, Iterate;
    ReducePlace(r.m, w, reach, e.start - base, e.row, e.rhs);
    AddMeaning(r.m, w, reach, base, e.start - base, e.row, e.rhs, x);
    var r' := Feed(r, w, base, e);
    if r'.ok && r'.spilled == r.spilled + [e] {
      assert e in r'.spilled;
      assert forall d :: d in r'.spilled <==> d in r.spilled || d == e;
    }
  }

  /** A run keeps the band invariant. While it goes, the equations it absorbed and the ones it
      spilled together say exactly what was fed; it fails only on an unsatisfiable list. */
  lemma {:induction false} FeedAllMeaning(m: Matrix, w: nat, base: nat, reach: nat, eqs: seq<Equation>, x: seq<Bits32>)
    requires Valid(m, w, reach) && Ready(eqs, w, base, reach)
    ensures var r := FeedAll(m, w, base, eqs);
      && Valid(r.m, w, reach)
      && (r.ok ==> (Sol(r.m, base, x) && SatAll(r.spilled, x) <==> Sol(m, base, x) && SatAll(eqs, x)))
      && (!r.ok ==> !(Sol(m, base, x) && SatAll(eqs, x)))
      && (reach == |m.coeff| ==> r.spilled == [])
      && (forall e :: e in r.spilled ==> e in eqs)
  {
    hide Reduce, Iterate, Sat, Sol, Dot;
    if |eqs| > 0 {
      var init, e := eqs[..|eqs| - 1], eqs[|eqs| - 1];
      assert eqs == init + [e];
      assert e in eqs;
      assert forall d :: d in eqs <==> d in init || d == e;
      FeedAllMeaning(m, w, base, reach, init, x);
      var p := FeedAll(m, w, base, init);
      if p.ok {
        FeedMeaning(p, w, base, reach, e, x);
      }
    }
  }

  ghost function Equations(eqs: seq<Equation>): set<Equation> {
    set e | e in eqs
  }

  /** The whole-matrix run: it succeeds exactly when the equations have a solution together with
      those already stored, and then the matrix stores exactly all of them. */
  lemma WholeRun(m: Matrix, w: nat, s: set<Equation>, eqs: seq<Equation>)
    requires Represents(m, w, s) && Ready(eqs, w, 0, |m.coeff|)
    ensures var r := FeedAll(m, w, 0, eqs); var n := |m.coeff|;
      && (r.ok <==> Solvable(s + Equations(eqs), n))
      && (r.ok ==> Represents(r.m, w, s + Equations(eqs)))
  {
    var r, n := FeedAll(m, w, 0, eqs), |m.coeff|;
    var all := s + Equations(eqs);
    forall x: seq<Bits32> | |x| == n
      ensures Valid(r.m, w, n)
      ensures r.ok ==> (Sol(r.m, 0, x) <==> Solves(all, n, x))
      ensures !r.ok ==> !Solves(all, n, x)
    {
      FeedAllMeaning(m, w, 0, n, eqs, x);
      assert Solves(all, n, x) <==> Solves(s, n, x) && SatAll(eqs, x) by {
        assert forall e :: e in all <==> e in s || e in eqs;
      }
    }
    var zero: seq<Bits32> := seq(n, _ => ZERO32);
    assert |zero| == n;
    if r.ok {
      SolveSol(r.m, w, _ => ZERO32);
      assert Solves(all, n, BackSolve(r.m, _ => ZERO32));
    }
  }

  lemma SameSolutions(m: Matrix, w: nat, s: set<Equation>, s': set<Equation>)
    requires Represents(m, w, s)
    requires forall x :: Solves(s, |m.coeff|, x) <==> Solves(s', |m.coeff|, x)
    ensures Represents(m, w, s')
  {
  }

  /** A finite set can be listed. */
  lemma Listing(s: set<Equation>) returns (eqs: seq<Equation>)
    ensures Equations(eqs) == s
  {
    if s == {} {
      eqs := [];
    } else {
      var e :| e in s;
      var rest := Listing(s - {e});
      eqs := rest + [e];
      assert forall d :: d in eqs <==> d in rest || d == e;
      assert forall d :: d in rest <==> d in Equations(rest);
    }
  }

  /** Every solvable set of equations inside the slots has a canonical solution. */
  lemma CanonicalExists(s: set<Equation>, w: nat, n: nat, fill: nat -> Bits32)
    requires w > 0 && Solvable(s, n)
    requires forall e :: e in s ==> EquationValid(e, w, n)
    ensures exists x :: Canonical(s, n, fill, x)
  {
    var eqs := Listing(s);
    assert forall e :: e in eqs ==> e in Equations(eqs);
    EmptyRepresents(n, w);
    WholeRun(Empty(n, w), w, {}, eqs);
    assert {} + Equations(eqs) == s;
    SolveCanonical(FeedAll(Empty(n, w), w, 0, eqs).m, w, s, fill);
  }

  /** Order independence of elimination: lists with the same equations are accepted or refused
      alike, and lead to the same occupied slots and the same back-substituted solution. */
  lemma OrderIndependence(a: seq<Equation>, b: seq<Equation>, w: nat, n: nat, fill: nat -> Bits32)
    requires w > 0 && Equations(a) == Equations(b)
    requires Ready(a, w, 0, n) && Ready(b, w, 0, n)
    ensures var ra, rb := FeedAll(Empty(n, w), w, 0, a), FeedAll(Empty(n, w), w, 0, b);
      && (ra.ok <==> rb.ok)
      && (ra.ok ==> Occupied(ra.m) == Occupied(rb.m) && BackSolve(ra.m, fill) == BackSolve(rb.m, fill))
  {
    hide FeedAll, Represents, Solvable, BackSolve, Occupied;
    EmptyRepresents(n, w);
    WholeRun(Empty(n, w), w, {}, a);
    WholeRun(Empty(n, w), w, {}, b);
    var ra, rb := FeedAll(Empty(n, w), w, 0, a), FeedAll(Empty(n, w), w, 0, b);
    if ra.ok {
      SameEquationsSameSolution(ra.m, rb.m, w, {} + Equations(a), fill);
    }
  }
}
