/** The segments that stand for a set of equations, and the least of a run of attempts. Both are
    stated for abstract equations and attempts; the two families supply theirs. */
module Encoding {
  import opened Words
  import opened Band
  import opened Solutions
  import opened Runs
  import opened Interleave
  import opened Options

  /** The keys of a list, without order and repetition. */
  ghost function KeysOf(list: seq<Bits64>): set<Bits64> {
    set k | k in list
  }

  function EquationsOf(eqOf: Bits64 -> Equation, keys: seq<Bits64>): (es: seq<Equation>)
    ensures |es| == |keys| && forall i :: 0 <= i < |keys| ==> es[i] == eqOf(keys[i])
  {
    seq(|keys|, i requires 0 <= i < |keys| => eqOf(keys[i]))
  }

  /** The equations of a set of keys: what a filter is built from, free of order and repetition. */
  ghost function EquationSet(eqOf: Bits64 -> Equation, keys: set<Bits64>): set<Equation> {
    set k | k in keys :: eqOf(k)
  }

  lemma EquationsOfSet(eqOf: Bits64 -> Equation, keys: seq<Bits64>)
    ensures Equations(EquationsOf(eqOf, keys)) == EquationSet(eqOf, KeysOf(keys))
  {
  }

  ghost predicate Inside(s: set<Equation>, w: nat, n: nat) {
    w > 0 && n % w == 0 && forall e :: e in s ==> EquationValid(e, w, n)
  }

  /** The segments of the canonical solution of `s`. */
  ghost function Encoded(s: set<Equation>, w: nat, n: nat, fill: nat -> Bits32, r: nat): (segs: seq<Word>)
    requires Shape(w, r) && Inside(s, w, n) && Solvable(s, n)
  {
    CanonicalExists(s, w, n, fill);
    Segments(CanonicalSolution(s, n, fill), w, r)
  }

  lemma SegmentsShape(x: seq<Bits32>, w: nat, r: nat)
    requires Shape(w, r) && |x| % w == 0
    ensures WellShaped(Segments(x, w, r), |x|, w, r)
  {
  }

  lemma EncodedShape(s: set<Equation>, w: nat, n: nat, fill: nat -> Bits32, r: nat)
    requires Shape(w, r) && Inside(s, w, n) && Solvable(s, n)
    ensures WellShaped(Encoded(s, w, n, fill, r), n, w, r)
  {
    CanonicalExists(s, w, n, fill);
    SegmentsShape(CanonicalSolution(s, n, fill), w, r);
  }

  /** Whatever matrix stores the equations of `s`, back-substitution encodes `s`. */
  lemma EncodedUnique(m: Matrix, w: nat, s: set<Equation>, fill: nat -> Bits32, r: nat)
    requires Shape(w, r) && Inside(s, w, |m.coeff|) && Represents(m, w, s)
    ensures Solvable(s, |m.coeff|)
    ensures Segments(BackSolve(m, fill), w, r) == Encoded(s, w, |m.coeff|, fill, r)
  {
    var n := |m.coeff|;
    SolveCanonical(m, w, s, fill);
    assert Solves(s, n, BackSolve(m, fill));
    CanonicalExists(s, w, n, fill);
    CanonicalUnique(s, n, fill, BackSolve(m, fill), CanonicalSolution(s, n, fill));
  }

  /** Feeding a list of the equations of `s` to an empty matrix: it succeeds exactly when `s` is
      solvable, and then the matrix stores `s`. */
  lemma FedMeaning(m: Matrix, w: nat, n: nat, eqs: seq<Equation>, s: set<Equation>, ok: bool)
    requires w > 0 && Ready(eqs, w, 0, n) && Equations(eqs) == s
    requires Loopable(Empty(n, w), w) && Feedable(eqs, w, 0)
    requires FeedAll(Empty(n, w), w, 0, eqs) == Run(m, [], ok)
    ensures |m.coeff| == |m.result| == n
    ensures ok <==> Solvable(s, n)
    ensures ok ==> Represents(m, w, s)
  {
    EmptyRepresents(n, w);
    WholeRun(Empty(n, w), w, {}, eqs);
    assert {} + Equations(eqs) == s;
  }

  /** A query for an equation of `s` matches, and any query answers for the canonical solution. */
  lemma EncodedMatches(s: set<Equation>, w: nat, n: nat, fill: nat -> Bits32, r: nat, e: Equation)
    requires Shape(w, r) && Inside(s, w, n) && Solvable(s, n) && EquationValid(e, w, n)
    ensures exists x :: Canonical(s, n, fill, x)
    ensures WellShaped(Encoded(s, w, n, fill, r), n, w, r)
    ensures Matches(Encoded(s, w, n, fill, r), n, w, r, e.start, e.row, e.rhs)
            <==> forall j :: 0 <= j < r ==> Dot(e.row, e.start, CanonicalSolution(s, n, fill))[j] == e.rhs[j]
    ensures e in s ==> Matches(Encoded(s, w, n, fill, r), n, w, r, e.start, e.row, e.rhs)
  {
    CanonicalExists(s, w, n, fill);
    MatchesMeaning(CanonicalSolution(s, n, fill), w, r, e);
  }

  /** The least attempt that succeeds, from `from` on and below `count`. */
  ghost function Least(succeeds: nat -> bool, from: nat, count: nat): (o: Option<nat>)
    decreases count - from
  {
    if count <= from then None
    else if succeeds(from) then Some(from)
    else Least(succeeds, from + 1, count)
  }

  ghost predicate IsLeast(succeeds: nat -> bool, from: nat, count: nat, o: Option<nat>) {
    match o
    case None => forall p :: from <= p < count ==> !succeeds(p)
    case Some(q) => from <= q < count && succeeds(q) && forall p :: from <= p < q ==> !succeeds(p)
  }

  lemma {:induction false} LeastIsLeast(succeeds: nat -> bool, from: nat, count: nat)
    ensures IsLeast(succeeds, from, count, Least(succeeds, from, count))
    decreases count - from
  {
    if from < count && !succeeds(from) {
      LeastIsLeast(succeeds, from + 1, count);
    }
  }

  lemma LeastUnique(succeeds: nat -> bool, from: nat, count: nat, o: Option<nat>)
    requires IsLeast(succeeds, from, count, o)
    ensures o == Least(succeeds, from, count)
  {
    LeastIsLeast(succeeds, from, count);
  }
}
