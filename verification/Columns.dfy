/** Result columns, one at a time. A system is solvable in all 32 columns together exactly when
    it is solvable in each of them; a query reads only the low ones. */
module Columns {
  import opened Words
  import opened Band
  import opened Solutions
  import opened Runs

  ghost predicate SolvesColumn(s: set<Equation>, n: nat, j: nat, x: seq<Bits32>) {
    |x| == n && j < 32 && forall e :: e in s ==> Dot(e.row, e.start, x)[j] == e.rhs[j]
  }

  ghost predicate ColumnSolvable(s: set<Equation>, n: nat, j: nat) {
    exists x :: SolvesColumn(s, n, j, x)
  }

  /** A column of an inner product depends on that column of the slots only. */
  lemma {:induction false} DotColumn(v: Word, i: nat, x: seq<Bits32>, y: seq<Bits32>, j: nat)
    requires |x| == |y| && j < 32 && forall k :: 0 <= k < |x| ==> x[k][j] == y[k][j]
    ensures Dot(v, i, x)[j] == Dot(v, i, y)[j]
  {
    if |v| > 0 {
      DotColumn(v[1..], i + 1, x, y, j);
    }
  }

  ghost function ColumnSolution(s: set<Equation>, n: nat, j: nat): (x: seq<Bits32>)
    requires ColumnSolvable(s, n, j)
    ensures SolvesColumn(s, n, j, x)
  {
    var x :| SolvesColumn(s, n, j, x);
    x
  }

  /** Solutions of the single columns, side by side. */
  ghost function SideBySide(s: set<Equation>, n: nat): (x: seq<Bits32>)
    requires forall j :: 0 <= j < 32 ==> ColumnSolvable(s, n, j)
    ensures |x| == n
    ensures forall i, j :: 0 <= i < n && 0 <= j < 32 ==> x[i][j] == ColumnSolution(s, n, j)[i][j]
  {
    seq(n, i requires 0 <= i < n => seq(32, j requires 0 <= j < 32 => ColumnSolution(s, n, j)[i][j]))
  }

  /** Checking consistency on all 32 bits of the result row is checking each column. */
  lemma SolvableByColumns(s: set<Equation>, n: nat)
    ensures Solvable(s, n) <==> forall j :: 0 <= j < 32 ==> ColumnSolvable(s, n, j)
  {
    if x :| Solves(s, n, x) {
      forall j | 0 <= j < 32 ensures ColumnSolvable(s, n, j) {
        assert SolvesColumn(s, n, j, x);
      }
    }
    if forall j :: 0 <= j < 32 ==> ColumnSolvable(s, n, j) {
      var x := SideBySide(s, n);
      forall e | e in s ensures Sat(e, x) {
        forall j | 0 <= j < 32 ensures Dot(e.row, e.start, x)[j] == e.rhs[j] {
          DotColumn(e.row, e.start, x, ColumnSolution(s, n, j), j);
        }
      }
      assert Solves(s, n, x);
    }
  }

  // ---------------------------------------------------------------- small systems

  /** An equation that starts at an empty slot is placed there. */
  lemma EmptySlotTakes(r: Run, w: nat, e: Equation)
    requires Loopable(r.m, w) && r.ok && RowReady(e.row, w)
    requires e.start < |r.m.coeff| && IsZero(r.m.coeff[e.start])
    ensures Feed(r, w, 0, e) == Run(Apply(r.m, Placed(e.start, e.row, e.rhs)), r.spilled, true)
  {
  }

  lemma FeedOne(e: Equation, w: nat, n: nat)
    requires EquationValid(e, w, n)
    ensures FeedAll(Empty(n, w), w, 0, [e]) == Run(Apply(Empty(n, w), Placed(e.start, e.row, e.rhs)), [], true)
  {
    var none := Run(Empty(n, w), [], true);
    assert [e][..0] == [];
    assert FeedAll(Empty(n, w), w, 0, []) == none;
    EmptySlotTakes(none, w, e);
  }

  lemma FeedTwo(e: Equation, d: Equation, w: nat, n: nat)
    requires EquationValid(e, w, n) && EquationValid(d, w, n)
    ensures Loopable(Apply(Empty(n, w), Placed(e.start, e.row, e.rhs)), w)
    ensures FeedAll(Empty(n, w), w, 0, [e, d])
         == Feed(Run(Apply(Empty(n, w), Placed(e.start, e.row, e.rhs)), [], true), w, 0, d)
  {
    FeedOne(e, w, n);
    assert [e, d][..1] == [e];
  }

  /** A second row at an occupied slot: it is placed further down, at the first slot where the two
      rows differ, unless they are the same. */
  lemma SecondRow(e: Equation, d: Equation, w: nat, n: nat)
    requires EquationValid(e, w, n) && EquationValid(d, w, n) && e.start == d.start
    ensures var m := Apply(Empty(n, w), Placed(e.start, e.row, e.rhs));
      && Loopable(m, w)
      && var o := Reduce(m, w, d.start, d.row, d.rhs); var c := Xor(d.row, e.row);
         if e.row == d.row then o == if e.rhs == d.rhs then Redundant else Inconsistent
         else !IsZero(c) && 0 < Ctz(c) && e.start + Ctz(c) < n
              && o == Placed(e.start + Ctz(c), Shr(c, Ctz(c)), Xor(d.rhs, e.rhs))
  {
    var m := Apply(Empty(n, w), Placed(e.start, e.row, e.rhs));
    var c := Xor(d.row, e.row);
    XorCancel(d.row, e.row);
    XorCancel(d.rhs, e.rhs);
    if e.row != d.row {
      var t := Iterate(m, w, d.start, d.row, d.rhs);
      assert t == Next(e.start + Ctz(c), Shr(c, Ctz(c)), Xor(d.rhs, e.rhs));
      assert IsZero(m.coeff[t.i]);
    }
  }

  /** Two equations refuse each other only if they ask for different sums of the same slots. */
  lemma TwoRefuse(e: Equation, d: Equation, w: nat, n: nat)
    requires EquationValid(e, w, n) && EquationValid(d, w, n)
    ensures FeedAll(Empty(n, w), w, 0, [e, d]).ok <==> !(e.start == d.start && e.row == d.row && e.rhs != d.rhs)
  {
    FeedTwo(e, d, w, n);
    if e.start == d.start {
      SecondRow(e, d, w, n);
    } else {
      EmptySlotTakes(Run(Apply(Empty(n, w), Placed(e.start, e.row, e.rhs)), [], true), w, d);
    }
  }

  lemma FirstStays(e: Equation, d: Equation, w: nat, n: nat)
    requires EquationValid(e, w, n) && EquationValid(d, w, n) && e.start == d.start
    ensures var m := FeedAll(Empty(n, w), w, 0, [e, d]).m;
      e.start < |m.coeff| == |m.result| && m.coeff[e.start] == e.row && m.result[e.start] == e.rhs
  {
    FeedTwo(e, d, w, n);
    SecondRow(e, d, w, n);
  }

  /** The stored rows of two equations depend on their order exactly when they are different and
      start at the same slot: whichever comes first keeps it. */
  lemma TwoOrders(e: Equation, d: Equation, w: nat, n: nat)
    requires EquationValid(e, w, n) && EquationValid(d, w, n)
    ensures FeedAll(Empty(n, w), w, 0, [e, d]).m != FeedAll(Empty(n, w), w, 0, [d, e]).m
            <==> e.start == d.start && e != d
  {
    FeedTwo(e, d, w, n);
    FeedTwo(d, e, w, n);
    if e.start == d.start {
      FirstStays(e, d, w, n);
      FirstStays(d, e, w, n);
    } else {
      EmptySlotTakes(Run(Apply(Empty(n, w), Placed(e.start, e.row, e.rhs)), [], true), w, d);
      EmptySlotTakes(Run(Apply(Empty(n, w), Placed(d.start, d.row, d.rhs)), [], true), w, e);
    }
  }

  /** A reduction that finds every slot above its own empty ends there or one jump further. */
  lemma LastRow(m: Matrix, w: nat, i: nat, cr: Word, rr: Bits32)
    requires Valid(m, w, |m.coeff|) && RowReady(cr, w) && Fits(cr, i, |m.coeff|) && i < |m.coeff|
    requires forall k :: i < k < |m.coeff| ==> IsZero(m.coeff[k])
    ensures Reduce(m, w, i, cr, rr).Inconsistent? <==> m.coeff[i] == cr && m.result[i] != rr
  {
    hide Xor, Shr, Ctz;
    XorCancel(cr, m.coeff[i]);
    XorCancel(rr, m.result[i]);
    IterateFits(m, w, |m.coeff|, i, cr, rr);
    var t := Iterate(m, w, i, cr, rr);
    if t.Next? {
      assert t.i + 0 < |m.coeff|;
    }
  }

  /** Two equations at one slot and a third at a later one whose three rows sum to zero. */
  ghost predicate ThreeRows(e1: Equation, e2: Equation, e3: Equation, w: nat)
    requires |e1.row| == |e2.row| == |e3.row| == w
  {
    && e1.start == e2.start < e3.start <= e1.start + w
    && IsZero(Xor(e1.row, e2.row)[..e3.start - e1.start])
    && Shr(Xor(e1.row, e2.row), e3.start - e1.start) == e3.row
  }

  lemma CtzUnique(v: Word, k: nat)
    requires k < |v| && v[k] && IsZero(v[..k])
    ensures !IsZero(v) && Ctz(v) == k
  {
    var t := Ctz(v);
    assert forall j :: 0 <= j < t ==> v[..t][j] == v[j];
    assert forall j :: 0 <= j < k ==> v[..k][j] == v[j];
  }

  /** Words are determined by what is left once their trailing zeros are shifted out. */
  lemma ShrInjective(a: Word, b: Word, t: nat)
    requires |a| == |b| && t <= |a| && IsZero(a[..t]) && IsZero(b[..t]) && Shr(a, t) == Shr(b, t)
    ensures a == b
  {
    forall k | 0 <= k < |a| ensures a[k] == b[k] {
      if k < t {
        assert !a[..t][k] && !b[..t][k];
      } else {
        assert Shr(a, t)[k - t] == Shr(b, t)[k - t];
      }
    }
  }

  /** No two of the equations give the same sum of the same slots, or only once. */
  ghost predicate Apart(e: Equation, d: Equation) {
    e.start != d.start || e.row != d.row
  }

  /** The matrix of two stored rows. */
  ghost function Stored(e: Equation, p: nat, row: Word, rhs: Bits32, w: nat, n: nat): (m: Matrix)
    requires e.start < n && p < n
  {
    Apply(Apply(Empty(n, w), Placed(e.start, e.row, e.rhs)), Placed(p, row, rhs))
  }

  lemma StoredValid(e: Equation, p: nat, row: Word, rhs: Bits32, w: nat, n: nat)
    requires EquationValid(e, w, n) && e.start < p < n && RowReady(row, w) && Fits(row, p, n)
    ensures var m := Stored(e, p, row, rhs, w, n);
      && Valid(m, w, n) && Loopable(m, w) && |m.coeff| == n
      && m.coeff[e.start] == e.row && m.result[e.start] == e.rhs && m.coeff[p] == row && m.result[p] == rhs
      && forall k :: 0 <= k < n ==> (IsZero(m.coeff[k]) <==> k != e.start && k != p)
  {
  }

  lemma ThreeSpread(e1: Equation, e2: Equation, e3: Equation, w: nat, n: nat)
    requires EquationValid(e1, w, n) && EquationValid(e2, w, n) && EquationValid(e3, w, n)
    requires e1.start < e2.start <= e3.start && Apart(e2, e3)
    ensures FeedAll(Empty(n, w), w, 0, [e1, e2, e3]).ok
  {
    hide Reduce, FeedAll, Valid;
    var r := FeedAll(Empty(n, w), w, 0, [e1, e2]);
    FeedTwo(e1, e2, w, n);
    EmptySlotTakes(Run(Apply(Empty(n, w), Placed(e1.start, e1.row, e1.rhs)), [], true), w, e2);
    StoredValid(e1, e2.start, e2.row, e2.rhs, w, n);
    FeedAllLast(Empty(n, w), w, 0, [e1, e2, e3], [e1, e2]);
    if e2.start < e3.start {
      EmptySlotTakes(r, w, e3);
    } else {
      LastRow(r.m, w, e3.start, e3.row, e3.rhs);
    }
  }

  /** The matrix of two equations at one slot: the second row is stored where it first differs
      from the first one. */
  lemma TwoAtOne(e: Equation, d: Equation, w: nat, n: nat)
    requires EquationValid(e, w, n) && EquationValid(d, w, n) && e.start == d.start && e.row != d.row
    ensures var c := Xor(d.row, e.row);
      && !IsZero(c) && 0 < Ctz(c) && e.start + Ctz(c) < n
      && RowReady(Shr(c, Ctz(c)), w) && Fits(Shr(c, Ctz(c)), e.start + Ctz(c), n)
      && FeedAll(Empty(n, w), w, 0, [e, d])
         == Run(Stored(e, e.start + Ctz(c), Shr(c, Ctz(c)), Xor(d.rhs, e.rhs), w, n), [], true)
  {
    FeedTwo(e, d, w, n);
    SecondRow(e, d, w, n);
    var m := Apply(Empty(n, w), Placed(e.start, e.row, e.rhs));
    assert Valid(m, w, n);
    assert Fits(d.row, d.start, n);
    ReducePlace(m, w, n, d.start, d.row, d.rhs);
  }

  /** The first turn of a third equation at an occupied slot. */
  lemma ThirdTurn(m: Matrix, w: nat, e: Equation, d: Equation)
    requires Loopable(m, w) && RowReady(d.row, w) && e.start == d.start < |m.coeff|
    requires m.coeff[e.start] == e.row && m.result[e.start] == e.rhs && |e.row| == w && e.row[0] && e.row != d.row
    ensures var c := Xor(d.row, e.row);
      && !IsZero(c)
      && RowReady(Shr(c, Ctz(c)), w)
      && Reduce(m, w, d.start, d.row, d.rhs) == Reduce(m, w, d.start + Ctz(c), Shr(c, Ctz(c)), Xor(d.rhs, e.rhs))
  {
    hide Xor, Shr, Ctz;
    XorCancel(d.row, e.row);
    var t := Iterate(m, w, d.start, d.row, d.rhs);
    assert t.Next?;
  }

  /** Three equations at one slot. */
  lemma ThreeAtOne(e1: Equation, e2: Equation, e3: Equation, w: nat, n: nat)
    requires EquationValid(e1, w, n) && EquationValid(e2, w, n) && EquationValid(e3, w, n)
    requires e1.start == e2.start == e3.start && Apart(e1, e2) && Apart(e2, e3) && Apart(e1, e3)
    ensures FeedAll(Empty(n, w), w, 0, [e1, e2, e3]).ok
  {
    hide FeedAll, Valid, Xor, Shr, Ctz, Stored, Fits;
    var s, c, d := e1.start, Xor(e2.row, e1.row), Xor(e3.row, e1.row);
    TwoAtOne(e1, e2, w, n);
    TwoAtOne(e1, e3, w, n);
    var t, u := Ctz(c), Ctz(d);
    StoredValid(e1, s + t, Shr(c, t), Xor(e2.rhs, e1.rhs), w, n);
    var m := FeedAll(Empty(n, w), w, 0, [e1, e2]).m;
    FeedAllLast(Empty(n, w), w, 0, [e1, e2, e3], [e1, e2]);
    ThirdTurn(m, w, e1, e3);
    if u == t {
      LastRow(m, w, s + u, Shr(d, u), Xor(e3.rhs, e1.rhs));
      if Shr(c, t) == Shr(d, t) {
        ShrInjective(c, d, t);
        XorCancel(e2.row, e1.row);
        XorCancel(e3.row, e1.row);
      }
    }
  }

  /** Two equations at one slot and a third at a later one: refused exactly when their rows sum to
      zero and their right-hand sides do not. */
  lemma ThreeTwoOne(e1: Equation, e2: Equation, e3: Equation, w: nat, n: nat)
    requires EquationValid(e1, w, n) && EquationValid(e2, w, n) && EquationValid(e3, w, n)
    requires e1.start == e2.start < e3.start && Apart(e1, e2)
    ensures FeedAll(Empty(n, w), w, 0, [e1, e2, e3]).ok
            <==> !(ThreeRows(e1, e2, e3, w) && Xor(e1.rhs, e2.rhs) != e3.rhs)
  {
    hide FeedAll, Valid, Xor, Stored, Reduce, Iterate, Dot;
    var s, c := e1.start, Xor(e2.row, e1.row);
    TwoAtOne(e1, e2, w, n);
    var t := Ctz(c);
    StoredValid(e1, s + t, Shr(c, t), Xor(e2.rhs, e1.rhs), w, n);
    var r := FeedAll(Empty(n, w), w, 0, [e1, e2]);
    FeedAllLast(Empty(n, w), w, 0, [e1, e2, e3], [e1, e2]);
    XorComm(e1.row, e2.row);
    XorComm(e1.rhs, e2.rhs);
    if e3.start == s + t {
      LastRow(r.m, w, e3.start, e3.row, e3.rhs);
    } else {
      EmptySlotTakes(r, w, e3);
      if ThreeRows(e1, e2, e3, w) {
        var k := e3.start - s;
        assert k < w ==> Shr(c, k)[0] == c[k];
        CtzUnique(c, k);
      }
    }
  }

  /** Three equations, taken by their starts, that no two of them rule out: refused exactly when
      their rows sum to zero and their right-hand sides do not. */
  lemma ThreeRefuse(e1: Equation, e2: Equation, e3: Equation, w: nat, n: nat)
    requires EquationValid(e1, w, n) && EquationValid(e2, w, n) && EquationValid(e3, w, n)
    requires e1.start <= e2.start <= e3.start && Apart(e1, e2) && Apart(e2, e3) && Apart(e1, e3)
    ensures FeedAll(Empty(n, w), w, 0, [e1, e2, e3]).ok
            <==> !(ThreeRows(e1, e2, e3, w) && Xor(e1.rhs, e2.rhs) != e3.rhs)
  {
    hide FeedAll, Xor, Shr;
    if e1.start < e2.start {
      ThreeSpread(e1, e2, e3, w, n);
    } else if e2.start < e3.start {
      ThreeTwoOne(e1, e2, e3, w, n);
    } else {
      ThreeAtOne(e1, e2, e3, w, n);
    }
  }

  // ---------------------------------------------------------------- four rows that sum to zero

  /** Two equations at one slot and two at the next whose four rows sum to zero. */
  ghost predicate FourRows(e1: Equation, e2: Equation, e3: Equation, e4: Equation, w: nat, n: nat) {
    && EquationValid(e1, w, n) && EquationValid(e2, w, n) && EquationValid(e3, w, n) && EquationValid(e4, w, n)
    && e1.start == e2.start && e3.start == e4.start == e1.start + 1
    && Shr(Xor(e1.row, e2.row), 1) == Xor(e3.row, e4.row)
  }

  /** What the four right-hand sides then sum to. */
  ghost function Excess(e1: Equation, e2: Equation, e3: Equation, e4: Equation): Bits32 {
    Xor(Xor(e1.rhs, e2.rhs), Xor(e3.rhs, e4.rhs))
  }

  lemma FourDots(e1: Equation, e2: Equation, e3: Equation, e4: Equation, w: nat, n: nat, x: seq<Bits32>)
    requires FourRows(e1, e2, e3, e4, w, n)
    ensures Xor(Dot(e1.row, e1.start, x), Dot(e2.row, e2.start, x))
         == Xor(Dot(e3.row, e3.start, x), Dot(e4.row, e4.start, x))
  {
    var c, i := Xor(e1.row, e2.row), e1.start;
    DotXor(e1.row, e2.row, i, x);
    DotXor(e3.row, e4.row, i + 1, x);
    assert IsZero(c[..1]);
    DotShift(c, 1, i, x);
  }

  /** On any vector the four inner products sum to zero, so a column that all four hold in is one
      in which their right-hand sides do too. */
  lemma HeldColumn(e1: Equation, e2: Equation, e3: Equation, e4: Equation, w: nat, n: nat, j: nat, x: seq<Bits32>)
    requires FourRows(e1, e2, e3, e4, w, n) && SolvesColumn({e1, e2, e3}, n, j, x)
    ensures Dot(e4.row, e4.start, x)[j] == e4.rhs[j] <==> !Excess(e1, e2, e3, e4)[j]
  {
    FourDots(e1, e2, e3, e4, w, n, x);
    var a, b := Dot(e1.row, e1.start, x), Dot(e2.row, e2.start, x);
    var c, d := Dot(e3.row, e3.start, x), Dot(e4.row, e4.start, x);
    assert Xor(a, b)[j] == Xor(c, d)[j];
    assert Excess(e1, e2, e3, e4)[j] == (Xor(e1.rhs, e2.rhs)[j] != Xor(e3.rhs, e4.rhs)[j]);
  }

  /** A system that contains four such equations has no solution in any column in which their
      right-hand sides do not sum to zero. */
  lemma ClashInColumn(s: set<Equation>, e1: Equation, e2: Equation, e3: Equation, e4: Equation, w: nat, n: nat, j: nat)
    requires FourRows(e1, e2, e3, e4, w, n) && {e1, e2, e3, e4} <= s
    requires j < 32 && Excess(e1, e2, e3, e4)[j]
    ensures !ColumnSolvable(s, n, j)
  {
    forall x ensures !SolvesColumn(s, n, j, x) {
      if |x| == n && SolvesColumn({e1, e2, e3}, n, j, x) {
        HeldColumn(e1, e2, e3, e4, w, n, j, x);
        assert e4 in s;
      }
    }
  }

  /** The first two rows, when different, leave the next slot empty. */
  lemma NextSlotEmpty(e1: Equation, e2: Equation, e3: Equation, e4: Equation, w: nat, n: nat)
    requires FourRows(e1, e2, e3, e4, w, n) && e1.row != e2.row
    ensures var r := FeedAll(Empty(n, w), w, 0, [e1, e2]);
      r.ok && |r.m.coeff| == n && IsZero(r.m.coeff[e3.start])
  {
    FeedTwo(e1, e2, w, n);
    SecondRow(e1, e2, w, n);
    var c := Xor(e2.row, e1.row);
    XorComm(e1.row, e2.row);
    assert !c[1] by {
      assert Xor(e3.row, e4.row)[0] == Shr(c, 1)[0];
    }
  }

  /** Three of the four equations never refuse each other when the first two rows differ. */
  lemma ThreeSolvable(e1: Equation, e2: Equation, e3: Equation, e4: Equation, w: nat, n: nat)
    requires FourRows(e1, e2, e3, e4, w, n) && e1.row != e2.row
    ensures Solvable({e1, e2, e3}, n)
  {
    hide FeedAll, Reduce, Iterate, Solvable, Xor;
    var list := [e1, e2, e3];
    NextSlotEmpty(e1, e2, e3, e4, w, n);
    FeedAllLast(Empty(n, w), w, 0, list, [e1, e2]);
    EmptySlotTakes(FeedAll(Empty(n, w), w, 0, [e1, e2]), w, e3);
    EmptyRepresents(n, w);
    WholeRun(Empty(n, w), w, {}, list);
    assert {} + Equations(list) == {e1, e2, e3};
  }

  /** Alone, the four are solvable in exactly the columns in which their right-hand sides sum to
      zero. */
  lemma FourByColumn(e1: Equation, e2: Equation, e3: Equation, e4: Equation, w: nat, n: nat, j: nat)
    requires FourRows(e1, e2, e3, e4, w, n) && e1.row != e2.row && j < 32
    ensures ColumnSolvable({e1, e2, e3, e4}, n, j) <==> !Excess(e1, e2, e3, e4)[j]
  {
    var s := {e1, e2, e3, e4};
    if Excess(e1, e2, e3, e4)[j] {
      ClashInColumn(s, e1, e2, e3, e4, w, n, j);
    } else {
      ThreeSolvable(e1, e2, e3, e4, w, n);
      var x :| Solves({e1, e2, e3}, n, x);
      assert Sat(e1, x) && Sat(e2, x) && Sat(e3, x);
      HeldColumn(e1, e2, e3, e4, w, n, j, x);
      assert SolvesColumn(s, n, j, x);
    }
  }
}
