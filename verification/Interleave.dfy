/** The interleaved layout of a solution: `r` words for each block of `w` slots, word `j` of a
    block holding column `j` of its slots. Back-substitution rolls one word per column down the
    slots; a query joins two neighbouring blocks. Both are related here to the slot values. */
module Interleave {
  import opened Arith
  import opened Words
  import opened Band

  /** Column `j` of the `w` slots from `i` on; slots past the end read as zero. */
  function Window(x: seq<Bits32>, i: nat, w: nat, j: nat): (v: Word)
    requires j < 32
    ensures |v| == w
  {
    seq(w, k requires 0 <= k < w => At(x, i + k)[j])
  }

  /** The parity of a masked column is that column of the inner product. */
  lemma {:induction false} WindowParity(v: Word, i: nat, x: seq<Bits32>, j: nat)
    requires j < 32
    ensures Parity(And(Window(x, i, |v|, j), v)) == Dot(v, i, x)[j]
  {
    if |v| > 0 {
      var a := And(Window(x, i, |v|, j), v);
      assert a[1..] == And(Window(x, i + 1, |v| - 1, j), v[1..]);
      WindowParity(v[1..], i + 1, x, j);
      assert a[0] == Term(v[0], x, i)[j];
    }
  }

  // ---------------------------------------------------------------- layout

  predicate Shape(w: nat, r: nat) {
    w > 0 && 1 <= r <= 32
  }

  /** Segment `s`: column `s % r` of block `s / r`. */
  function SegmentOf(x: seq<Bits32>, w: nat, r: nat, s: nat): (v: Word)
    requires Shape(w, r)
    ensures |v| == w
  {
    Window(x, Div(s, r) * w, w, s % r)
  }

  lemma SegmentOfBlock(x: seq<Bits32>, w: nat, r: nat, b: nat, j: nat)
    requires Shape(w, r) && j < r
    ensures SegmentOf(x, w, r, b * r + j) == Window(x, b * w, w, j)
  {
    DivModUnique(b * r + j, b, r, j);
  }

  /** The segments of a slot-wise solution. */
  function Segments(x: seq<Bits32>, w: nat, r: nat): (segs: seq<Word>)
    requires Shape(w, r)
    ensures |segs| == Div(|x|, w) * r
  {
    seq(Div(|x|, w) * r, s requires 0 <= s < Div(|x|, w) * r => SegmentOf(x, w, r, s))
  }

  /** Segments that a query over `n` slots may index. */
  predicate WellShaped(segs: seq<Word>, n: nat, w: nat, r: nat) {
    && Shape(w, r) && n % w == 0
    && |segs| == n / w * r
    && forall s :: 0 <= s < |segs| ==> |segs[s]| == w
  }

  /** The bit that the segments hold for slot `s` in column `j`. */
  function SlotBit(segs: seq<Word>, n: nat, w: nat, r: nat, s: nat, j: nat): bool
    requires WellShaped(segs, n, w, r) && s < n && j < r
  {
    BlockBound(s, n, w);
    BlockIndex(s / w, n / w, r, j);
    segs[s / w * r + j][s % w]
  }

  /** Bit `k` of segment `b * r + j` is column `j` of slot `b * w + k`. */
  lemma LayoutMeaning(x: seq<Bits32>, w: nat, r: nat, s: nat, j: nat)
    requires Shape(w, r) && |x| % w == 0 && s < |x| && j < r
    ensures WellShaped(Segments(x, w, r), |x|, w, r)
    ensures SlotBit(Segments(x, w, r), |x|, w, r, s, j) == x[s][j]
  {
    var segs := Segments(x, w, r);
    BlockBound(s, |x|, w);
    BlockIndex(s / w, |x| / w, r, j);
    SegmentOfBlock(x, w, r, s / w, j);
    assert segs[s / w * r + j] == Window(x, s / w * w, w, j);
    assert segs[s / w * r + j][s % w] == At(x, s / w * w + s % w)[j];
  }

  // ---------------------------------------------------------------- rolling back-substitution

  /** One step of the rolling state of column `j`: shift, then bring in the new slot's bit. */
  function Roll(state: Word, cr: Word, load: Bits32, j: nat): (next: Word)
    requires 0 < |state| == |cr| && j < 32
    ensures |next| == |state|
  {
    var tmp := Shl(state, 1);
    OrBit(tmp, Parity(And(tmp, cr)) != load[j])
  }

  /** The rolling state refines the slot-wise solution: if it shows the `w` slots above slot `i`,
      then after the step for `i` it shows slot `i` and the `w - 1` slots above it. */
  lemma RollRefines(m: Matrix, w: nat, fill: nat -> Bits32, i: nat, j: nat)
    requires Valid(m, w, |m.coeff|) && i < |m.coeff| && j < 32
    ensures Roll(Window(BackSolveFrom(m, fill, i + 1), i + 1, w, j), m.coeff[i], Load(m, fill, i), j)
         == Window(BackSolveFrom(m, fill, i), i, w, j)
  {
    hide Dot, Parity, Load;
    var t, x, c := BackSolveFrom(m, fill, i + 1), BackSolveFrom(m, fill, i), m.coeff[i];
    SolveFromBelow(m, fill, i + 1);
    var tmp := Shl(Window(t, i + 1, w, j), 1);
    forall k | 0 <= k < w ensures tmp[k] == Window(t, i, w, j)[k] {
      if k > 0 {
        assert tmp[k] == Window(t, i + 1, w, j)[k - 1] == At(t, i + 1 + (k - 1))[j];
        assert i + 1 + (k - 1) == i + k;
      } else {
        assert Window(t, i, w, j)[0] == At(t, i)[j] == ZERO32[j];
      }
    }
    assert tmp == Window(t, i, w, j);
    WindowParity(c, i, t, j);
    assert x[i][j] == (Dot(c, i, t)[j] != Load(m, fill, i)[j]);
    var next := Roll(Window(t, i + 1, w, j), c, Load(m, fill, i), j);
    forall k | 0 <= k < w ensures next[k] == Window(x, i, w, j)[k] {
      if k > 0 {
        assert next[k] == tmp[k] == At(t, i + k)[j];
        assert At(t, i + k) == At(x, i + k);
      } else {
        assert Window(x, i, w, j)[0] == At(x, i)[j] == x[i][j];
      }
    }
  }

  /** At a block boundary the state is what the final solution shows there. */
  lemma StateIsFinal(m: Matrix, w: nat, fill: nat -> Bits32, i: nat, j: nat)
    requires Valid(m, w, |m.coeff|) && i <= |m.coeff| && j < 32
    ensures Window(BackSolveFrom(m, fill, i), i, w, j) == Window(BackSolve(m, fill), i, w, j)
  {
    var x, y := BackSolveFrom(m, fill, i), BackSolve(m, fill);
    SolveStable(m, fill, i);
    forall k | 0 <= k < w ensures Window(x, i, w, j)[k] == Window(y, i, w, j)[k] {
      assert At(x, i + k) == At(y, i + k);
    }
  }

  /** Every column of the state shows the slots from `i` on, as far as they are solved. */
  ghost predicate Shows(state: seq<Word>, m: Matrix, w: nat, fill: nat -> Bits32, i: nat)
    requires i <= |m.coeff| == |m.result| && |state| <= 32
  {
    forall j :: 0 <= j < |state| ==> state[j] == Window(BackSolveFrom(m, fill, i), i, w, j)
  }

  /** Rolls every column's word over one slot with row `cr` and right-hand side `rr`. */
  method RollSlot(state: array<Word>, cr: Word, rr: Bits32)
    requires |cr| > 0 && state.Length <= 32
    requires forall j :: 0 <= j < state.Length ==> |state[j]| == |cr|
    modifies state
    ensures forall j :: 0 <= j < state.Length ==> |old(state[j])| == |cr| && state[j] == Roll(old(state[j]), cr, rr, j)
  {
    for j := 0 to state.Length
      invariant forall j' :: 0 <= j' < j ==> |old(state[j'])| == |cr| && state[j'] == Roll(old(state[j']), cr, rr, j')
      invariant forall j' :: j <= j' < state.Length ==> state[j'] == old(state[j'])
    {
      var tmp := Shl(state[j], 1);
      var bit := Parity(And(tmp, cr)) != rr[j];
      state[j] := OrBit(tmp, bit);
    }
  }

  lemma ShowsNext(state: seq<Word>, next: seq<Word>, m: Matrix, w: nat, fill: nat -> Bits32, i: nat)
    requires Valid(m, w, |m.coeff|) && i < |m.coeff| && |next| == |state| <= 32
    requires Shows(state, m, w, fill, i + 1)
    requires forall j :: 0 <= j < |state| ==>
      |state[j]| == w && next[j] == Roll(state[j], m.coeff[i], Load(m, fill, i), j)
    ensures Shows(next, m, w, fill, i)
  {
    forall j | 0 <= j < |state| ensures next[j] == Window(BackSolveFrom(m, fill, i), i, w, j) {
      RollRefines(m, w, fill, i, j);
    }
  }

  /** Copies the state of block `block` to its place in the segments. */
  method StoreBlock(segs: array<Word>, state: array<Word>, block: nat, ghost blocks: nat)
    requires block < blocks && segs != state && segs.Length == blocks * state.Length
    modifies segs
    ensures block * state.Length + state.Length <= segs.Length
    ensures forall s :: 0 <= s < segs.Length && !(block * state.Length <= s < block * state.Length + state.Length)
              ==> segs[s] == old(segs[s])
    ensures forall j :: 0 <= j < state.Length ==> segs[block * state.Length + j] == state[j]
  {
    var segmentNum := block * state.Length;
    MulStep(block, blocks, state.Length);
    for j := 0 to state.Length
      invariant forall s :: 0 <= s < segs.Length && !(segmentNum <= s < segmentNum + j) ==> segs[s] == old(segs[s])
      invariant forall j' :: 0 <= j' < j ==> segs[segmentNum + j'] == state[j']
    {
      segs[segmentNum + j] := state[j];
    }
  }

  /** The segments from `lo` on are those of the solution `x`. */
  ghost predicate Filled(segs: seq<Word>, x: seq<Bits32>, w: nat, r: nat, lo: nat)
    requires Shape(w, r)
  {
    forall s :: lo <= s < |segs| ==> segs[s] == SegmentOf(x, w, r, s)
  }

  lemma FilledBlock(segs: seq<Word>, was: seq<Word>, state: seq<Word>, m: Matrix, w: nat, fill: nat -> Bits32,
                    block: nat, startSlot: nat, base: nat)
    requires Valid(m, w, |m.coeff|) && Shape(w, |state|) && |segs| == |was|
    requires startSlot == block * w <= |m.coeff| && base == block * |state| && base + |state| <= |segs|
    requires Shows(state, m, w, fill, startSlot)
    requires Filled(was, BackSolve(m, fill), w, |state|, base + |state|)
    requires forall s :: base + |state| <= s < |segs| ==> segs[s] == was[s]
    requires forall j :: 0 <= j < |state| ==> segs[base + j] == state[j]
    ensures Filled(segs, BackSolve(m, fill), w, |state|, base)
  {
    hide SegmentOf, BackSolve, Window;
    var r, x := |state|, BackSolve(m, fill);
    forall s | base <= s < |segs| ensures segs[s] == SegmentOf(x, w, r, s) {
      if s < base + r {
        var j := s - base;
        SegmentOfBlock(x, w, r, block, j);
        assert segs[base + j] == state[j];
        StateIsFinal(m, w, fill, startSlot, j);
      } else {
        assert segs[s] == was[s];
      }
    }
  }

  lemma FilledAll(segs: seq<Word>, x: seq<Bits32>, w: nat, r: nat)
    requires Shape(w, r) && Filled(segs, x, w, r, 0) && |segs| == |x| / w * r
    ensures segs == Segments(x, w, r)
  {
  }

  /** Nothing lies above the last slot, so the state starts out zero. */
  lemma InitialState(state: seq<Word>, m: Matrix, w: nat, fill: nat -> Bits32)
    requires Valid(m, w, |m.coeff|) && |state| <= 32
    requires forall j :: 0 <= j < |state| ==> state[j] == Zeros(w)
    ensures Shows(state, m, w, fill, |m.coeff|)
  {
    forall j | 0 <= j < |state|
      ensures state[j] == Window(BackSolveFrom(m, fill, |m.coeff|), |m.coeff|, w, j)
    {
      var v := Window(BackSolveFrom(m, fill, |m.coeff|), |m.coeff|, w, j);
      forall k | 0 <= k < w ensures v[k] == Zeros(w)[k] {
        assert At(BackSolveFrom(m, fill, |m.coeff|), |m.coeff| + k) == ZERO32;
      }
    }
  }

  // ---------------------------------------------------------------- query

  /** Column `j` of the `w` slots from `start` on, as the segments hold them. */
  function SlotWindow(segs: seq<Word>, n: nat, w: nat, r: nat, start: nat, j: nat): (v: Word)
    requires WellShaped(segs, n, w, r) && start + w <= n && j < r
    ensures |v| == w
  {
    seq(w, k requires 0 <= k < w => SlotBit(segs, n, w, r, start + k, j))
  }

  /** The word whose parity a query takes for column `j`: two masked blocks joined by an OR. */
  function QueryWord(lo: Word, hi: Word, cr: Word, startBit: nat): (v: Word)
    requires |lo| == |hi| == |cr| && startBit < |cr|
    ensures |v| == |cr|
  {
    Or(And(lo, Shl(cr, startBit)), And(hi, Shr(cr, (|cr| - startBit) % |cr|)))
  }

  /** Both blocks a query touches lie inside the segments; the second one is only another block
      when the start is not block-aligned. */
  lemma QueryBounds(segs: seq<Word>, n: nat, w: nat, r: nat, start: nat)
    requires WellShaped(segs, n, w, r) && start + w <= n
    ensures var base := start / w * r;
            base + (if start % w != 0 then r else 0) + r <= |segs|
  {
    BlockBound(start + w - 1, n, w);
    BlockBound(start, n, w);
    SplitBlock(start, w, w - 1);
    TwoBlocks(start / w, n / w, r, start % w != 0);
  }

  lemma RightShift(w: nat, sb: nat)
    requires sb < w
    ensures (w - sb) % w == if sb == 0 then 0 else w - sb
  {
  }

  lemma ShiftedBits(cr: Word, sb: nat, p: nat)
    requires 0 < sb < |cr| && p < |cr|
    ensures Shl(cr, sb)[p] == (sb <= p && cr[p - sb])
    ensures Shr(cr, |cr| - sb)[p] == (p < sb && cr[p + |cr| - sb])
  {
  }

  /** Bit `k` of the row meets bit `startBit + k` of the first block or, past its end, of the
      second. An aligned start makes both blocks the same and both shifts trivial. */
  lemma JoinBit(lo: Word, hi: Word, cr: Word, sb: nat, k: nat)
    requires |lo| == |hi| == |cr| && sb < |cr| && k < |cr|
    requires sb == 0 ==> lo == hi
    ensures var p := sb + k; var w := |cr|;
      QueryWord(lo, hi, cr, sb)[if p < w then p else p - w] == ((if p < w then lo[p] else hi[p - w]) && cr[k])
  {
    var w, p := |cr|, sb + k;
    RightShift(w, sb);
    if sb == 0 {
      assert Shr(cr, 0) == cr == Shl(cr, 0);
    } else if p < w {
      ShiftedBits(cr, sb, p);
    } else {
      ShiftedBits(cr, sb, p - w);
    }
  }

  /** The first of the two segments that hold column `j` of the slots from `start` on. */
  function LowIndex(start: nat, w: nat, r: nat, j: nat): nat
    requires w > 0
  {
    start / w * r + j
  }

  /** The second one; it is the first again when `start` is block-aligned. */
  function HighIndex(start: nat, w: nat, r: nat, j: nat): nat
    requires w > 0
  {
    start / w * r + (if start % w != 0 then r else 0) + j
  }

  lemma SlotBitSplit(segs: seq<Word>, n: nat, w: nat, r: nat, start: nat, j: nat, k: nat)
    requires WellShaped(segs, n, w, r) && start + w <= n && j < r && k < w
    requires HighIndex(start, w, r, j) < |segs| && LowIndex(start, w, r, j) < |segs|
    ensures SlotBit(segs, n, w, r, start + k, j) ==
            var p := start % w + k;
            if p < w then segs[LowIndex(start, w, r, j)][p] else segs[HighIndex(start, w, r, j)][p - w]
  {
    SplitBlock(start, w, k);
    var b := start / w;
    assert (b + 1) * r == b * r + r;
  }

  /** Bit `k` of the masked slot window sits in the joined word at `startBit + k`, modulo `w`. */
  lemma QueryBit(segs: seq<Word>, n: nat, w: nat, r: nat, start: nat, cr: Word, j: nat, k: nat)
    requires WellShaped(segs, n, w, r) && start + w <= n && |cr| == w && j < r && k < w
    requires HighIndex(start, w, r, j) < |segs| && LowIndex(start, w, r, j) < |segs|
    ensures var p := start % w + k;
      QueryWord(segs[LowIndex(start, w, r, j)], segs[HighIndex(start, w, r, j)], cr, start % w)
        [if p < w then p else p - w]
      == And(SlotWindow(segs, n, w, r, start, j), cr)[k]
  {
    SlotBitSplit(segs, n, w, r, start, j, k);
    JoinBit(segs[LowIndex(start, w, r, j)], segs[HighIndex(start, w, r, j)], cr, start % w, k);
  }

  lemma RotationParity(q: Word, a: Word, sb: nat)
    requires |q| == |a| && sb < |a|
    requires forall k :: 0 <= k < |a| ==> a[k] == q[if sb + k < |a| then sb + k else sb + k - |a|]
    ensures Parity(q) == Parity(a)
  {
    var w := |a|;
    forall p | 0 <= p < w ensures q[p] == (a[w - sb..] + a[..w - sb])[p] {
      var k := if p < sb then p + w - sb else p - sb;
      assert a[k] == q[p];
    }
    assert q == a[w - sb..] + a[..w - sb];
    ParityRotate(a, w - sb);
  }

  /** The query refines the inner product: in every column the joined word has the parity of the
      coefficient row masked with the `w` slots from `start` on. */
  lemma QueryRefines(segs: seq<Word>, n: nat, w: nat, r: nat, start: nat, cr: Word, j: nat)
    requires WellShaped(segs, n, w, r) && start + w <= n && |cr| == w && j < r
    ensures LowIndex(start, w, r, j) <= HighIndex(start, w, r, j) < |segs|
    ensures Parity(QueryWord(segs[LowIndex(start, w, r, j)], segs[HighIndex(start, w, r, j)], cr, start % w))
         == Parity(And(SlotWindow(segs, n, w, r, start, j), cr))
  {
    QueryBounds(segs, n, w, r, start);
    var q := QueryWord(segs[LowIndex(start, w, r, j)], segs[HighIndex(start, w, r, j)], cr, start % w);
    var a := And(SlotWindow(segs, n, w, r, start, j), cr);
    forall k | 0 <= k < w
      ensures a[k] == q[if start % w + k < w then start % w + k else start % w + k - w]
    {
      QueryBit(segs, n, w, r, start, cr, j, k);
    }
    RotationParity(q, a, start % w);
  }

  /** On the segments of a slot-wise solution, that parity is a column of the inner product. */
  lemma SlotWindowOfSegments(x: seq<Bits32>, w: nat, r: nat, start: nat, j: nat)
    requires Shape(w, r) && |x| % w == 0 && start + w <= |x| && j < r
    ensures WellShaped(Segments(x, w, r), |x|, w, r)
    ensures SlotWindow(Segments(x, w, r), |x|, w, r, start, j) == Window(x, start, w, j)
  {
    LayoutMeaning(x, w, r, start, j);
    var v, u := SlotWindow(Segments(x, w, r), |x|, w, r, start, j), Window(x, start, w, j);
    forall k | 0 <= k < w ensures v[k] == u[k] {
      LayoutMeaning(x, w, r, start + k, j);
      assert At(x, start + k) == x[start + k];
    }
  }

  /** What a query answers: in each of the `r` columns the row's parity is the expected bit. */
  ghost predicate Matches(segs: seq<Word>, n: nat, w: nat, r: nat, start: nat, cr: Word, expected: Bits32)
    requires WellShaped(segs, n, w, r) && start + w <= n && |cr| == w
  {
    forall j :: 0 <= j < r ==> Parity(And(SlotWindow(segs, n, w, r, start, j), cr)) == expected[j]
  }

  /** A query on an encoded solution answers whether the low `r` columns of the key's equation
      hold; a solution of the whole equation therefore always matches. */
  lemma MatchesMeaning(x: seq<Bits32>, w: nat, r: nat, e: Equation)
    requires Shape(w, r) && |x| % w == 0 && EquationValid(e, w, |x|)
    ensures WellShaped(Segments(x, w, r), |x|, w, r)
    ensures Matches(Segments(x, w, r), |x|, w, r, e.start, e.row, e.rhs)
            <==> forall j :: 0 <= j < r ==> Dot(e.row, e.start, x)[j] == e.rhs[j]
    ensures Sat(e, x) ==> Matches(Segments(x, w, r), |x|, w, r, e.start, e.row, e.rhs)
  {
    LayoutMeaning(x, w, r, e.start, 0);
    var segs := Segments(x, w, r);
    forall j | 0 <= j < r
      ensures Parity(And(SlotWindow(segs, |x|, w, r, e.start, j), e.row)) == Dot(e.row, e.start, x)[j]
    {
      SlotWindowOfSegments(x, w, r, e.start, j);
      WindowParity(e.row, e.start, x, j);
    }
  }
}
