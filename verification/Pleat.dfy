/** Pleating: a counting pass that folds a key stream into window order. */
module Pleat {
  import opened Arith
  import opened Words

  /** The keys of window `w`, in arrival order. */
  function Pick(keys: seq<Bits64>, f: Bits64 -> nat, w: nat): (r: seq<Bits64>)
    ensures |r| <= |keys|
  {
    if |keys| == 0 then []
    else
      var k := keys[|keys| - 1];
      Pick(keys[..|keys| - 1], f, w) + (if f(k) == w then [k] else [])
  }

  /** Windows `0 .. nw`, one after the other. */
  function Folded(keys: seq<Bits64>, f: Bits64 -> nat, nw: nat): seq<Bits64> {
    if nw == 0 then [] else Folded(keys, f, nw - 1) + Pick(keys, f, nw - 1)
  }

  function Offset(keys: seq<Bits64>, f: Bits64 -> nat, w: nat): nat {
    |Folded(keys, f, w)|
  }

  lemma PickSnoc(keys: seq<Bits64>, f: Bits64 -> nat, w: nat, i: nat)
    requires i < |keys|
    ensures Pick(keys[..i + 1], f, w) == Pick(keys[..i], f, w) + (if f(keys[i]) == w then [keys[i]] else [])
  {
    assert keys[..i + 1][..i] == keys[..i];
  }

  lemma PickSnocAll(keys: seq<Bits64>, f: Bits64 -> nat, nw: nat, i: nat)
    requires i < |keys|
    ensures forall w :: 0 <= w < nw ==>
      |Pick(keys[..i + 1], f, w)| == |Pick(keys[..i], f, w)| + (if f(keys[i]) == w then 1 else 0)
  {
    forall w | 0 <= w < nw
      ensures |Pick(keys[..i + 1], f, w)| == |Pick(keys[..i], f, w)| + (if f(keys[i]) == w then 1 else 0)
    {
      PickSnoc(keys, f, w, i);
    }
  }

  /** What is picked from a prefix is a prefix of what is picked from the whole. */
  lemma {:induction false} PickPrefix(keys: seq<Bits64>, f: Bits64 -> nat, w: nat, i: nat)
    requires i <= |keys|
    ensures Pick(keys[..i], f, w) <= Pick(keys, f, w)
    decreases |keys| - i
  {
    if i == |keys| {
      assert keys[..i] == keys;
    } else {
      PickPrefix(keys, f, w, i + 1);
      PickSnoc(keys, f, w, i);
    }
  }

  lemma {:induction false} OffsetMono(keys: seq<Bits64>, f: Bits64 -> nat, v: nat, w: nat)
    requires v <= w
    ensures Folded(keys, f, v) <= Folded(keys, f, w)
  {
    if v < w {
      OffsetMono(keys, f, v, w - 1);
    }
  }

  /** Every window of the folded stream is exactly that window's keys in arrival order. */
  lemma WindowRun(keys: seq<Bits64>, f: Bits64 -> nat, nw: nat, w: nat)
    requires w < nw
    ensures Offset(keys, f, w) <= Offset(keys, f, w + 1) <= |Folded(keys, f, nw)|
    ensures Folded(keys, f, nw)[Offset(keys, f, w)..Offset(keys, f, w + 1)] == Pick(keys, f, w)
  {
    OffsetMono(keys, f, w + 1, nw);
    var all, pre := Folded(keys, f, nw), Folded(keys, f, w + 1);
    assert all[..|pre|] == pre;
    assert all[Offset(keys, f, w)..|pre|] == pre[Offset(keys, f, w)..];
  }

  lemma PickAppend(keys: seq<Bits64>, k: Bits64, f: Bits64 -> nat, w: nat)
    ensures Pick(keys + [k], f, w) == Pick(keys, f, w) + (if f(k) == w then [k] else [])
    ensures multiset(Pick(keys + [k], f, w))
         == multiset(Pick(keys, f, w)) + (if f(k) == w then multiset{k} else multiset{})
  {
    assert (keys + [k])[..|keys|] == keys;
  }

  lemma FoldedStep(keys: seq<Bits64>, f: Bits64 -> nat, nw: nat)
    ensures nw == 0 ==> Folded(keys, f, nw) == []
    ensures nw > 0 ==>
      multiset(Folded(keys, f, nw)) == multiset(Folded(keys, f, nw - 1)) + multiset(Pick(keys, f, nw - 1))
  {
  }

  lemma UnionSwap(a: multiset<Bits64>, x: multiset<Bits64>, b: multiset<Bits64>, y: multiset<Bits64>)
    ensures (a + x) + (b + y) == (a + b) + (x + y)
  {
  }

  lemma {:induction false} FoldedSnoc(keys: seq<Bits64>, k: Bits64, f: Bits64 -> nat, nw: nat)
    ensures multiset(Folded(keys + [k], f, nw))
         == multiset(Folded(keys, f, nw)) + (if f(k) < nw then multiset{k} else multiset{})
  {
    hide Pick, Folded;
    FoldedStep(keys, f, nw);
    FoldedStep(keys + [k], f, nw);
    if nw > 0 {
      FoldedSnoc(keys, k, f, nw - 1);
      PickAppend(keys, k, f, nw - 1);
      UnionSwap(multiset(Folded(keys, f, nw - 1)), if f(k) < nw - 1 then multiset{k} else multiset{},
                multiset(Pick(keys, f, nw - 1)), if f(k) == nw - 1 then multiset{k} else multiset{});
    }
  }

  lemma {:induction false} FoldedEmpty(f: Bits64 -> nat, nw: nat)
    ensures Folded([], f, nw) == []
  {
    if nw > 0 {
      FoldedEmpty(f, nw - 1);
    }
  }

  /** Folding permutes the keys. */
  lemma {:induction false} FoldedPermutes(keys: seq<Bits64>, f: Bits64 -> nat, nw: nat)
    requires forall k :: k in keys ==> f(k) < nw
    ensures multiset(Folded(keys, f, nw)) == multiset(keys)
    ensures |Folded(keys, f, nw)| == |keys|
  {
    if |keys| == 0 {
      FoldedEmpty(f, nw);
    } else {
      var init, k := keys[..|keys| - 1], keys[|keys| - 1];
      assert keys == init + [k];
      assert k in keys && forall j :: j in init ==> j in keys;
      FoldedPermutes(init, f, nw);
      FoldedSnoc(init, k, f, nw);
    }
    assert |multiset(Folded(keys, f, nw))| == |multiset(keys)|;
  }

  /** Windows come in table order. */
  lemma {:induction false} PickWindow(keys: seq<Bits64>, f: Bits64 -> nat, w: nat)
    ensures forall k :: k in Pick(keys, f, w) ==> k in keys && f(k) == w
  {
    if |keys| > 0 {
      PickWindow(keys[..|keys| - 1], f, w);
    }
  }

  lemma {:induction false} FoldedSorted(keys: seq<Bits64>, f: Bits64 -> nat, nw: nat)
    ensures forall k :: k in Folded(keys, f, nw) ==> f(k) < nw
    ensures forall i, j :: 0 <= i < j < |Folded(keys, f, nw)| ==> f(Folded(keys, f, nw)[i]) <= f(Folded(keys, f, nw)[j])
  {
    hide Pick;
    if nw > 0 {
      FoldedSorted(keys, f, nw - 1);
      PickWindow(keys, f, nw - 1);
      var a, b := Folded(keys, f, nw - 1), Pick(keys, f, nw - 1);
      forall i, j | 0 <= i < j < |a + b| ensures f((a + b)[i]) <= f((a + b)[j]) {
        assert i < |a| ==> a[i] in a;
        assert j >= |a| ==> (a + b)[j] in b;
        assert i >= |a| ==> (a + b)[i] in b;
      }
    }
  }

  /** `s >> shift`: the window of start slot `s`. */
  function WindowOf(s: nat, shift: nat): nat {
    Div(s, Pow2(shift))
  }

  function WindowFunction(startOf: Bits64 -> nat, shift: nat): Bits64 -> nat {
    k => WindowOf(startOf(k), shift)
  }

  datatype PleatPlan = PleatPlan(numStarts: nat, shift: nat) {
    function NumWindows(): nat {
      WindowOf(numStarts, shift) + 2
    }
  }

  /** Window `w` is the starts from `w * 2^shift` up to the next window's. */
  lemma WindowBounds(s: nat, shift: nat)
    ensures WindowOf(s, shift) * Pow2(shift) <= s < (WindowOf(s, shift) + 1) * Pow2(shift)
  {
    DivMod(s, Pow2(shift));
    Distribute(s / Pow2(shift), 1, Pow2(shift));
  }

  /** The windows are one more than it takes to hold the number of starts itself. */
  lemma NumWindowsValue(plan: PleatPlan)
    ensures plan.NumWindows() >= 2
    ensures (plan.NumWindows() - 2) * Pow2(plan.shift) <= plan.numStarts < (plan.NumWindows() - 1) * Pow2(plan.shift)
  {
    WindowBounds(plan.numStarts, plan.shift);
  }

  lemma WindowUnique(s: nat, shift: nat, w: nat)
    ensures WindowOf(s, shift) == w <==> w * Pow2(shift) <= s < (w + 1) * Pow2(shift)
  {
    WindowBounds(s, shift);
    var v, p := WindowOf(s, shift), Pow2(shift);
    if v < w {
      MulMono(v + 1, w, p);
    } else if w < v {
      MulMono(w + 1, v, p);
    }
  }

  lemma DivMono(a: nat, b: nat, p: nat)
    requires a <= b && 0 < p
    ensures Div(a, p) <= Div(b, p)
  {
    DivMod(a, p);
    DivMod(b, p);
    if Div(b, p) < Div(a, p) {
      MulStep(b / p, a / p, p);
    }
  }

  lemma WindowInRange(plan: PleatPlan, s: nat)
    requires s < plan.numStarts
    ensures WindowOf(s, plan.shift) + 1 < plan.NumWindows()
  {
    DivMono(s, plan.numStarts, Pow2(plan.shift));
  }

  /** Counts the keys of each window, one place up: `counts[w + 1]` is the size of window `w`. */
  method CountWindows(keys: seq<Bits64>, startOf: Bits64 -> nat, shift: nat, nw: nat) returns (counts: array<nat>)
    requires forall k :: k in keys ==> WindowOf(startOf(k), shift) < nw
    ensures fresh(counts) && counts.Length == nw + 1 && counts[0] == 0
    ensures forall w :: 1 <= w <= nw ==> counts[w] == |Pick(keys, WindowFunction(startOf, shift), w - 1)|
  {
    ghost var f := WindowFunction(startOf, shift);
    counts := new nat[nw + 1](_ => 0);
    for i := 0 to |keys|
      invariant counts[0] == 0
      invariant forall w :: 1 <= w <= nw ==> counts[w] == |Pick(keys[..i], f, w - 1)|
    {
      assert keys[i] in keys;
      var w := WindowOf(startOf(keys[i]), shift);
      assert w == f(keys[i]);
      counts[w + 1] := counts[w + 1] + 1;
      PickSnocAll(keys, f, nw, i);
    }
    assert keys[..|keys|] == keys;
  }

  method PrefixSums(ghost keys: seq<Bits64>, ghost f: Bits64 -> nat, counts: array<nat>)
    requires 0 < counts.Length && counts[0] == 0
    requires forall w :: 1 <= w < counts.Length ==> counts[w] == |Pick(keys, f, w - 1)|
    modifies counts
    ensures forall w :: 0 <= w < counts.Length ==> counts[w] == Offset(keys, f, w)
  {
    for w := 1 to counts.Length
      invariant forall v :: 0 <= v < w ==> counts[v] == Offset(keys, f, v)
      invariant forall v :: w <= v < counts.Length ==> counts[v] == |Pick(keys, f, v - 1)|
    {
      counts[w] := counts[w] + counts[w - 1];
    }
  }

  /** The cells of window `v` written so far hold the first keys of that window. */
  ghost predicate Written(out: seq<Bits64>, keys: seq<Bits64>, f: Bits64 -> nat, i: nat, v: nat)
    requires i <= |keys|
  {
    var p := Pick(keys[..i], f, v);
    Offset(keys, f, v) + |p| <= |out| && out[Offset(keys, f, v)..Offset(keys, f, v) + |p|] == p
  }

  /** The cell that key `i` goes to lies inside its window's run. */
  lemma CellInWindow(keys: seq<Bits64>, f: Bits64 -> nat, nw: nat, i: nat)
    requires i < |keys| && f(keys[i]) < nw
    ensures var w := f(keys[i]);
      Offset(keys, f, w) + |Pick(keys[..i], f, w)| < Offset(keys, f, w + 1) <= |Folded(keys, f, nw)|
  {
    var w := f(keys[i]);
    PickSnoc(keys, f, w, i);
    PickPrefix(keys, f, w, i + 1);
    WindowRun(keys, f, nw, w);
  }

  /** What is written of window `v` stays inside its run. */
  lemma WrittenInWindow(keys: seq<Bits64>, f: Bits64 -> nat, nw: nat, i: nat, v: nat)
    requires i <= |keys| && v < nw
    ensures Offset(keys, f, v) + |Pick(keys[..i], f, v)| <= Offset(keys, f, v + 1) <= |Folded(keys, f, nw)|
  {
    PickPrefix(keys, f, v, i);
    WindowRun(keys, f, nw, v);
  }

  lemma UpdateOutside(out: seq<Bits64>, at: nat, k: Bits64, lo: nat, hi: nat)
    requires at < |out| && lo <= hi <= |out| && (at < lo || hi <= at)
    ensures out[at := k][lo..hi] == out[lo..hi]
  {
  }

  lemma UpdateNext(out: seq<Bits64>, at: nat, k: Bits64, lo: nat)
    requires lo <= at < |out|
    ensures out[at := k][lo..at + 1] == out[lo..at] + [k]
  {
  }

  lemma WriteOne(out: seq<Bits64>, keys: seq<Bits64>, f: Bits64 -> nat, nw: nat, i: nat, v: nat)
    requires i < |keys| && v < nw && f(keys[i]) < nw && |out| == |Folded(keys, f, nw)|
    requires Written(out, keys, f, i, v)
    ensures var at := Offset(keys, f, f(keys[i])) + |Pick(keys[..i], f, f(keys[i]))|;
      at < |out| && Written(out[at := keys[i]], keys, f, i + 1, v)
  {
    hide Folded, Pick;
    var w := f(keys[i]);
    var lo, p := Offset(keys, f, v), |Pick(keys[..i], f, v)|;
    CellInWindow(keys, f, nw, i);
    var at := Offset(keys, f, w) + |Pick(keys[..i], f, w)|;
    PickSnoc(keys, f, v, i);
    if v == w {
      UpdateNext(out, at, keys[i], lo);
    } else {
      WrittenInWindow(keys, f, nw, i, v);
      OffsetMono(keys, f, if v < w then v + 1 else w + 1, if v < w then w else v);
      UpdateOutside(out, at, keys[i], lo, lo + p);
    }
  }

  lemma WriteOneAll(out: seq<Bits64>, out': seq<Bits64>, keys: seq<Bits64>, f: Bits64 -> nat, nw: nat, i: nat,
                    j: nat, at: nat)
    requires i < |keys| && j == i + 1 && f(keys[i]) < nw && |out| == |Folded(keys, f, nw)|
    requires at == Offset(keys, f, f(keys[i])) + |Pick(keys[..i], f, f(keys[i]))| < |out|
    requires out' == out[at := keys[i]]
    requires forall v :: 0 <= v < nw ==> Written(out, keys, f, i, v)
    ensures forall v :: 0 <= v < nw ==> Written(out', keys, f, j, v)
  {
    forall v | 0 <= v < nw ensures Written(out', keys, f, j, v) {
      WriteOne(out, keys, f, nw, i, v);
    }
  }

  lemma {:induction false} WrittenPrefix(out: seq<Bits64>, keys: seq<Bits64>, f: Bits64 -> nat, nw: nat, v: nat)
    requires v <= nw && |out| == |Folded(keys, f, nw)|
    requires forall v :: 0 <= v < nw ==> Written(out, keys, f, |keys|, v)
    ensures Offset(keys, f, v) <= |out| && out[..Offset(keys, f, v)] == Folded(keys, f, v)
  {
    hide Pick;
    OffsetMono(keys, f, v, nw);
    if v > 0 {
      WrittenPrefix(out, keys, f, nw, v - 1);
      assert Written(out, keys, f, |keys|, v - 1);
      assert keys[..|keys|] == keys;
      var a, b := Offset(keys, f, v - 1), Offset(keys, f, v);
      assert out[..b] == out[..a] + out[a..b];
    }
  }

  lemma WrittenAll(out: seq<Bits64>, keys: seq<Bits64>, f: Bits64 -> nat, nw: nat)
    requires |out| == |Folded(keys, f, nw)|
    requires forall v :: 0 <= v < nw ==> Written(out, keys, f, |keys|, v)
    ensures out == Folded(keys, f, nw)
  {
    WrittenPrefix(out, keys, f, nw, nw);
    assert out[..|out|] == out;
  }

  lemma {:induction false} LaterWindow(keys: seq<Bits64>, f: Bits64 -> nat, nw: nat, v: nat, i: nat)
    requires v <= nw && Offset(keys, f, v) <= i < |Folded(keys, f, nw)|
    ensures f(Folded(keys, f, nw)[i]) >= v
    decreases nw
  {
    hide Pick;
    if v < nw {
      PickWindow(keys, f, nw - 1);
      var a := Folded(keys, f, nw - 1);
      if i < |a| {
        LaterWindow(keys, f, nw - 1, v, i);
      } else {
        assert Folded(keys, f, nw)[i] == Pick(keys, f, nw - 1)[i - |a|];
        assert Folded(keys, f, nw)[i] in Pick(keys, f, nw - 1);
      }
    }
  }

  /** A cell lies in a window's run exactly when its key is of that window. */
  lemma CellWindow(keys: seq<Bits64>, f: Bits64 -> nat, nw: nat, w: nat, i: nat)
    requires w < nw && i < |Folded(keys, f, nw)|
    ensures Offset(keys, f, w) <= i < Offset(keys, f, w + 1) <==> f(Folded(keys, f, nw)[i]) == w
  {
    hide Folded, Pick;
    var all := Folded(keys, f, nw);
    WindowRun(keys, f, nw, w);
    PickWindow(keys, f, w);
    var a, b := Offset(keys, f, w), Offset(keys, f, w + 1);
    if a <= i < b {
      assert all[i] == all[a..b][i - a];
      assert all[a..b][i - a] in Pick(keys, f, w);
    } else if i < a {
      OffsetMono(keys, f, w, nw);
      FoldedSorted(keys, f, w);
      assert all[i] == Folded(keys, f, w)[i];
      assert all[i] in Folded(keys, f, w);
    } else {
      LaterWindow(keys, f, nw, w + 1, i);
    }
  }

  /** In terms of starts: the cells of window `w` are those whose key starts in its range. */
  lemma CellStart(keys: seq<Bits64>, startOf: Bits64 -> nat, shift: nat, nw: nat, w: nat, i: nat)
    requires w < nw && i < |Folded(keys, WindowFunction(startOf, shift), nw)|
    ensures var f := WindowFunction(startOf, shift);
      Offset(keys, f, w) <= i < Offset(keys, f, w + 1)
      <==> w * Pow2(shift) <= startOf(Folded(keys, f, nw)[i]) < (w + 1) * Pow2(shift)
  {
    hide Folded, WindowOf, Pow2;
    var f := WindowFunction(startOf, shift);
    CellWindow(keys, f, nw, w, i);
    WindowUnique(startOf(Folded(keys, f, nw)[i]), shift, w);
  }

  /** One key of the second pass: written at its window's cursor, which then advances. */
  method WriteKey(keys: seq<Bits64>, ghost f: Bits64 -> nat, ghost nw: nat, i: nat, ghost next: nat, w: nat,
                  cursor: array<nat>, out: array<Bits64>)
    requires i < |keys| && next == i + 1 && w == f(keys[i]) < nw == cursor.Length && out.Length == |Folded(keys, f, nw)|
    requires forall v :: 0 <= v < nw ==> cursor[v] == Offset(keys, f, v) + |Pick(keys[..i], f, v)|
    requires forall v :: 0 <= v < nw ==> Written(out[..], keys, f, i, v)
    modifies cursor, out
    ensures forall v :: 0 <= v < nw ==> cursor[v] == Offset(keys, f, v) + |Pick(keys[..next], f, v)|
    ensures forall v :: 0 <= v < nw ==> Written(out[..], keys, f, next, v)
  {
    ghost var was := out[..];
    CellInWindow(keys, f, nw, i);
    out[cursor[w]] := keys[i];
    WriteOneAll(was, out[..], keys, f, nw, i, i + 1, cursor[w]);
    cursor[w] := cursor[w] + 1;
    PickSnocAll(keys, f, nw, i);
  }

  method FillWindows(keys: seq<Bits64>, startOf: Bits64 -> nat, shift: nat, nw: nat, cursor: array<nat>,
                     out: array<Bits64>)
    requires cursor.Length == nw
    requires out.Length == |keys| == |Folded(keys, WindowFunction(startOf, shift), nw)|
    requires forall k :: k in keys ==> WindowOf(startOf(k), shift) < nw
    requires forall w :: 0 <= w < nw ==> cursor[w] == Offset(keys, WindowFunction(startOf, shift), w)
    modifies cursor, out
    ensures out[..] == Folded(keys, WindowFunction(startOf, shift), nw)
  {
    ghost var f := WindowFunction(startOf, shift);
    forall v | 0 <= v < nw ensures Written(out[..], keys, f, 0, v) {
      OffsetMono(keys, f, v, nw);
    }
    for i := 0 to |keys|
      invariant forall v :: 0 <= v < nw ==> cursor[v] == Offset(keys, f, v) + |Pick(keys[..i], f, v)|
      invariant forall v :: 0 <= v < nw ==> Written(out[..], keys, f, i, v)
    {
      assert keys[i] in keys;
      var w := WindowOf(startOf(keys[i]), shift);
      assert f(keys[i]) == w;
      WriteKey(keys, f, nw, i, i + 1, w, cursor, out);
    }
    WrittenAll(out[..], keys, f, nw);
  }

  /** Folds `keys` into `out` in window order. Every cell is overwritten, the result is the
      stable partition of the keys by window, and `counts` holds where each window begins. */
  method PleatInto(plan: PleatPlan, keys: seq<Bits64>, startOf: Bits64 -> nat, out: array<Bits64>)
    returns (counts: array<nat>)
    requires |keys| == out.Length
    requires forall k :: k in keys ==> startOf(k) < plan.numStarts
    modifies out
    ensures var f := WindowFunction(startOf, plan.shift);
      && out[..] == Folded(keys, f, plan.NumWindows())
      && counts.Length == plan.NumWindows() + 1
      && forall w :: 0 <= w < counts.Length ==> counts[w] == Offset(keys, f, w)
    ensures forall w, i :: 0 <= w < plan.NumWindows() && 0 <= i < out.Length ==>
      (counts[w] <= i < counts[w + 1]
       <==> w * Pow2(plan.shift) <= startOf(out[i]) < (w + 1) * Pow2(plan.shift))
    ensures fresh(counts)
  {
    var nw := plan.NumWindows();
    ghost var f := WindowFunction(startOf, plan.shift);
    forall k | k in keys ensures f(k) < nw {
      WindowInRange(plan, startOf(k));
    }
    FoldedPermutes(keys, f, nw);
    counts := CountWindows(keys, startOf, plan.shift, nw);
    PrefixSums(keys, f, counts);
    var cursor := new nat[nw](w requires 0 <= w < nw reads counts => counts[w]);
    assert forall v :: 0 <= v < nw ==> Pick(keys[..0], f, v) == [];
    FillWindows(keys, startOf, plan.shift, nw, cursor, out);
    forall w, i | 0 <= w < nw && 0 <= i < out.Length
      ensures counts[w] <= i < counts[w + 1]
              <==> w * Pow2(plan.shift) <= startOf(out[i]) < (w + 1) * Pow2(plan.shift)
    {
      CellStart(keys, startOf, plan.shift, nw, w, i);
      assert out[..][i] == out[i];
    }
  }
}
