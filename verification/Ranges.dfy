/** Dividing the slots among threads: range bounds, and which range or the deferred list each key
    goes to. `umax` is the largest machine-sized integer; arithmetic saturates there. */
module Ranges {
  import opened Arith
  import opened Words
  import opened Band
  import opened Runs
  import opened Slices
  import opened Pleat
  import opened Encoding

  const MARGIN: nat := 0x4000  // the safety margin G, in slots

  function DivCeil(a: nat, d: nat): nat
    requires d > 0
  {
    Div(a + d - 1, d)
  }

  lemma DivCeilMeaning(a: nat, d: nat)
    requires d > 0
    ensures a <= DivCeil(a, d) * d < a + d
  {
    DivMod(a + d - 1, d);
  }

  function Min(a: nat, b: nat): nat {
    if a < b then a else b
  }

  function SatMul(a: nat, b: nat, umax: nat): (p: nat) {
    MulMono(0, a, b);
    Min(a * b, umax)
  }

  function SatAdd(a: nat, b: nat, umax: nat): nat {
    Min(a + b, umax)
  }

  /** The bound of range `t` before duplicates are dropped. */
  function BoundAt(t: nat, per: nat, window: nat, n: nat, umax: nat): nat {
    Min(SatMul(SatMul(t, per, umax), window, umax), n)
  }

  lemma BoundMono(t: nat, u: nat, per: nat, window: nat, n: nat, umax: nat)
    requires t <= u
    ensures BoundAt(t, per, window, n, umax) <= BoundAt(u, per, window, n, umax)
  {
    MulMono(t, u, per);
    MulMono(SatMul(t, per, umax), SatMul(u, per, umax), window);
  }

  lemma BoundReaches(dealt: nat, windows: nat, window: nat, n: nat, umax: nat)
    requires windows <= dealt && n <= windows * window && n <= umax && 0 < window
    ensures Min(SatMul(Min(dealt, umax), window, umax), n) == n
  {
    MulMono(windows, dealt, window);
    if umax < dealt {
      MulMono(1, window, umax);
      assert umax * window == window * umax;
    }
  }

  /** The last bound is the slot count: enough windows are dealt out to cover every slot, and
      saturation cannot cut that short. */
  lemma BoundLast(threads: nat, window: nat, n: nat, umax: nat)
    requires 0 < threads && 0 < window && n <= umax
    ensures BoundAt(threads, DivCeil(DivCeil(n, window), threads), window, n, umax) == n
  {
    var windows := DivCeil(n, window);
    var per := DivCeil(windows, threads);
    DivCeilMeaning(n, window);
    DivCeilMeaning(windows, threads);
    assert windows <= threads * per by {
      assert threads * per == per * threads;
    }
    BoundReaches(threads * per, windows, window, n, umax);
  }

  /** What a bound is worth: saturation never shows below the slot count. */
  lemma BoundValue(t: nat, per: nat, window: nat, n: nat, umax: nat)
    requires 0 < window && n <= umax
    ensures t * per * window >= 0
    ensures BoundAt(t, per, window, n, umax) == if t * per * window < n then t * per * window else n
  {
    MulMono(0, t, per);
    MulMono(0, t * per, window);
    if umax < t * per {
      MulMono(1, window, umax);
      MulMono(1, window, t * per);
      assert umax * window == window * umax && t * per * window == window * (t * per);
    }
  }

  /** A bound that is not the last is window-aligned, saturating or not. */
  lemma BoundAligned(t: nat, per: nat, window: nat, n: nat, umax: nat)
    requires 0 < window && n <= umax
    ensures BoundAt(t, per, window, n, umax) < n ==>
      BoundAt(t, per, window, n, umax) == t * per * window && BoundAt(t, per, window, n, umax) % window == 0
  {
    MulMono(0, t, per);
    MulMono(0, t * per, window);
    DivModUnique(t * per * window, t * per, window, 0);
    if umax < t * per {
      MulMono(1, window, umax);
      assert umax * window == window * umax;
    }
  }

  /** `Vec::dedup`: drops an element equal to the one kept before it. */
  function Dedup(s: seq<nat>): (d: seq<nat>)
    ensures |d| <= |s| && (|s| > 0 ==> |d| > 0 && d[|d| - 1] == s[|s| - 1] && d[0] == s[0])
  {
    if |s| == 0 then []
    else
      var d := Dedup(s[..|s| - 1]);
      var last := s[|s| - 1];
      if |d| > 0 && d[|d| - 1] == last then d else d + [last]
  }

  lemma {:induction false} DedupRises(s: seq<nat>)
    requires forall i, j :: 0 <= i <= j < |s| ==> s[i] <= s[j]
    ensures forall i, j :: 0 <= i < j < |Dedup(s)| ==> Dedup(s)[i] < Dedup(s)[j]
  {
    if |s| > 1 {
      DedupRises(s[..|s| - 1]);
      assert s[|s| - 2] <= s[|s| - 1];
    }
  }

  lemma {:induction false} DedupKeeps(s: seq<nat>, b: nat)
    ensures b in Dedup(s) <==> b in s
  {
    if |s| > 0 {
      DedupKeeps(s[..|s| - 1], b);
      assert b in s <==> b in s[..|s| - 1] || b == s[|s| - 1];
      var d := Dedup(s[..|s| - 1]);
      assert b in Dedup(s) <==> b in d || b == s[|s| - 1];
    }
  }

  /** The range bounds, deduplicated, cut the slots into non-empty ranges, at the bounds dealt out
      and nowhere else; all but the last are window-aligned. */
  method RangeBounds(threads: nat, window: nat, n: nat, umax: nat) returns (bounds: seq<nat>)
    requires 0 < threads && 0 < window && 0 < n <= umax
    ensures Cuts(bounds, n) && |bounds| <= threads + 1
    ensures var per := DivCeil(DivCeil(n, window), threads);
      forall b :: b in bounds <==> exists t :: 0 <= t <= threads && b == BoundAt(t, per, window, n, umax)
    ensures forall t :: 0 <= t < |bounds| - 1 ==> bounds[t] % window == 0
  {
    var windows := DivCeil(n, window);
    var per := DivCeil(windows, threads);
    bounds := [];
    var raw := [];
    for t := 0 to threads + 1
      invariant |raw| == t && forall u :: 0 <= u < t ==> raw[u] == BoundAt(u, per, window, n, umax)
    {
      raw := raw + [BoundAt(t, per, window, n, umax)];
    }
    forall i, j | 0 <= i <= j < |raw| ensures raw[i] <= raw[j] {
      BoundMono(i, j, per, window, n, umax);
    }
    BoundLast(threads, window, n, umax);
    DedupRises(raw);
    bounds := Dedup(raw);
    assert raw[0] == 0;
    forall b ensures b in bounds <==> exists t :: 0 <= t <= threads && b == BoundAt(t, per, window, n, umax) {
      DedupKeeps(raw, b);
      if t :| 0 <= t <= threads && b == BoundAt(t, per, window, n, umax) {
        assert raw[t] == b;
      }
    }
    forall t | 0 <= t < |bounds| - 1 ensures bounds[t] % window == 0 {
      assert bounds[t] in bounds && bounds[t] < bounds[|bounds| - 1];
      var u :| 0 <= u <= threads && bounds[t] == BoundAt(u, per, window, n, umax);
      BoundAligned(u, per, window, n, umax);
    }
  }

  /** `bounds.partition_point(|b| b <= s)`, from index `i` on. */
  function PartitionPoint(bounds: seq<nat>, s: nat, i: nat): (p: nat)
    requires i <= |bounds|
    ensures i <= p <= |bounds|
    ensures forall k :: i <= k < p ==> bounds[k] <= s
    ensures p < |bounds| ==> s < bounds[p]
    decreases |bounds| - i
  {
    if i == |bounds| || s < bounds[i] then i else PartitionPoint(bounds, s, i + 1)
  }

  /** The range that slot `s` belongs to. */
  function RangeIndex(bounds: seq<nat>, n: nat, s: nat): (t: nat)
    requires |bounds| >= 2 && bounds[0] == 0 && bounds[|bounds| - 1] == n && s < n
    ensures t + 1 < |bounds| && bounds[t] <= s < bounds[t + 1]
  {
    PartitionPoint(bounds, s, 0) - 1
  }

  /** Where a key starting at `s` goes: its range, or (as the number of ranges) the deferred list
      when it starts too close to the upper bound of a range that is not the last. */
  function Destination(bounds: seq<nat>, n: nat, umax: nat, s: nat): (d: nat)
    requires |bounds| >= 2 && bounds[0] == 0 && bounds[|bounds| - 1] == n
  {
    var nt := |bounds| - 1;
    if s < n then
      var t := RangeIndex(bounds, n, s);
      if t + 1 < nt && SatAdd(s, MARGIN, umax) >= bounds[t + 1] then nt else t
    else nt
  }

  lemma RangeUnique(bounds: seq<nat>, n: nat, s: nat, t: nat, u: nat)
    requires Cuts(bounds, n) && t < |bounds| - 1 && u < |bounds| - 1
    requires bounds[t] <= s < bounds[t + 1] && bounds[u] <= s < bounds[u + 1]
    ensures t == u
  {
  }

  /** A key is deferred exactly when it starts within 16384 slots of the upper bound of a range
      that is not the last; any other key goes to the range it starts in. */
  lemma DestinationExact(bounds: seq<nat>, n: nat, umax: nat, s: nat)
    requires Cuts(bounds, n) && s < n <= umax
    ensures var d := Destination(bounds, n, umax, s);
      && (d == |bounds| - 1 <==>
            exists t :: 0 <= t < |bounds| - 2 && bounds[t] <= s < bounds[t + 1] <= s + 16384)
      && (d != |bounds| - 1 ==> d < |bounds| - 1 && bounds[d] <= s < bounds[d + 1])
  {
    hide PartitionPoint;
    var t := RangeIndex(bounds, n, s);
    forall u | 0 <= u < |bounds| - 1 && bounds[u] <= s < bounds[u + 1] ensures u == t {
      RangeUnique(bounds, n, s, t, u);
    }
    assert bounds[t + 1] <= bounds[|bounds| - 1];
  }

  function DestinationOf(bounds: seq<nat>, n: nat, umax: nat, startOf: Bits64 -> nat): Bits64 -> nat
    requires |bounds| >= 2 && bounds[0] == 0 && bounds[|bounds| - 1] == n
  {
    k => Destination(bounds, n, umax, startOf(k))
  }

  lemma RoutedOne(keys: seq<Bits64>, f: Bits64 -> nat, nt: nat, i: nat, j: nat,
                  before: seq<seq<Bits64>>, after: seq<seq<Bits64>>)
    requires i < |keys| && j == i + 1 && |before| == |after| == nt
    requires forall t :: 0 <= t < nt ==> before[t] == Pick(keys[..i], f, t)
    requires forall t :: 0 <= t < nt ==> after[t] == before[t] + (if f(keys[i]) == t then [keys[i]] else [])
    ensures forall t :: 0 <= t < nt ==> after[t] == Pick(keys[..j], f, t)
  {
    forall t | 0 <= t < nt ensures after[t] == Pick(keys[..j], f, t) {
      PickSnoc(keys, f, t, i);
    }
  }

  /** Every key goes, in order, to exactly one bucket or to the deferred list. */
  method Route(keys: seq<Bits64>, startOf: Bits64 -> nat, bounds: seq<nat>, n: nat, umax: nat)
    returns (buckets: seq<seq<Bits64>>, deferred: seq<Bits64>)
    requires Cuts(bounds, n) && forall k :: k in keys ==> startOf(k) < n
    ensures |buckets| == |bounds| - 1
    ensures forall t :: 0 <= t < |buckets| ==> buckets[t] == Pick(keys, DestinationOf(bounds, n, umax, startOf), t)
    ensures deferred == Pick(keys, DestinationOf(bounds, n, umax, startOf), |buckets|)
  {
    var nt := |bounds| - 1;
    ghost var f := DestinationOf(bounds, n, umax, startOf);
    buckets := seq(nt, _ => []);
    deferred := [];
    for i := 0 to |keys|
      invariant |buckets| == nt
      invariant forall t :: 0 <= t < nt ==> buckets[t] == Pick(keys[..i], f, t)
      invariant deferred == Pick(keys[..i], f, nt)
    {
      var k := keys[i];
      assert k in keys;
      var s := startOf(k);
      var t := RangeIndex(bounds, n, s);
      ghost var before := buckets;
      if t + 1 < nt && SatAdd(s, MARGIN, umax) >= bounds[t + 1] {
        assert f(k) == nt;
        deferred := deferred + [k];
      } else {
        assert f(k) == t;
        buckets := buckets[t := buckets[t] + [k]];
      }
      forall u | 0 <= u < nt ensures buckets[u] == before[u] + (if f(k) == u then [k] else []) {
      }
      RoutedOne(keys, f, nt, i, i + 1, before, buckets);
      PickSnoc(keys, f, nt, i);
    }
    assert keys[..|keys|] == keys;
  }

  function Flatten(buckets: seq<seq<Bits64>>): seq<Bits64> {
    if |buckets| == 0 then [] else Flatten(buckets[..|buckets| - 1]) + buckets[|buckets| - 1]
  }

  lemma {:induction false} FlattenIsFolded(keys: seq<Bits64>, f: Bits64 -> nat, buckets: seq<seq<Bits64>>)
    requires forall t :: 0 <= t < |buckets| ==> buckets[t] == Pick(keys, f, t)
    ensures Flatten(buckets) == Folded(keys, f, |buckets|)
  {
    if |buckets| > 0 {
      FlattenIsFolded(keys, f, buckets[..|buckets| - 1]);
    }
  }

  /** Routing loses and duplicates nothing: the buckets and the deferred list together hold every
      key as often as it was given. */
  lemma RouteConserves(keys: seq<Bits64>, startOf: Bits64 -> nat, bounds: seq<nat>, n: nat, umax: nat,
                       buckets: seq<seq<Bits64>>, deferred: seq<Bits64>)
    requires Cuts(bounds, n) && |buckets| == |bounds| - 1
    requires forall t :: 0 <= t < |buckets| ==> buckets[t] == Pick(keys, DestinationOf(bounds, n, umax, startOf), t)
    requires deferred == Pick(keys, DestinationOf(bounds, n, umax, startOf), |buckets|)
    ensures multiset(Flatten(buckets) + deferred) == multiset(keys)
  {
    hide Pick, PartitionPoint;
    var f, nt := DestinationOf(bounds, n, umax, startOf), |buckets|;
    FlattenIsFolded(keys, f, buckets);
    forall k | k in keys ensures f(k) < nt + 1 {
    }
    FoldedPermutes(keys, f, nt + 1);
  }

  lemma {:induction false} InPick(keys: seq<Bits64>, f: Bits64 -> nat, w: nat, k: Bits64)
    ensures k in Pick(keys, f, w) <==> k in keys && f(k) == w
  {
    if |keys| > 0 {
      var init := keys[..|keys| - 1];
      InPick(init, f, w, k);
      assert k in keys <==> k in init || k == keys[|keys| - 1];
    }
  }

  ghost function BucketEquations(eqOf: Bits64 -> Equation, buckets: seq<seq<Bits64>>): (es: seq<seq<Equation>>)
    ensures |es| == |buckets|
  {
    seq(|buckets|, t requires 0 <= t < |buckets| => EquationsOf(eqOf, buckets[t]))
  }

  lemma BucketEquation(keys: seq<Bits64>, eqOf: Bits64 -> Equation, f: Bits64 -> nat, t: nat,
                       bucket: seq<Bits64>, e: Equation)
    requires bucket == Pick(keys, f, t) && e in EquationsOf(eqOf, bucket)
    ensures exists k :: k in keys && f(k) == t && e == eqOf(k)
  {
    var i :| 0 <= i < |bucket| && EquationsOf(eqOf, bucket)[i] == e;
    InPick(keys, f, t, bucket[i]);
    assert bucket[i] in bucket;
  }

  /** The routing of keys routes their equations: every equation is in a bucket whose range it
      starts in, or deferred. */
  lemma RouteMeaning(keys: seq<Bits64>, eqOf: Bits64 -> Equation, startOf: Bits64 -> nat, bounds: seq<nat>,
                     n: nat, umax: nat, w: nat, buckets: seq<seq<Bits64>>, deferred: seq<Bits64>)
    requires Cuts(bounds, n) && |buckets| == |bounds| - 1
    requires forall t :: 0 <= t < |buckets| ==> buckets[t] == Pick(keys, DestinationOf(bounds, n, umax, startOf), t)
    requires deferred == Pick(keys, DestinationOf(bounds, n, umax, startOf), |buckets|)
    requires forall k :: k in keys ==> EquationValid(eqOf(k), w, n) && eqOf(k).start == startOf(k)
    ensures Routed(EquationSet(eqOf, KeysOf(keys)), bounds, n, w,
                   BucketEquations(eqOf, buckets), EquationsOf(eqOf, deferred))
  {
    hide Pick, PartitionPoint;
    var f, nt, all := DestinationOf(bounds, n, umax, startOf), |buckets|, EquationSet(eqOf, KeysOf(keys));
    var es := BucketEquations(eqOf, buckets);
    forall t | 0 <= t < nt ensures Ready(es[t], w, bounds[t], n - bounds[t]) {
      forall e: Equation | e in es[t] ensures RowReady(e.row, w) && bounds[t] <= e.start && e.start + w <= n {
        BucketEquation(keys, eqOf, f, t, buckets[t], e);
      }
    }
    forall e | e in EquationsOf(eqOf, deferred) ensures EquationValid(e, w, n) && e in all {
      BucketEquation(keys, eqOf, f, nt, deferred, e);
    }
    forall e ensures e in all <==> e in EquationsOf(eqOf, deferred) || exists t :: 0 <= t < nt && e in es[t] {
      if e in all {
        var k :| k in keys && e == eqOf(k);
        InPick(keys, f, f(k), k);
        var d := if f(k) == nt then deferred else buckets[f(k)];
        var i :| 0 <= i < |d| && d[i] == k;
        assert EquationsOf(eqOf, d)[i] == e;
      }
      if t :| 0 <= t < nt && e in es[t] {
        BucketEquation(keys, eqOf, f, t, buckets[t], e);
      }
    }
  }
}
