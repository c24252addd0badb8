/** What two and three keys can do to a matrix: no seed ever refuses them, and two of them can
    leave rows that depend on their order. */
module SmallKeySets {
  import opened Words
  import opened Band
  import opened Solutions
  import opened Runs
  import opened Encoding
  import opened Hash
  import opened Hash128
  import opened Columns
  import H = Homogeneous
  import S = Standard

  // ---------------------------------------------------------------- two keys

  lemma HomogPair(rawSeed: Bits64, n: nat, a: Bits64, b: Bits64)
    requires H.W <= n
    ensures var e, d := H.KeyEquation(rawSeed, n - H.W + 1, a), H.KeyEquation(rawSeed, n - H.W + 1, b);
      && EquationValid(e, H.W, n) && EquationValid(d, H.W, n)
      && EquationsOf(H.Hashed(rawSeed, n - H.W + 1), [a, b]) == [e, d]
  {
    hide H.KeyEquation;
    H.KeyEquationValid(rawSeed, n, a);
    H.KeyEquationValid(rawSeed, n, b);
  }

  lemma StdPair(raw: Bits32, n: nat, a: Bits64, b: Bits64)
    requires S.W128 <= n
    ensures var e, d := S.KeyEquation(raw, n - S.W128 + 1, a), S.KeyEquation(raw, n - S.W128 + 1, b);
      && EquationValid(e, S.W128, n) && EquationValid(d, S.W128, n)
      && EquationsOf(S.Hashed(raw, n - S.W128 + 1), [a, b]) == [e, d]
  {
    hide S.KeyEquation;
    S.KeyEquationValid(raw, n, a);
    S.KeyEquationValid(raw, n, b);
  }

  /** Adding the keys in turn to an empty matrix of the standard family refuses none of them. */
  ghost predicate AcceptedList(raw: Bits32, n: nat, list: seq<Bits64>)
    requires S.W128 <= n
  {
    var eqs := EquationsOf(S.Hashed(raw, n - S.W128 + 1), list);
    && Loopable(Empty(n, S.W128), S.W128) && Feedable(eqs, S.W128, 0)
    && FeedAll(Empty(n, S.W128), S.W128, 0, eqs).ok
  }

  /** It refuses none exactly when the system of the keys is solvable in all 32 columns. */
  lemma AcceptedIffSolvable(raw: Bits32, n: nat, list: seq<Bits64>)
    requires S.W128 <= n
    ensures AcceptedList(raw, n, list) <==> Solvable(EquationSet(S.Hashed(raw, n - S.W128 + 1), KeysOf(list)), n)
  {
    hide FeedAll, Solvable, Represents, EquationSet, EquationsOf, Equations, KeysOf, S.Hashed, S.KeyEquation;
    hide Ready, Loopable, Feedable, Valid;
    var eqs := EquationsOf(S.Hashed(raw, n - S.W128 + 1), list);
    S.KeyEquationsReady(raw, n, list);
    ReadyFeedable(eqs, S.W128, 0, n);
    EmptyValid(n, S.W128);
    ValidLoopable(Empty(n, S.W128), S.W128, n);
    EquationsOfSet(S.Hashed(raw, n - S.W128 + 1), list);
    EmptyRepresents(n, S.W128);
    WholeRun(Empty(n, S.W128), S.W128, {}, eqs);
    assert {} + Equations(eqs) == Equations(eqs);
  }

  /** Different keys have different rows, so no two keys ever refuse each other. */
  lemma TwoKeysAccepted(raw: Bits32, n: nat, a: Bits64, b: Bits64)
    requires S.W128 <= n
    ensures AcceptedList(raw, n, [a, b])
  {
    hide FeedAll, RibbonHash, CoeffRow128, ResultRow, Start;
    StdPair(raw, n, a, b);
    DistinctKeysDistinctRows(a, b, Extend(raw, 64));
    TwoRefuse(S.KeyEquation(raw, n - S.W128 + 1, a), S.KeyEquation(raw, n - S.W128 + 1, b), S.W128, n);
  }

  /** The stored rows of two keys depend on their order exactly when the keys share their start
      and differ in their row. */
  lemma HomogRowsDependOnOrder(rawSeed: Bits64, n: nat, a: Bits64, b: Bits64)
    requires H.W <= n
    ensures Loopable(Empty(n, H.W), H.W)
    ensures Feedable(EquationsOf(H.Hashed(rawSeed, n - H.W + 1), [a, b]), H.W, 0)
    ensures Feedable(EquationsOf(H.Hashed(rawSeed, n - H.W + 1), [b, a]), H.W, 0)
    ensures FeedAll(Empty(n, H.W), H.W, 0, EquationsOf(H.Hashed(rawSeed, n - H.W + 1), [a, b])).m
         != FeedAll(Empty(n, H.W), H.W, 0, EquationsOf(H.Hashed(rawSeed, n - H.W + 1), [b, a])).m
        <==> var g, h := RibbonHash(a, rawSeed), RibbonHash(b, rawSeed);
             Start(g, n - H.W + 1) == Start(h, n - H.W + 1) && CoeffRow(g) != CoeffRow(h)
  {
    hide FeedAll, RibbonHash, CoeffRow, Start;
    HomogPair(rawSeed, n, a, b);
    HomogPair(rawSeed, n, b, a);
    TwoOrders(H.KeyEquation(rawSeed, n - H.W + 1, a), H.KeyEquation(rawSeed, n - H.W + 1, b), H.W, n);
  }

  /** In the standard family: exactly when two different keys share their start. */
  lemma StdRowsDependOnOrder(raw: Bits32, n: nat, a: Bits64, b: Bits64)
    requires S.W128 <= n
    ensures Loopable(Empty(n, S.W128), S.W128)
    ensures Feedable(EquationsOf(S.Hashed(raw, n - S.W128 + 1), [a, b]), S.W128, 0)
    ensures Feedable(EquationsOf(S.Hashed(raw, n - S.W128 + 1), [b, a]), S.W128, 0)
    ensures FeedAll(Empty(n, S.W128), S.W128, 0, EquationsOf(S.Hashed(raw, n - S.W128 + 1), [a, b])).m
         != FeedAll(Empty(n, S.W128), S.W128, 0, EquationsOf(S.Hashed(raw, n - S.W128 + 1), [b, a])).m
        <==> a != b && Start(RibbonHash(a, Extend(raw, 64)), n - S.W128 + 1)
                    == Start(RibbonHash(b, Extend(raw, 64)), n - S.W128 + 1)
  {
    hide FeedAll, RibbonHash, CoeffRow128, ResultRow, Start;
    StdPair(raw, n, a, b);
    StdPair(raw, n, b, a);
    DistinctKeysDistinctRows(a, b, Extend(raw, 64));
    TwoOrders(S.KeyEquation(raw, n - S.W128 + 1, a), S.KeyEquation(raw, n - S.W128 + 1, b), S.W128, n);
  }

  // ---------------------------------------------------------------- three keys

  lemma NextBit(p: nat, w: nat, k: nat)
    requires k + 1 < w
    ensures WordOfNat(p, w)[k + 1] == WordOfNat(p / 2, w - 1)[k]
  {
  }

  lemma ThirdBit(p: nat, w: nat)
    requires w >= 3
    ensures WordOfNat(p, w)[2] == (p / 2 / 2 % 2 == 1)
  {
    NextBit(p, w, 1);
    NextBit(p / 2, w - 1, 0);
  }

  /** Bits two and three of the constant that tells the halves of a row apart. */
  lemma XorBits()
    ensures WordOfNat(COEFF_XOR, 64)[2] && WordOfNat(COEFF_XOR, 64)[3]
  {
    hide WordOfNat;
    ThirdBit(COEFF_XOR, 64);
    NextBit(COEFF_XOR, 64, 2);
    ThirdBit(COEFF_XOR / 2, 63);
  }

  /** The sum of two rows, shifted to its lowest set bit, is no row: its halves agree in a bit in
      which the constant makes the halves of every row differ. */
  lemma SumIsNoRow(g: Bits64, h: Bits64, k: Bits64, t: nat)
    requires 0 < t <= 128 && IsZero(Xor(CoeffRow128(g), CoeffRow128(h))[..t])
    ensures Shr(Xor(CoeffRow128(g), CoeffRow128(h)), t) != CoeffRow128(k)
  {
    hide CoeffRow128, Mul, WordOfNat;
    var c := Xor(CoeffRow128(g), CoeffRow128(h));
    forall j | 0 < j < 64 ensures c[j] == c[64 + j] {
      RowBits(g, j);
      RowBits(h, j);
      RowBits(g, 64 + j);
      RowBits(h, 64 + j);
    }
    assert forall j :: 0 <= j < t ==> c[..t][j] == c[j];
    var b := if t <= 61 then 2 else 3;
    var j := if t <= 61 then 2 + t else t - 61;
    assert j < 64 ==> c[j] == c[64 + j];
    assert Shr(c, t)[b] == Shr(c, t)[64 + b];
    XorBits();
    RowBits(k, b);
    RowBits(k, 64 + b);
  }

  lemma StdTriple(raw: Bits32, n: nat, a: Bits64, b: Bits64, c: Bits64)
    requires S.W128 <= n
    ensures var e1, e2 := S.KeyEquation(raw, n - S.W128 + 1, a), S.KeyEquation(raw, n - S.W128 + 1, b);
      var e3 := S.KeyEquation(raw, n - S.W128 + 1, c);
      && EquationValid(e1, S.W128, n) && EquationValid(e2, S.W128, n) && EquationValid(e3, S.W128, n)
      && EquationsOf(S.Hashed(raw, n - S.W128 + 1), [a, b, c]) == [e1, e2, e3]
  {
    hide S.KeyEquation;
    S.KeyEquationValid(raw, n, a);
    S.KeyEquationValid(raw, n, b);
    S.KeyEquationValid(raw, n, c);
  }

  lemma SortedAccepted(raw: Bits32, n: nat, a: Bits64, b: Bits64, c: Bits64)
    requires S.W128 <= n && a != b && b != c && a != c
    requires S.KeyEquation(raw, n - S.W128 + 1, a).start <= S.KeyEquation(raw, n - S.W128 + 1, b).start
    requires S.KeyEquation(raw, n - S.W128 + 1, b).start <= S.KeyEquation(raw, n - S.W128 + 1, c).start
    ensures AcceptedList(raw, n, [a, b, c])
  {
    hide FeedAll, RibbonHash, CoeffRow128, ResultRow, Start, Shr, Xor, IsZero;
    StdTriple(raw, n, a, b, c);
    DistinctKeysDistinctRows(a, b, Extend(raw, 64));
    DistinctKeysDistinctRows(b, c, Extend(raw, 64));
    DistinctKeysDistinctRows(a, c, Extend(raw, 64));
    var e1, e2 := S.KeyEquation(raw, n - S.W128 + 1, a), S.KeyEquation(raw, n - S.W128 + 1, b);
    var e3 := S.KeyEquation(raw, n - S.W128 + 1, c);
    ThreeRefuse(e1, e2, e3, S.W128, n);
    if ThreeRows(e1, e2, e3, S.W128) {
      SumIsNoRow(RibbonHash(a, Extend(raw, 64)), RibbonHash(b, Extend(raw, 64)), RibbonHash(c, Extend(raw, 64)),
                 e3.start - e1.start);
    }
  }

  lemma AcceptedReordered(raw: Bits32, n: nat, list: seq<Bits64>, list': seq<Bits64>)
    requires S.W128 <= n && AcceptedList(raw, n, list) && KeysOf(list) == KeysOf(list')
    ensures AcceptedList(raw, n, list')
  {
    hide AcceptedList, Solvable, EquationSet, KeysOf;
    AcceptedIffSolvable(raw, n, list);
    AcceptedIffSolvable(raw, n, list');
  }

  lemma Sorted(raw: Bits32, n: nat, a: Bits64, b: Bits64, c: Bits64) returns (x: Bits64, y: Bits64, z: Bits64)
    requires S.W128 <= n && a != b && b != c && a != c
    ensures x != y && y != z && x != z && KeysOf([x, y, z]) == KeysOf([a, b, c])
    ensures S.KeyEquation(raw, n - S.W128 + 1, x).start <= S.KeyEquation(raw, n - S.W128 + 1, y).start
    ensures S.KeyEquation(raw, n - S.W128 + 1, y).start <= S.KeyEquation(raw, n - S.W128 + 1, z).start
  {
    hide S.KeyEquation;
    var ns := n - S.W128 + 1;
    var i, j, k := S.KeyEquation(raw, ns, a).start, S.KeyEquation(raw, ns, b).start, S.KeyEquation(raw, ns, c).start;
    if i <= j <= k { x, y, z := a, b, c; }
    else if i <= k <= j { x, y, z := a, c, b; }
    else if j <= i <= k { x, y, z := b, a, c; }
    else if j <= k <= i { x, y, z := b, c, a; }
    else if k <= i <= j { x, y, z := c, a, b; }
    else { x, y, z := c, b, a; }
  }

  /** Nor do any three keys ever refuse each other: no sum of two rows is a row. */
  lemma ThreeKeysAccepted(raw: Bits32, n: nat, a: Bits64, b: Bits64, c: Bits64)
    requires S.W128 <= n
    ensures AcceptedList(raw, n, [a, b, c])
  {
    hide FeedAll, S.KeyEquation, AcceptedList;
    if a == b || a == c {
      TwoKeysAccepted(raw, n, b, c);
      AcceptedReordered(raw, n, [b, c], [a, b, c]);
    } else if b == c {
      TwoKeysAccepted(raw, n, a, b);
      AcceptedReordered(raw, n, [a, b], [a, b, c]);
    } else {
      var x, y, z := Sorted(raw, n, a, b, c);
      SortedAccepted(raw, n, x, y, z);
      AcceptedReordered(raw, n, [x, y, z], [a, b, c]);
    }
  }

  // ---------------------------------------------------------------- order

  /** The key that hashes to `h` under a seed. */
  function KeyOfHash(h: Bits64, rawSeed: Bits64): (key: Bits64)
    ensures RibbonHash(key, rawSeed) == h
  {
    RibbonHashBijective(h, h, rawSeed);
    Unhash(h, rawSeed)
  }

  /** The hash that is worth one. */
  function OneHash(): (h: Bits64) {
    Zeros(64)[0 := true]
  }

  lemma LowStart(h: Bits64, numStarts: nat)
    requires numStarts < TWO64 && NatOfWord(h) <= 1
    ensures Start(h, numStarts) == 0
  {
    hide NatOfWord;
    assert NatOfWord(h) * numStarts == 0 || NatOfWord(h) * numStarts == numStarts;
  }

  lemma RowBit(h: Bits64)
    ensures CoeffRow(h)[2] == (NatOfWord(h) * COEFF_FACTOR / 2 / 2 % 2 == 1)
  {
    hide WordOfNat, NatOfWord;
    ThirdBit(NatOfWord(h) * COEFF_FACTOR, 64);
  }

  /** Hashes zero and one start at slot zero and have different rows. */
  lemma LowHashes(numStarts: nat)
    requires numStarts < TWO64
    ensures Start(Zeros(64), numStarts) == Start(OneHash(), numStarts)
    ensures CoeffRow(Zeros(64)) != CoeffRow(OneHash())
  {
    hide CoeffRow, Start, NatOfWord;
    NatOfZeros(64);
    NatOfSetBit(Zeros(64), 0);
    LowStart(Zeros(64), numStarts);
    LowStart(OneHash(), numStarts);
    RowBit(Zeros(64));
    RowBit(OneHash());
  }

  /** Such pairs exist under every seed and for every slot count of a machine. */
  lemma OrderMatters(rawSeed: Bits64, n: nat) returns (a: Bits64, b: Bits64)
    requires H.W <= n < TWO64
    ensures Loopable(Empty(n, H.W), H.W)
    ensures Feedable(EquationsOf(H.Hashed(rawSeed, n - H.W + 1), [a, b]), H.W, 0)
    ensures Feedable(EquationsOf(H.Hashed(rawSeed, n - H.W + 1), [b, a]), H.W, 0)
    ensures FeedAll(Empty(n, H.W), H.W, 0, EquationsOf(H.Hashed(rawSeed, n - H.W + 1), [a, b])).m
         != FeedAll(Empty(n, H.W), H.W, 0, EquationsOf(H.Hashed(rawSeed, n - H.W + 1), [b, a])).m
  {
    hide FeedAll, CoeffRow, Start, EquationsOf, RibbonHash, KeyOfHash, OneHash, Zeros;
    a, b := KeyOfHash(Zeros(64), rawSeed), KeyOfHash(OneHash(), rawSeed);
    LowHashes(n - H.W + 1);
    HomogRowsDependOnOrder(rawSeed, n, a, b);
  }

  lemma StdOrderMatters(raw: Bits32, n: nat) returns (a: Bits64, b: Bits64)
    requires S.W128 <= n < TWO64
    ensures Loopable(Empty(n, S.W128), S.W128)
    ensures Feedable(EquationsOf(S.Hashed(raw, n - S.W128 + 1), [a, b]), S.W128, 0)
    ensures Feedable(EquationsOf(S.Hashed(raw, n - S.W128 + 1), [b, a]), S.W128, 0)
    ensures FeedAll(Empty(n, S.W128), S.W128, 0, EquationsOf(S.Hashed(raw, n - S.W128 + 1), [a, b])).m
         != FeedAll(Empty(n, S.W128), S.W128, 0, EquationsOf(S.Hashed(raw, n - S.W128 + 1), [b, a])).m
  {
    hide FeedAll, CoeffRow, Start, EquationsOf, RibbonHash, KeyOfHash, OneHash, Zeros;
    a, b := KeyOfHash(Zeros(64), Extend(raw, 64)), KeyOfHash(OneHash(), Extend(raw, 64));
    LowHashes(n - S.W128 + 1);
    StdRowsDependOnOrder(raw, n, a, b);
  }
}
