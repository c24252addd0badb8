/** Seeds that are refused for a single result column: four keys that no seed takes in 256 slots
    although a query need not read the column they clash in, and 256 keys without a filter. */
module Clashes {
  import opened Arith
  import opened Words
  import opened Band
  import opened Solutions
  import opened Encoding
  import opened Hash
  import opened Hash128
  import opened Columns
  import opened SmallKeySets
  import opened Options
  import Builders
  import Interleave
  import S = Standard

  /** The word with bits `i` and `j` set. */
  function BitsAt(i: nat, j: nat): (a: Bits64)
    requires i < 64 && j < 64
    ensures forall k :: 0 <= k < 64 ==> a[k] == (k == i || k == j)
  {
    Zeros(64)[i := true][j := true]
  }

  lemma NatOfBitsAt(i: nat, j: nat)
    requires i < 64 && j < 64
    ensures NatOfWord(BitsAt(i, j)) == if i == j then Pow2(i) else Pow2(i) + Pow2(j)
  {
    NatOfZeros(64);
    NatOfSetBit(Zeros(64), i);
    if i != j {
      NatOfSetBit(Zeros(64)[i := true], j);
    } else {
      assert Zeros(64)[i := true][j := true] == Zeros(64)[i := true];
    }
  }

  /** The hash whose product with the coefficient factor is `a`. */
  function HashOf(a: Bits64): (h: Bits64)
    ensures Mul(h, COEFF_FACTOR) == a
  {
    Inverses();
    MulBack(a, COEFF_FACTOR, COEFF_INVERSE);
    Mul(a, COEFF_INVERSE)
  }

  lemma ResultBits(h: Bits64, t: nat)
    requires t < 32
    ensures ResultRow(h)[t] == Mul(h, COEFF_FACTOR)[8 * (7 - t / 8) + t % 8]
  {
    hide Mul;
  }

  // ---------------------------------------------------------------- four keys

  /** Four keys by the products of their hashes with the coefficient factor. The first two
      products differ in bits `p` and `q` and share bit `x`; the others differ one bit lower and
      share bit `y`. */
  datatype Clash = Clash(p: nat, q: nat, x: nat, y: nat) {
    predicate Proper() {
      && 2 <= p && p + 1 < q < 64 && x < 64 && y < 64
      && x != p && x != q && y != p - 1 && y != q - 1 && y != p && y != q
    }

    function Product(i: nat): Bits64
      requires Proper()
    {
      match i
      case 0 => BitsAt(p, x)
      case 1 => BitsAt(q, x)
      case 2 => BitsAt(p - 1, y)
      case _ => BitsAt(q - 1, y)
    }

    /** The result columns in which the four keys clash. */
    predicate Column(t: nat)
      requires t < 32
    {
      var b := 8 * (7 - t / 8) + t % 8;
      b == p || b == q || b == p - 1 || b == q - 1
    }
  }

  /** The first two keys start at one slot and the others at the next. */
  ghost predicate Starts(c: Clash, numStarts: nat, start: nat)
    requires c.Proper()
  {
    forall i: nat :: i < 4 ==> Start(HashOf(c.Product(i)), numStarts) == if i < 2 then start else start + 1
  }

  /** The four keys, under any seed. */
  function ClashKey(c: Clash, raw: Bits32, i: nat): (key: Bits64)
    requires c.Proper()
    ensures RibbonHash(key, Extend(raw, 64)) == HashOf(c.Product(i))
  {
    KeyOfHash(HashOf(c.Product(i)), Extend(raw, 64))
  }

  function ClashKeys(c: Clash, raw: Bits32): (keys: seq<Bits64>)
    requires c.Proper()
    ensures |keys| == 4 && forall i :: 0 <= i < 4 ==> keys[i] == ClashKey(c, raw, i)
  {
    seq(4, i requires 0 <= i < 4 => ClashKey(c, raw, i))
  }

  lemma ProductRow(c: Clash, i: nat, k: nat)
    requires c.Proper() && i < 4 && k < 128
    ensures CoeffRow128(HashOf(c.Product(i)))[k] == if k == 0 then true
      else if k < 64 then c.Product(i)[k] != WordOfNat(COEFF_XOR, 64)[k]
      else c.Product(i)[k - 64]
  {
    hide CoeffRow128, HashOf, Mul, WordOfNat, BitsAt;
    RowBits(HashOf(c.Product(i)), k);
  }

  lemma ClashRows(c: Clash)
    requires c.Proper()
    ensures var r1, r2 := CoeffRow128(HashOf(c.Product(0))), CoeffRow128(HashOf(c.Product(1)));
      var r3, r4 := CoeffRow128(HashOf(c.Product(2))), CoeffRow128(HashOf(c.Product(3)));
      Shr(Xor(r1, r2), 1) == Xor(r3, r4) && r1 != r2
  {
    hide CoeffRow128, HashOf, WordOfNat, BitsAt;
    var r1, r2 := CoeffRow128(HashOf(c.Product(0))), CoeffRow128(HashOf(c.Product(1)));
    var r3, r4 := CoeffRow128(HashOf(c.Product(2))), CoeffRow128(HashOf(c.Product(3)));
    var a, b := Xor(r1, r2), Xor(r3, r4);
    forall k | 0 <= k < 128 ensures a[k] == (k == c.p || k == c.q || k == 64 + c.p || k == 64 + c.q) {
      ProductRow(c, 0, k);
      ProductRow(c, 1, k);
    }
    forall k | 0 <= k < 128
      ensures b[k] == (k == c.p - 1 || k == c.q - 1 || k == 63 + c.p || k == 63 + c.q)
    {
      ProductRow(c, 2, k);
      ProductRow(c, 3, k);
    }
    assert a[c.p];
  }

  lemma ProductResult(c: Clash, i: nat, t: nat)
    requires c.Proper() && i < 4 && t < 32
    ensures ResultRow(HashOf(c.Product(i)))[t] == c.Product(i)[8 * (7 - t / 8) + t % 8]
  {
    hide ResultRow, HashOf, Mul, BitsAt;
    ResultBits(HashOf(c.Product(i)), t);
  }

  lemma ClashResults(c: Clash, t: nat)
    requires c.Proper() && t < 32
    ensures var r1, r2 := ResultRow(HashOf(c.Product(0))), ResultRow(HashOf(c.Product(1)));
      var r3, r4 := ResultRow(HashOf(c.Product(2))), ResultRow(HashOf(c.Product(3)));
      Xor(Xor(r1, r2), Xor(r3, r4))[t] <==> c.Column(t)
  {
    hide ResultRow, HashOf, BitsAt;
    ProductResult(c, 0, t);
    ProductResult(c, 1, t);
    ProductResult(c, 2, t);
    ProductResult(c, 3, t);
  }

  ghost function ClashEquation(c: Clash, raw: Bits32, numStarts: nat, i: nat): Equation
    requires c.Proper()
  {
    S.KeyEquation(raw, numStarts, ClashKey(c, raw, i))
  }

  lemma FourEquations(eqOf: Bits64 -> Equation, ks: seq<Bits64>)
    requires |ks| == 4
    ensures EquationSet(eqOf, KeysOf(ks)) == {eqOf(ks[0]), eqOf(ks[1]), eqOf(ks[2]), eqOf(ks[3])}
  {
    assert KeysOf(ks) == {ks[0], ks[1], ks[2], ks[3]};
  }

  lemma ClashEquations(c: Clash, raw: Bits32, ns: nat)
    requires c.Proper()
    ensures EquationSet(S.Hashed(raw, ns), KeysOf(ClashKeys(c, raw)))
         == {ClashEquation(c, raw, ns, 0), ClashEquation(c, raw, ns, 1),
             ClashEquation(c, raw, ns, 2), ClashEquation(c, raw, ns, 3)}
  {
    hide S.KeyEquation, ClashKey, S.Hashed, EquationSet, KeysOf;
    FourEquations(S.Hashed(raw, ns), ClashKeys(c, raw));
  }

  lemma ClashShape(c: Clash, raw: Bits32, n: nat, start: nat)
    requires c.Proper() && S.W128 <= n && Starts(c, n - S.W128 + 1, start)
    ensures var ns := n - S.W128 + 1;
      var e1, e2 := ClashEquation(c, raw, ns, 0), ClashEquation(c, raw, ns, 1);
      var e3, e4 := ClashEquation(c, raw, ns, 2), ClashEquation(c, raw, ns, 3);
      && FourRows(e1, e2, e3, e4, S.W128, n) && e1.row != e2.row
      && forall t :: 0 <= t < 32 ==> (Excess(e1, e2, e3, e4)[t] <==> c.Column(t))
  {
    hide RibbonHash, CoeffRow128, ResultRow, Start, HashOf, Clash.Product, ClashKey, Shr, Xor, Extend, IsZero, Mul;
    var ns := n - S.W128 + 1;
    forall i: nat | i < 4
      ensures EquationValid(ClashEquation(c, raw, ns, i), S.W128, n)
      ensures ClashEquation(c, raw, ns, i) == Equation(if i < 2 then start else start + 1,
        CoeffRow128(HashOf(c.Product(i))), ResultRow(HashOf(c.Product(i))))
    {
      S.KeyEquationValid(raw, n, ClashKey(c, raw, i));
    }
    ClashRows(c);
    var e1, e2 := ClashEquation(c, raw, ns, 0), ClashEquation(c, raw, ns, 1);
    var e3, e4 := ClashEquation(c, raw, ns, 2), ClashEquation(c, raw, ns, 3);
    forall t | 0 <= t < 32 ensures Excess(e1, e2, e3, e4)[t] <==> c.Column(t) {
      ClashResults(c, t);
    }
  }

  /** The system of four such keys is solvable in every result column except those they clash in. */
  lemma ClashByColumn(c: Clash, raw: Bits32, n: nat, start: nat, j: nat)
    requires c.Proper() && S.W128 <= n && Starts(c, n - S.W128 + 1, start) && j < 32
    ensures ColumnSolvable(EquationSet(S.Hashed(raw, n - S.W128 + 1), KeysOf(ClashKeys(c, raw))), n, j)
            <==> !c.Column(j)
  {
    hide FourRows, Excess, ClashEquation, EquationSet, ClashKeys, ColumnSolvable, Starts, Clash.Column;
    var ns := n - S.W128 + 1;
    ClashEquations(c, raw, ns);
    ClashShape(c, raw, n, start);
    FourByColumn(ClashEquation(c, raw, ns, 0), ClashEquation(c, raw, ns, 1),
                 ClashEquation(c, raw, ns, 2), ClashEquation(c, raw, ns, 3), S.W128, n, j);
  }

  lemma ProductsDiffer(c: Clash, i: nat, j: nat)
    requires c.Proper() && i < j < 4
    ensures c.Product(i) != c.Product(j)
  {
    hide BitsAt;
    var k := if i == 0 then c.p else if i == 1 then c.q else c.p - 1;
    assert c.Product(i)[k] != c.Product(j)[k];
  }

  lemma ClashKeysDiffer(c: Clash, raw: Bits32, i: nat, j: nat)
    requires c.Proper() && i < j < 4
    ensures ClashKeys(c, raw)[i] != ClashKeys(c, raw)[j]
  {
    hide RibbonHash, HashOf, BitsAt;
    assert Mul(HashOf(c.Product(i)), COEFF_FACTOR) == c.Product(i);
    assert Mul(HashOf(c.Product(j)), COEFF_FACTOR) == c.Product(j);
    ProductsDiffer(c, i, j);
  }

  // ---------------------------------------------------------------- where the keys start

  /** The hash of a product is worth `h`, the rest of `p` times the inverse factor. */
  lemma StartOfProduct(a: Bits64, p: nat, k: nat, h: nat, numStarts: nat, start: nat)
    requires NatOfWord(a) == p && p * COEFF_INVERSE == k * TWO64 + h && h < TWO64
    requires start * TWO64 <= h * numStarts < start * TWO64 + TWO64
    ensures Start(HashOf(a), numStarts) == start
  {
    hide WordOfNat, NatOfWord, Pow2;
    Pow2Values();
    DivModUnique(p * COEFF_INVERSE, k, TWO64, h);
    DivModUnique(h * numStarts, start, TWO64, h * numStarts - start * TWO64);
  }

  lemma SmallPowers()
    ensures Pow2(1) == 2 && Pow2(2) == 4 && Pow2(7) == 0x80 && Pow2(11) == 0x800 && Pow2(13) == 0x2000
    ensures Pow2(18) == 0x4_0000 && Pow2(19) == 0x8_0000 && Pow2(24) == 0x100_0000 && Pow2(25) == 0x200_0000
  {
    assert Pow2(9) == 0x200 && Pow2(12) == 0x1000;
    Pow2Add(9, 9);
    Pow2Add(12, 12);
    assert Pow2(19) == 2 * Pow2(18) && Pow2(25) == 2 * Pow2(24);
  }

  lemma LargePowers()
    ensures Pow2(31) == 0x8000_0000 && Pow2(32) == TWO32 && Pow2(39) == 0x80_0000_0000
    ensures Pow2(50) == 0x4_0000_0000_0000 && Pow2(51) == 0x8_0000_0000_0000
  {
    hide Pow2;
    Pow2Values();
    SmallPowers();
    Pow2Add(1, 31);
    Pow2Add(32, 7);
    Pow2Add(32, 18);
    Pow2Add(32, 19);
  }

  /** Four keys for 256 slots, the least slot count there is. */
  const FEW: Clash := Clash(2, 32, 1, 39)

  lemma FewStarts()
    ensures FEW.Proper() && Starts(FEW, 129, 111)
  {
    hide Start, HashOf, NatOfWord, BitsAt, Pow2;
    SmallPowers();
    LargePowers();
    NatOfBitsAt(2, 1);
    NatOfBitsAt(32, 1);
    NatOfBitsAt(1, 39);
    NatOfBitsAt(31, 39);
    StartOfProduct(BitsAt(2, 1), 0x6, 0x5, 0xdcca2cef7afe3b5e, 129, 111);
    StartOfProduct(BitsAt(32, 1), 0x100000002, 0xfa21b229, 0xde186e34d3aa13ca, 129, 111);
    StartOfProduct(BitsAt(1, 39), 0x8000000002, 0x7d10d913f6, 0xdec856cfd3aa13ca, 129, 112);
    StartOfProduct(BitsAt(31, 39), 0x8080000000, 0x7d8de9ed08, 0xdf6f777280000000, 129, 112);
  }

  /** Four keys for 384 slots. */
  const MANY: Clash := Clash(25, 51, 11, 13)

  lemma ManyStarts()
    ensures MANY.Proper() && Starts(MANY, 257, 93)
  {
    hide Start, HashOf, NatOfWord, BitsAt, Pow2;
    SmallPowers();
    LargePowers();
    NatOfBitsAt(25, 11);
    NatOfBitsAt(51, 11);
    NatOfBitsAt(24, 13);
    NatOfBitsAt(50, 13);
    StartOfProduct(BitsAt(25, 11), 0x2000800, 0x1f44b35, 0x5d64e962724f2800, 257, 93);
    StartOfProduct(BitsAt(51, 11), 0x8000000000800, 0x7d10d913f5679, 0x5cb93f4ea84f2800, 257, 93);
    StartOfProduct(BitsAt(24, 13), 0x1002000, 0xfa40f6, 0x5e2ed244863ca000, 257, 94);
    StartOfProduct(BitsAt(50, 13), 0x4000000002000, 0x3e886c89fc698, 0x5dd8fd3aa13ca000, 257, 94);
  }

  // ---------------------------------------------------------------- the seeds

  /** The keys of `FEW` have a system that is solvable in every result column but column 24, and
      the seed is refused for it, whatever the number of columns that a query reads. */
  lemma FourKeysRefused(ordinal: nat)
    ensures FEW.Proper()
    ensures var raw := S.RawSeed(ordinal); var keys := ClashKeys(FEW, raw);
      && (forall i, j :: 0 <= i < j < 4 ==> keys[i] != keys[j])
      && (forall j :: 0 <= j < 32 ==> (S.SeedSolvesColumn(256, KeysOf(keys), ordinal, j) <==> j != 24))
      && !S.SeedSolves(256, KeysOf(keys), ordinal)
      && !AcceptedList(raw, 256, keys)
  {
    hide ClashKeys, ClashKey, ColumnSolvable, S.RawSeed, Solvable, EquationSet, KeysOf, AcceptedList, Starts;
    FewStarts();
    var raw := S.RawSeed(ordinal);
    var keys := ClashKeys(FEW, raw);
    var s := EquationSet(S.Hashed(raw, 129), KeysOf(keys));
    forall j | 0 <= j < 32 ensures ColumnSolvable(s, 256, j) <==> j != 24 {
      ClashByColumn(FEW, raw, 256, 111, j);
    }
    assert !ColumnSolvable(s, 256, 24);
    SolvableByColumns(s, 256);
    AcceptedIffSolvable(raw, 256, keys);
    forall i, j | 0 <= i < j < 4 ensures keys[i] != keys[j] {
      ClashKeysDiffer(FEW, raw, i, j);
    }
  }

  lemma ColumnMono(s: set<Equation>, s': set<Equation>, n: nat, j: nat)
    requires s <= s' && ColumnSolvable(s', n, j)
    ensures ColumnSolvable(s, n, j)
  {
    var x :| SolvesColumn(s', n, j, x);
    assert SolvesColumn(s, n, j, x);
  }

  /** The keys of `MANY` under every seed that is tried: 256 of them. */
  ghost function EveryClash(): (keys: seq<Bits64>)
    ensures |keys| == 256
  {
    ManyStarts();
    seq(256, k requires 0 <= k < 256 => ClashKey(MANY, S.RawSeed(k / 4), k % 4))
  }

  lemma EveryClashHolds(o: nat)
    requires o < S.SEED_COUNT
    ensures MANY.Proper() && KeysOf(ClashKeys(MANY, S.RawSeed(o))) <= KeysOf(EveryClash())
  {
    hide ClashKey, S.RawSeed;
    ManyStarts();
    var keys := ClashKeys(MANY, S.RawSeed(o));
    forall i | 0 <= i < 4 ensures keys[i] in EveryClash() {
      DivModUnique(4 * o + i, o, 4, i);
      assert EveryClash()[4 * o + i] == keys[i];
    }
  }

  lemma SupersetRefused(raw: Bits32, keys: set<Bits64>)
    requires MANY.Proper() && KeysOf(ClashKeys(MANY, raw)) <= keys
    ensures !Solvable(EquationSet(S.Hashed(raw, 257), keys), 384)
  {
    hide ClashKeys, S.KeyEquation, ColumnSolvable, Solvable, Starts;
    ManyStarts();
    var s := EquationSet(S.Hashed(raw, 257), KeysOf(ClashKeys(MANY, raw)));
    var s' := EquationSet(S.Hashed(raw, 257), keys);
    ClashByColumn(MANY, raw, 384, 93, 10);
    SolvableByColumns(s', 384);
    if ColumnSolvable(s', 384, 10) {
      ColumnMono(s, s', 384, 10);
    }
  }

  /** A list of keys without a standard filter, in the slots that a list of its length gets: each
      of the 64 seeds is refused for column 10 by the four keys made for it. */
  lemma NoFilterExists(r: nat)
    requires Interleave.Shape(S.W128, r)
    ensures var slots := Builders.NumSlotsFor(Builders.Estimate128(|EveryClash()|, r), S.W128);
      && slots == 384
      && S.Filter(r, slots, KeysOf(EveryClash())) == None
  {
    hide ClashKeys, S.RawSeed, S.KeyEquation, Solvable, EveryClash, KeysOf, EquationSet;
    Builders.SlotsOf256(r);
    forall o: nat | o < S.SEED_COUNT ensures !S.SeedSolves(384, KeysOf(EveryClash()), o) {
      EveryClashHolds(o);
      SupersetRefused(S.RawSeed(o), KeysOf(EveryClash()));
    }
    S.NotFoundIsNone(r, 384, KeysOf(EveryClash()));
  }
}
