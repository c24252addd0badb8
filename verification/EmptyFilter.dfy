/** The homogeneous filter of no keys: its slots are all fill, so it answers for the fill alone. */
module EmptyFilter {
  import opened Arith
  import opened Words
  import opened Numbers
  import opened Band
  import opened Solutions
  import opened Encoding
  import opened Hash
  import opened Homogeneous
  import opened SmallKeySets
  import opened Clashes
  import Interleave

  lemma ModTwice(a: nat, p: nat, q: nat)
    requires p > 0 && q > 0
    ensures p * q > 0 && a % (p * q) % p == a % p
  {
    MulStep(0, p, q);
    var d, e := a / (p * q), a % (p * q);
    DivMod(a, p * q);
    Associate(d, p, q);
    Associate(d, q, p);
    assert a == e + (d * q) * p by {
      assert p * q == q * p;
    }
    MulMono(0, d, q);
    ModShift(e, d * q, p);
  }

  /** The fill of slot `i`: `i` times the constant, modulo two to the 32. */
  lemma FillValue(i: nat)
    ensures NatOfWord(Fill(i)) == i * 0x9E37_79B1_85EB_CA87 % 0x1_0000_0000
  {
    hide NatOfWord, WordOfNat, Pow2;
    Pow2Values();
    var p := i * 0x9E37_79B1_85EB_CA87;
    NatOfWordOfNat(p % TWO64, 32);
    ModTwice(p, TWO32, TWO32);
  }

  lemma AllFree(n: nat, i: nat)
    requires i < n
    ensures Free({}, n, i)
  {
    var x: seq<Bits32> := seq(n, _ => ZERO32);
    var y: seq<Bits32> := x[i := Flip(ZERO32)];
    assert Solves({}, n, x) && Solves({}, n, y) && AgreeFrom(x, y, i + 1);
  }

  ghost function FillVector(n: nat): (x: seq<Bits32>)
    ensures |x| == n && forall i :: 0 <= i < n ==> x[i] == Fill(i)
  {
    seq(n, i requires 0 <= i < n => Fill(i))
  }

  lemma CanonicalIsFill(n: nat, x: seq<Bits32>)
    requires Canonical({}, n, Fill, x)
    ensures x == FillVector(n)
  {
    hide Fill, Free;
    forall i | 0 <= i < n ensures x[i] == Fill(i) {
      AllFree(n, i);
    }
  }

  /** The filter of no keys says yes exactly to the keys whose row sums to zero, in the columns it
      has, over the fill of the slots it covers. */
  lemma EmptyFilterAnswer(r: nat, n: nat, rawSeed: Bits64, key: Bits64)
    requires Interleave.Shape(W, r) && W <= n && n % W == 0
    ensures Filter(r, n, rawSeed, {}).WellFormed()
    ensures var e := KeyEquation(rawSeed, n - W + 1, key);
      Member(Filter(r, n, rawSeed, {}), key) <==> forall j :: 0 <= j < r ==> !Dot(e.row, e.start, FillVector(n))[j]
  {
    hide KeyEquation, Encoded, Dot, Canonical, Hashed, Member, Fill, FillVector;
    KeySetInside(rawSeed, n, {});
    var none := EquationSet(Hashed(rawSeed, n - W + 1), {});
    assert none == {};
    Answer(none, n, Filter(r, n, rawSeed, {}), key);
    CanonicalIsFill(n, CanonicalSolution({}, n, Fill));
  }

  /** The product one: it gives a row of its low bit alone. */
  function LoneProduct(): (a: Bits64)
    ensures forall k :: 0 <= k < 64 ==> a[k] == (k == 0)
  {
    BitsAt(0, 0)
  }

  /** The key whose hash is the inverse factor, so that its product is one. */
  function LoneKey(rawSeed: Bits64): (key: Bits64) {
    KeyOfHash(HashOf(LoneProduct()), rawSeed)
  }

  lemma LoneRow(rawSeed: Bits64, numStarts: nat)
    requires numStarts == 65
    ensures KeyEquation(rawSeed, numStarts, LoneKey(rawSeed)) == Equation(63, LoneProduct(), ZERO32)
  {
    hide NatOfWord, RibbonHash, Mul, KeyOfHash, Start, BitsAt;
    var a := LoneProduct();
    NatOfBitsAt(0, 0);
    assert Pow2(0) == 1;
    StartOfProduct(a, 1, 0, COEFF_INVERSE, 65, 63);
    assert CoeffRow(HashOf(a)) == SetLow(a) == a;
  }

  lemma {:induction false} DotLone(v: Word, i: nat, x: seq<Bits32>)
    requires |v| > 0 && v[0] && IsZero(v[1..])
    ensures Dot(v, i, x) == At(x, i)
  {
    DotZero(v[1..], i + 1, x);
    XorZeros(At(x, i), ZERO32);
  }

  lemma OddFill()
    ensures Fill(63)[0]
  {
    hide WordOfNat, NatOfWord;
    WordOfNatBit(63 * 0x9E37_79B1_85EB_CA87 % TWO64, 32, 0);
    assert Pow2(0) == 1;
  }

  /** An absent key that a filter refuses, whatever its number of columns and its seed. */
  lemma AbsentKeyRefused(r: nat, rawSeed: Bits64)
    requires Interleave.Shape(W, r)
    ensures Filter(r, 128, rawSeed, {}).WellFormed()
    ensures !Member(Filter(r, 128, rawSeed, {}), LoneKey(rawSeed))
  {
    hide NatOfWord, KeyEquation, LoneKey, LoneProduct, Dot, Member, Filter, Fill;
    EmptyFilterAnswer(r, 128, rawSeed, LoneKey(rawSeed));
    LoneRow(rawSeed, 65);
    var v := LoneProduct();
    assert IsZero(v[1..]);
    DotLone(v, 63, FillVector(128));
    OddFill();
  }
}
