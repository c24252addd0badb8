/** Serialization of both filter families on top of the envelope. */
module Codec {
  import Arith
  import opened Words
  import Hash128
  import Interleave
  import opened Format
  import H = Homogeneous
  import S = Standard

  lemma StorableShape(r: nat, numStarts: nat, segs: seq<Word>, elemSize: nat, w: nat, umax: nat)
    requires Storable(r, numStarts, segs, elemSize, w, umax)
    ensures Interleave.WellShaped(segs, numStarts + w - 1, w, r) && w + 1 <= numStarts
  {
  }

  lemma ShapeStorable(r: nat, numStarts: nat, segs: seq<Word>, elemSize: nat, w: nat, umax: nat)
    requires 0 < numStarts && 0 < w == 8 * elemSize && umax < TWO64
    requires Interleave.WellShaped(segs, numStarts + w - 1, w, r) && 2 * w <= numStarts + w - 1 <= umax
    requires HEADER_LEN + |segs| * elemSize + CHECKSUM_LEN <= umax
    ensures Storable(r, numStarts, segs, elemSize, w, umax)
  {
  }

  // ---------------------------------------------------------------- homogeneous

  ghost predicate HomogStorable(soln: H.Solution, umax: nat) {
    Storable(soln.r, soln.numStarts, soln.segments, 8, H.W, umax)
  }

  function HomogBytes(soln: H.Solution): seq<Byte> {
    Envelope(FAMILY_HOMOG, soln.r, soln.rawSeed, soln.numStarts, soln.segments)
  }

  method ToBytes(soln: H.Solution) returns (buf: seq<Byte>)
    ensures buf == HomogBytes(soln)
  {
    buf := WriteEnvelope(FAMILY_HOMOG, soln.r, soln.rawSeed, soln.numStarts, soln.segments);
  }

  function FromBytes(bytes: seq<Byte>, r: nat, umax: nat): Result<H.Solution> {
    match Decode(bytes, FAMILY_HOMOG, r, 8, H.W, umax)
    case Err(e) => Err(e)
    case Ok((h, payload)) => Ok(H.Solution(r, Chunks(payload, 8), h.numStarts, h.seed))
  }

  /** A filter survives being written and read. */
  lemma HomogRoundTrip(soln: H.Solution, umax: nat)
    requires HomogStorable(soln, umax)
    ensures FromBytes(HomogBytes(soln), soln.r, umax) == Ok(soln)
  {
    hide Envelope, Decode, Storable, Chunks, SegmentBytes;
    EnvelopeRoundTrip(FAMILY_HOMOG, soln.r, soln.rawSeed, soln.numStarts, soln.segments, 8, H.W, umax);
  }

  /** A buffer that is accepted is exactly what its filter is written as, and that filter may be
      queried with any key: every index stays inside the segments. */
  lemma HomogAccepted(bytes: seq<Byte>, r: nat, umax: nat)
    requires 1 <= r <= 32 && umax < TWO64 && FromBytes(bytes, r, umax).Ok?
    ensures var soln := FromBytes(bytes, r, umax).value;
      soln.r == r && HomogStorable(soln, umax) && HomogBytes(soln) == bytes
      && soln.WellFormed() && H.W + 1 <= soln.numStarts
  {
    hide Envelope, Decode, Chunks, SegmentBytes;
    var soln := FromBytes(bytes, r, umax).value;
    EnvelopeUnique(bytes, FAMILY_HOMOG, r, 8, H.W, umax);
    StorableShape(r, soln.numStarts, soln.segments, 8, H.W, umax);
  }

  /** Exactly the buffers written for storable filters of width `r` are accepted. */
  lemma HomogAcceptedIff(bytes: seq<Byte>, r: nat, umax: nat)
    requires 1 <= r <= 32 && umax < TWO64
    ensures FromBytes(bytes, r, umax).Ok?
            <==> exists soln: H.Solution :: soln.r == r && HomogStorable(soln, umax) && HomogBytes(soln) == bytes
  {
    hide FromBytes, HomogStorable, HomogBytes;
    if FromBytes(bytes, r, umax).Ok? {
      HomogAccepted(bytes, r, umax);
    }
    if soln: H.Solution :| soln.r == r && HomogStorable(soln, umax) && HomogBytes(soln) == bytes {
      HomogRoundTrip(soln, umax);
    }
  }

  /** Every built filter that fits in memory is storable. */
  lemma HomogBuilt(r: nat, n: nat, rawSeed: Bits64, keys: set<Bits64>, umax: nat)
    requires Interleave.Shape(H.W, r) && n % H.W == 0 && 2 * H.W <= n <= umax < TWO64
    requires HEADER_LEN + |H.Filter(r, n, rawSeed, keys).segments| * 8 + CHECKSUM_LEN <= umax
    ensures HomogStorable(H.Filter(r, n, rawSeed, keys), umax)
  {
    hide Storable, H.Member;
    H.FilterWellFormed(r, n, rawSeed, keys);
    var soln := H.Filter(r, n, rawSeed, keys);
    ShapeStorable(r, soln.numStarts, soln.segments, 8, H.W, umax);
  }

  // ---------------------------------------------------------------- standard

  /** The raw seed is always the one its ordinal seed determines. */
  ghost predicate StdStorable(soln: S.Solution128, umax: nat) {
    && Storable(soln.r, soln.numStarts, soln.segments, 16, S.W128, umax)
    && NatOfWord(soln.ordinalSeed) < S.SEED_COUNT
    && soln.rawSeed == Hash128.OrdinalToRawSeed(soln.ordinalSeed)
  }

  function StdBytes(soln: S.Solution128): seq<Byte> {
    Envelope(FAMILY_STD, soln.r, Hash128.Extend(soln.ordinalSeed, 64), soln.numStarts, soln.segments)
  }

  method ToBytes128(soln: S.Solution128) returns (buf: seq<Byte>)
    ensures buf == StdBytes(soln)
  {
    buf := WriteEnvelope(FAMILY_STD, soln.r, Hash128.Extend(soln.ordinalSeed, 64), soln.numStarts, soln.segments);
  }

  function FromBytes128(bytes: seq<Byte>, r: nat, umax: nat): Result<S.Solution128> {
    match Decode(bytes, FAMILY_STD, r, 16, S.W128, umax)
    case Err(e) => Err(e)
    case Ok((h, payload)) =>
      if NatOfWord(h.seed) >= S.SEED_COUNT then Err(BadSeed)
      else
        var ordinal: Bits32 := h.seed[..32];
        Ok(S.Solution128(r, Chunks(payload, 16), h.numStarts, Hash128.OrdinalToRawSeed(ordinal), ordinal))
  }

  /** A 64-bit word worth less than two to the 32 is the extension of its low half. */
  lemma ExtendLow(v: Bits64)
    requires NatOfWord(v) < TWO32
    ensures Hash128.Extend(v[..32], 64) == v
    ensures NatOfWord(v[..32]) == NatOfWord(v)
  {
    hide NatOfWord, WordOfNat, Zeros;
    Pow2Values();
    NatOfPrefix(v, 32);
    Arith.DivModUnique(NatOfWord(v), 0, TWO32, NatOfWord(v));
    NatOfPadded(v[..32], 32);
    NatInjective(Hash128.Extend(v[..32], 64), v);
  }

  lemma ExtendNat(v: Bits32)
    ensures NatOfWord(Hash128.Extend(v, 64)) == NatOfWord(v) && Hash128.Extend(v, 64)[..32] == v
  {
    NatOfPadded(v, 32);
  }

  lemma StdRoundTrip(soln: S.Solution128, umax: nat)
    requires StdStorable(soln, umax)
    ensures FromBytes128(StdBytes(soln), soln.r, umax) == Ok(soln)
  {
    hide Envelope, Decode, Storable, Chunks, SegmentBytes, Hash128.OrdinalToRawSeed, Hash128.Extend, NatOfWord;
    EnvelopeRoundTrip(FAMILY_STD, soln.r, Hash128.Extend(soln.ordinalSeed, 64), soln.numStarts, soln.segments,
                      16, S.W128, umax);
    ExtendNat(soln.ordinalSeed);
  }

  lemma StdAccepted(bytes: seq<Byte>, r: nat, umax: nat)
    requires 1 <= r <= 32 && umax < TWO64 && FromBytes128(bytes, r, umax).Ok?
    ensures var soln := FromBytes128(bytes, r, umax).value;
      soln.r == r && StdStorable(soln, umax) && StdBytes(soln) == bytes
      && soln.WellFormed() && S.W128 + 1 <= soln.numStarts
  {
    hide Envelope, Decode, Chunks, SegmentBytes, Hash128.OrdinalToRawSeed, Hash128.Extend, NatOfWord;
    var soln := FromBytes128(bytes, r, umax).value;
    EnvelopeUnique(bytes, FAMILY_STD, r, 16, S.W128, umax);
    StorableShape(r, soln.numStarts, soln.segments,
                      16, S.W128, umax);
    ExtendLow(Decode(bytes, FAMILY_STD, r, 16, S.W128, umax).value.0.seed);
  }

  lemma StdAcceptedIff(bytes: seq<Byte>, r: nat, umax: nat)
    requires 1 <= r <= 32 && umax < TWO64
    ensures FromBytes128(bytes, r, umax).Ok?
            <==> exists soln: S.Solution128 :: soln.r == r && StdStorable(soln, umax) && StdBytes(soln) == bytes
  {
    hide FromBytes128, StdStorable, StdBytes;
    if FromBytes128(bytes, r, umax).Ok? {
      StdAccepted(bytes, r, umax);
    }
    if soln: S.Solution128 :| soln.r == r && StdStorable(soln, umax) && StdBytes(soln) == bytes {
      StdRoundTrip(soln, umax);
    }
  }

  lemma OrdinalNat(ordinal: nat)
    requires ordinal < S.SEED_COUNT
    ensures NatOfWord(WordOfNat(ordinal, 32)) == ordinal
  {
    hide NatOfWord, WordOfNat;
    Pow2Values();
    NatOfWordOfNat(ordinal, 32);
  }

  lemma StdBuilt(r: nat, n: nat, keys: set<Bits64>, ordinal: nat, umax: nat)
    requires Interleave.Shape(S.W128, r) && n % S.W128 == 0 && 2 * S.W128 <= n <= umax < TWO64
    requires ordinal < S.SEED_COUNT && S.SeedSolves(n, keys, ordinal)
    requires HEADER_LEN + |S.SeedFilter(r, n, keys, ordinal).segments| * 16 + CHECKSUM_LEN <= umax
    ensures StdStorable(S.SeedFilter(r, n, keys, ordinal), umax)
  {
    hide Storable, Hash128.OrdinalToRawSeed, S.SeedSolves;
    S.SeedFilterWellFormed(r, n, keys, ordinal);
    var soln := S.SeedFilter(r, n, keys, ordinal);
    ShapeStorable(r, soln.numStarts, soln.segments,
                      16, S.W128, umax);
    OrdinalNat(ordinal);
  }
}
