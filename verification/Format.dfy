/** The serialization envelope: little-endian bytes, the FNV-1a checksum, the header, and the
    chain of checks that a buffer passes before anything is indexed. */
module Format {
  import opened Arith
  import opened Words
  import Hash

  type Byte = v: Word | |v| == 8 witness seq(8, _ => false)

  datatype DecodeError =
    | TooShort | BadMagic | WrongFamily | WrongResultWidth | NonZeroReserved
    | BadGeometry | LengthMismatch | BadSeed | BadChecksum

  datatype Result<+T> = Ok(value: T) | Err(error: DecodeError)

  const HEADER_LEN: nat := 32
  const CHECKSUM_LEN: nat := 8
  const FAMILY_HOMOG: nat := 0
  const FAMILY_STD: nat := 1
  const FNV_OFFSET: Bits64 := WordOfNat(0xcbf2_9ce4_8422_2325, 64)
  const FNV_PRIME: nat := 0x0000_0100_0000_01b3
  const FNV_INVERSE: nat := 0xce96_5057_aff6_957b

  function ByteOf(n: nat): Byte {
    WordOfNat(n, 8)
  }

  /** "PLT1". */
  function Magic(): (m: seq<Byte>)
    ensures |m| == 4
  {
    [ByteOf(0x50), ByteOf(0x4C), ByteOf(0x54), ByteOf(0x31)]
  }

  // ---------------------------------------------------------------- little-endian words

  /** `to_le_bytes` of a word of whole bytes. */
  function WordBytes(v: Word): (bs: seq<Byte>)
    ensures |bs| == |v| / 8
  {
    if |v| < 8 then [] else [v[..8]] + WordBytes(v[8..])
  }

  /** `from_le_bytes`. */
  function BytesWord(bs: seq<Byte>): (v: Word)
    ensures |v| == 8 * |bs|
  {
    if |bs| == 0 then [] else bs[0] + BytesWord(bs[1..])
  }

  lemma {:induction false} BytesOfWord(v: Word)
    requires |v| % 8 == 0
    ensures BytesWord(WordBytes(v)) == v
  {
    if |v| >= 8 {
      BytesOfWord(v[8..]);
      assert WordBytes(v)[1..] == WordBytes(v[8..]);
      assert v[..8] + v[8..] == v;
    }
  }

  lemma {:induction false} WordOfBytes(bs: seq<Byte>)
    ensures WordBytes(BytesWord(bs)) == bs
  {
    if |bs| > 0 {
      WordOfBytes(bs[1..]);
      var v := BytesWord(bs);
      assert v[..8] == bs[0] && v[8..] == BytesWord(bs[1..]);
      assert bs == [bs[0]] + bs[1..];
    }
  }

  // ---------------------------------------------------------------- checksum

  /** One step of FNV-1a: `(h ^ b) * prime`. */
  function FnvStep(h: Bits64, b: Byte): (r: Bits64) {
    Mul(Xor(h, b + Zeros(56)), FNV_PRIME)
  }

  function Fnv(bytes: seq<Byte>): (h: Bits64) {
    if |bytes| == 0 then FNV_OFFSET else FnvStep(Fnv(bytes[..|bytes| - 1]), bytes[|bytes| - 1])
  }

  method Fnv1a(bytes: seq<Byte>) returns (h: Bits64)
    ensures h == Fnv(bytes)
  {
    hide FnvStep;
    h := FNV_OFFSET;
    for i := 0 to |bytes|
      invariant h == Fnv(bytes[..i])
    {
      assert bytes[..i + 1][..i] == bytes[..i];
      h := FnvStep(h, bytes[i]);
    }
    assert bytes[..|bytes|] == bytes;
  }

  lemma MulByPrimeInjective(a: Bits64, b: Bits64)
    requires Mul(a, FNV_PRIME) == Mul(b, FNV_PRIME)
    ensures a == b
  {
    Hash.MulBack(a, FNV_PRIME, FNV_INVERSE);
    Hash.MulBack(b, FNV_PRIME, FNV_INVERSE);
  }

  /** A step is injective in the running hash and, separately, in the byte. */
  lemma FnvStepInjective(h: Bits64, g: Bits64, b: Byte, c: Byte)
    ensures FnvStep(h, b) == FnvStep(g, b) ==> h == g
    ensures FnvStep(h, b) == FnvStep(h, c) ==> b == c
  {
    hide Mul;
    if FnvStep(h, b) == FnvStep(g, b) {
      MulByPrimeInjective(Xor(h, b + Zeros(56)), Xor(g, b + Zeros(56)));
      XorCancel(h, b + Zeros(56));
      XorCancel(g, b + Zeros(56));
    }
    if FnvStep(h, b) == FnvStep(h, c) {
      MulByPrimeInjective(Xor(h, b + Zeros(56)), Xor(h, c + Zeros(56)));
      XorComm(h, b + Zeros(56));
      XorComm(h, c + Zeros(56));
      XorCancel(b + Zeros(56), h);
      XorCancel(c + Zeros(56), h);
      assert (b + Zeros(56))[..8] == b && (c + Zeros(56))[..8] == c;
    }
  }

  /** Changing one byte changes the checksum, wherever the byte is. */
  lemma {:induction false} FnvDetects(bytes: seq<Byte>, i: nat, c: Byte)
    requires i < |bytes| && c != bytes[i]
    ensures Fnv(bytes[i := c]) != Fnv(bytes)
  {
    hide FnvStep;
    var n := |bytes| - 1;
    var changed := bytes[i := c];
    if i == n {
      assert changed[..n] == bytes[..n];
      FnvStepInjective(Fnv(bytes[..n]), Fnv(bytes[..n]), bytes[n], c);
    } else {
      assert changed[..n] == bytes[..n][i := c];
      FnvDetects(bytes[..n], i, c);
      FnvStepInjective(Fnv(changed[..n]), Fnv(bytes[..n]), bytes[n], bytes[n]);
    }
  }

  // ---------------------------------------------------------------- envelope

  datatype Header = Header(seed: Bits64, numStarts: nat)

  /** The header fields, written out in order. */
  function WriteHeader(family: nat, r: nat, seed: Bits64, numStarts: nat, segmentCount: nat): (out: seq<Byte>)
    ensures |out| == HEADER_LEN
  {
    Magic() + [ByteOf(family), ByteOf(r), ByteOf(0), ByteOf(0)]
      + WordBytes(seed) + WordBytes(WordOfNat(numStarts, 64)) + WordBytes(WordOfNat(segmentCount, 64))
  }

  /** Appends the checksum over everything written so far. */
  function Finish(buf: seq<Byte>): (out: seq<Byte>) {
    buf + WordBytes(Fnv(buf))
  }

  function U64At(bytes: seq<Byte>, at: nat): (v: Bits64)
    requires at + 8 <= |bytes|
  {
    BytesWord(bytes[at..at + 8])
  }

  /** Number of `w`-slot blocks a filter with `numStarts` starts has. */
  function Blocks(numStarts: nat, w: nat): nat
    requires w > 0
  {
    Div(numStarts + w - 1, w)
  }

  /** The checks on the geometry fields, in order, for a target whose largest `usize` is `umax`:
      the payload length in bytes, or the error. Arithmetic is checked against 64 bits and then
      against `umax`. */
  function Geometry(numStarts: nat, segmentCount: nat, r: nat, elemSize: nat, w: nat, umax: nat): (g: Result<nat>)
    requires w > 0
  {
    if numStarts + (w - 1) >= TWO64 then Err(BadGeometry) else
    var numSlots := numStarts + (w - 1);
    if numStarts == 0 || numSlots % w != 0 || numSlots < 2 * w then Err(BadGeometry) else
    if numSlots > umax then Err(BadGeometry) else
    var numBlocks := Blocks(numStarts, w);
    MulMono(0, numBlocks, r);
    if numBlocks * r >= TWO64 then Err(BadGeometry) else
    if segmentCount != numBlocks * r then Err(BadGeometry) else
    if segmentCount > umax then Err(BadGeometry) else
    MulMono(0, segmentCount, elemSize);
    if segmentCount * elemSize > umax then Err(BadGeometry) else
    if HEADER_LEN + segmentCount * elemSize > umax then Err(BadGeometry) else
    if HEADER_LEN + segmentCount * elemSize + CHECKSUM_LEN > umax then Err(BadGeometry) else
    Ok(segmentCount * elemSize)
  }

  /** Validates a buffer for the target type's family, width and word size. */
  function Decode(bytes: seq<Byte>, family: nat, r: nat, elemSize: nat, w: nat, umax: nat)
    : (d: Result<(Header, seq<Byte>)>)
    requires w > 0
  {
    if |bytes| < HEADER_LEN + CHECKSUM_LEN then Err(TooShort) else
    if bytes[0..4] != Magic() then Err(BadMagic) else
    var checksumAt := |bytes| - CHECKSUM_LEN;
    if Fnv(bytes[..checksumAt]) != U64At(bytes, checksumAt) then Err(BadChecksum) else
    if bytes[4] != ByteOf(family) then Err(WrongFamily) else
    if bytes[5] != ByteOf(r) then Err(WrongResultWidth) else
    if bytes[6..8] != [ByteOf(0), ByteOf(0)] then Err(NonZeroReserved) else
    var seed := U64At(bytes, 8);
    var numStarts := NatOfWord(U64At(bytes, 16));
    var segmentCount := NatOfWord(U64At(bytes, 24));
    match Geometry(numStarts, segmentCount, r, elemSize, w, umax)
    case Err(e) => Err(e)
    case Ok(payloadLen) =>
      if HEADER_LEN + payloadLen + CHECKSUM_LEN != |bytes| then Err(LengthMismatch)
      else Ok((Header(seed, numStarts), bytes[HEADER_LEN..HEADER_LEN + payloadLen]))
  }

  lemma GeometryAccepts(numStarts: nat, segmentCount: nat, r: nat, elemSize: nat, w: nat, umax: nat)
    requires w > 0 && Geometry(numStarts, segmentCount, r, elemSize, w, umax).Ok?
    ensures var n := numStarts + w - 1;
      && w + 1 <= numStarts && n % w == 0 && 2 * w <= n <= umax && n < TWO64
      && segmentCount == Blocks(numStarts, w) * r
      && Geometry(numStarts, segmentCount, r, elemSize, w, umax).value == segmentCount * elemSize
      && HEADER_LEN + segmentCount * elemSize + CHECKSUM_LEN <= umax
  {
    hide Blocks;
  }

  /** What acceptance promises about the geometry: at least two whole blocks of slots, addressable
      on the target, and a payload of exactly one element for each block and column. */
  lemma AcceptedGeometry(bytes: seq<Byte>, family: nat, r: nat, elemSize: nat, w: nat, umax: nat)
    requires w > 0 && Decode(bytes, family, r, elemSize, w, umax).Ok?
    ensures var (h, payload) := Decode(bytes, family, r, elemSize, w, umax).value; var n := h.numStarts + w - 1;
      && w + 1 <= h.numStarts && n % w == 0 && 2 * w <= n <= umax && n < TWO64
      && |payload| == Blocks(h.numStarts, w) * r * elemSize
      && |bytes| == HEADER_LEN + |payload| + CHECKSUM_LEN <= umax
  {
    hide Fnv, WordBytes, BytesWord, NatOfWord, Geometry, ByteOf, Magic;
    GeometryAccepts(NatOfWord(U64At(bytes, 16)), NatOfWord(U64At(bytes, 24)), r, elemSize, w, umax);
  }

  lemma ChecksumCorruption(bytes: seq<Byte>, bad: seq<Byte>, i: nat, c: Byte, at: nat)
    requires at + 8 == |bytes| && i < |bytes| && c != bytes[i] && bad == bytes[i := c]
    requires Fnv(bytes[..at]) == U64At(bytes, at)
    ensures Fnv(bad[..at]) != U64At(bad, at)
  {
    hide Fnv, WordBytes, BytesWord;
    if i < at {
      assert bad[..at] == bytes[..at][i := c];
      FnvDetects(bytes[..at], i, c);
      assert bad[at..at + 8] == bytes[at..at + 8];
    } else {
      assert bad[..at] == bytes[..at];
      assert bad[at..at + 8][i - at] == c && bytes[at..at + 8][i - at] == bytes[i];
      WordOfBytes(bad[at..at + 8]);
      WordOfBytes(bytes[at..at + 8]);
    }
  }

  /** Changing exactly one byte of an accepted buffer is always noticed, by the magic for its four
      bytes and by the checksum for every other, the checksum's own bytes included. */
  lemma OneByteCorruption(bytes: seq<Byte>, i: nat, c: Byte, family: nat, r: nat, elemSize: nat, w: nat, umax: nat)
    requires w > 0 && Decode(bytes, family, r, elemSize, w, umax).Ok?
    requires i < |bytes| && c != bytes[i]
    ensures Decode(bytes[i := c], family, r, elemSize, w, umax) == Err(if i < 4 then BadMagic else BadChecksum)
  {
    hide Fnv, WordBytes, BytesWord, NatOfWord, Geometry, Magic, ByteOf, Zeros;
    var bad, at := bytes[i := c], |bytes| - CHECKSUM_LEN;
    if i < 4 {
      assert bad[0..4][i] == c && bytes[0..4][i] == bytes[i];
    } else {
      assert bad[0..4] == bytes[0..4];
      ChecksumCorruption(bytes, bad, i, c, at);
    }
  }

  /** No proper prefix or extension of an accepted buffer is accepted: the header fixes the length. */
  lemma AcceptedPrefix(a: seq<Byte>, b: seq<Byte>, family: nat, r: nat, elemSize: nat, w: nat, umax: nat)
    requires w > 0 && a <= b
    requires Decode(a, family, r, elemSize, w, umax).Ok? && Decode(b, family, r, elemSize, w, umax).Ok?
    ensures a == b
  {
    hide Fnv, WordBytes, BytesWord, NatOfWord, Geometry;
    assert a[16..24] == b[16..24] && a[24..32] == b[24..32];
  }

  lemma ByteInjective(a: nat, b: nat)
    requires a < 256 && b < 256
    ensures ByteOf(a) == ByteOf(b) <==> a == b
  {
    hide WordOfNat, NatOfWord;
    assert Pow2(8) == 256;
    NatOfWordOfNat(a, 8);
    NatOfWordOfNat(b, 8);
    DivModUnique(a, 0, 256, a);
    DivModUnique(b, 0, 256, b);
  }

  /** A buffer accepted for one family and width is refused, by name, for any other. */
  lemma NoReinterpretation(bytes: seq<Byte>, family: nat, r: nat, elemSize: nat, w: nat, umax: nat,
                           family': nat, r': nat, elemSize': nat, w': nat)
    requires w > 0 && w' > 0 && Decode(bytes, family, r, elemSize, w, umax).Ok?
    requires family < 256 && family' < 256 && r < 256 && r' < 256
    ensures family' != family ==> Decode(bytes, family', r', elemSize', w', umax) == Err(WrongFamily)
    ensures family' == family && r' != r ==> Decode(bytes, family', r', elemSize', w', umax) == Err(WrongResultWidth)
  {
    hide Fnv, WordBytes, BytesWord, NatOfWord, Geometry;
    ByteInjective(family, family');
    ByteInjective(r, r');
  }

  // ---------------------------------------------------------------- payload

  function SegmentBytes(segs: seq<Word>): (bs: seq<Byte>) {
    if |segs| == 0 then [] else SegmentBytes(segs[..|segs| - 1]) + WordBytes(segs[|segs| - 1])
  }

  /** `chunks_exact(e)`, each chunk read as a little-endian word. */
  function Chunks(payload: seq<Byte>, e: nat): (segs: seq<Word>)
    requires e > 0
  {
    if |payload| < e then [] else [BytesWord(payload[..e])] + Chunks(payload[e..], e)
  }

  lemma {:induction false} ChunksSnoc(payload: seq<Byte>, e: nat, k: nat, last: seq<Byte>)
    requires e > 0 && |payload| == k * e && |last| == e
    ensures Chunks(payload + last, e) == Chunks(payload, e) + [BytesWord(last)]
  {
    hide BytesWord;
    if k == 0 {
      assert payload + last == last && last[..e] == last && last[e..] == [];
      assert Chunks(last, e) == [BytesWord(last)] + Chunks([], e);
    } else {
      Distribute(k - 1, 1, e);
      MulMono(0, k - 1, e);
      ChunksSnoc(payload[e..], e, k - 1, last);
      assert (payload + last)[..e] == payload[..e] && (payload + last)[e..] == payload[e..] + last;
    }
  }

  /** Reading back what was written. */
  lemma {:induction false} ChunksOfSegments(segs: seq<Word>, e: nat)
    requires e > 0 && forall s :: 0 <= s < |segs| ==> |segs[s]| == 8 * e
    ensures |SegmentBytes(segs)| == |segs| * e
    ensures Chunks(SegmentBytes(segs), e) == segs
  {
    if |segs| > 0 {
      var init, last := segs[..|segs| - 1], segs[|segs| - 1];
      ChunksOfSegments(init, e);
      ChunksSnoc(SegmentBytes(init), e, |init|, WordBytes(last));
      BytesOfWord(last);
      Distribute(|init|, 1, e);
      assert segs == init + [last];
    }
  }

  /** Writing back what was read. */
  lemma {:induction false} SegmentsOfChunks(payload: seq<Byte>, e: nat, k: nat)
    requires e > 0 && |payload| == k * e
    ensures |Chunks(payload, e)| == k
    ensures forall s :: 0 <= s < k ==> |Chunks(payload, e)[s]| == 8 * e
    ensures SegmentBytes(Chunks(payload, e)) == payload
  {
    if k > 0 {
      Distribute(k - 1, 1, e);
      MulMono(0, k - 1, e);
      var at := (k - 1) * e;
      var init, last := payload[..at], payload[at..];
      assert payload == init + last;
      SegmentsOfChunks(init, e, k - 1);
      ChunksSnoc(init, e, k - 1, last);
      WordOfBytes(last);
      var segs := Chunks(payload, e);
      assert segs[..k - 1] == Chunks(init, e) && segs[k - 1] == BytesWord(last);
    }
  }

  // ---------------------------------------------------------------- both directions of the envelope

  function Envelope(family: nat, r: nat, seed: Bits64, numStarts: nat, segs: seq<Word>): (buf: seq<Byte>) {
    Finish(WriteHeader(family, r, seed, numStarts, |segs|) + SegmentBytes(segs))
  }

  /** The bytes of a filter: header, segments appended one at a time, checksum. */
  method WriteEnvelope(family: nat, r: nat, seed: Bits64, numStarts: nat, segs: seq<Word>) returns (buf: seq<Byte>)
    ensures buf == Envelope(family, r, seed, numStarts, segs)
  {
    hide WriteHeader, WordBytes, Fnv;
    buf := WriteHeader(family, r, seed, numStarts, |segs|);
    ghost var header := buf;
    for i := 0 to |segs|
      invariant buf == header + SegmentBytes(segs[..i])
    {
      assert segs[..i + 1][..i] == segs[..i];
      buf := buf + WordBytes(segs[i]);
    }
    assert segs[..|segs|] == segs;
    var sum := Fnv1a(buf);
    buf := buf + WordBytes(sum);
  }

  lemma HeaderFields(family: nat, r: nat, seed: Bits64, numStarts: nat, segmentCount: nat)
    ensures var h := WriteHeader(family, r, seed, numStarts, segmentCount);
      && h[0..4] == Magic() && h[4] == ByteOf(family) && h[5] == ByteOf(r) && h[6..8] == [ByteOf(0), ByteOf(0)]
      && h[8..16] == WordBytes(seed) && h[16..24] == WordBytes(WordOfNat(numStarts, 64))
      && h[24..32] == WordBytes(WordOfNat(segmentCount, 64))
  {
    hide WordBytes, Magic, ByteOf, WordOfNat;
  }

  /** The sizes that a buffer in memory cannot exceed, and the shape of a built filter. */
  ghost predicate Storable(r: nat, numStarts: nat, segs: seq<Word>, elemSize: nat, w: nat, umax: nat) {
    && 0 < w && w == 8 * elemSize && 1 <= r <= 32 && umax < TWO64
    && 0 < numStarts && (numStarts + w - 1) % w == 0 && 2 * w <= numStarts + w - 1 <= umax
    && |segs| == Blocks(numStarts, w) * r
    && (forall s :: 0 <= s < |segs| ==> |segs[s]| == w)
    && HEADER_LEN + |segs| * elemSize + CHECKSUM_LEN <= umax
  }

  lemma StorableGeometry(r: nat, numStarts: nat, segs: seq<Word>, elemSize: nat, w: nat, umax: nat)
    requires Storable(r, numStarts, segs, elemSize, w, umax)
    ensures |segs| <= umax
    ensures Geometry(numStarts, |segs|, r, elemSize, w, umax) == Ok(|segs| * elemSize)
  {
    MulMono(1, elemSize, |segs|);
    assert elemSize * |segs| == |segs| * elemSize;
  }

  lemma SmallNat(n: nat)
    requires n < TWO64
    ensures NatOfWord(WordOfNat(n, 64)) == n
  {
    hide NatOfWord, WordOfNat, Pow2;
    Pow2Values();
    NatOfWordOfNat(n, 64);
  }

  /** Every storable filter's bytes are accepted and give back exactly what was stored. */
  lemma EnvelopeRoundTrip(family: nat, r: nat, seed: Bits64, numStarts: nat, segs: seq<Word>, elemSize: nat,
                          w: nat, umax: nat)
    requires Storable(r, numStarts, segs, elemSize, w, umax)
    ensures Decode(Envelope(family, r, seed, numStarts, segs), family, r, elemSize, w, umax)
         == Ok((Header(seed, numStarts), SegmentBytes(segs)))
    ensures Chunks(SegmentBytes(segs), elemSize) == segs
  {
    hide Fnv, WordBytes, BytesWord, NatOfWord, WordOfNat, Geometry, WriteHeader, Magic, SegmentBytes, Chunks, ByteOf;
    var h, p := WriteHeader(family, r, seed, numStarts, |segs|), SegmentBytes(segs);
    var buf := Envelope(family, r, seed, numStarts, segs);
    var at := |buf| - CHECKSUM_LEN;
    ChunksOfSegments(segs, elemSize);
    StorableGeometry(r, numStarts, segs, elemSize, w, umax);
    HeaderFields(family, r, seed, numStarts, |segs|);
    assert buf == h + p + WordBytes(Fnv(h + p));
    assert buf[..at] == h + p && buf[at..at + 8] == WordBytes(Fnv(h + p));
    assert buf[0..4] == h[0..4] && buf[6..8] == h[6..8] && buf[4] == h[4] && buf[5] == h[5];
    assert buf[8..16] == h[8..16] && buf[16..24] == h[16..24] && buf[24..32] == h[24..32];
    assert buf[HEADER_LEN..HEADER_LEN + |p|] == p;
    BytesOfWord(Fnv(h + p));
    BytesOfWord(seed);
    BytesOfWord(WordOfNat(numStarts, 64));
    BytesOfWord(WordOfNat(|segs|, 64));
    SmallNat(numStarts);
    SmallNat(|segs|);
  }

  lemma HeaderIs(bytes: seq<Byte>, family: nat, r: nat, seed: Bits64, numStarts: nat, count: nat)
    requires |bytes| >= HEADER_LEN
    requires bytes[0..4] == Magic() && bytes[4] == ByteOf(family) && bytes[5] == ByteOf(r)
    requires bytes[6..8] == [ByteOf(0), ByteOf(0)]
    requires bytes[8..16] == WordBytes(seed) && bytes[16..24] == WordBytes(WordOfNat(numStarts, 64))
    requires bytes[24..32] == WordBytes(WordOfNat(count, 64))
    ensures bytes[..HEADER_LEN] == WriteHeader(family, r, seed, numStarts, count)
  {
    hide WordBytes, Magic, ByteOf, WordOfNat;
    assert bytes[6] == bytes[6..8][0] && bytes[7] == bytes[6..8][1];
    assert bytes[..HEADER_LEN] == bytes[0..4] + [bytes[4], bytes[5], bytes[6], bytes[7]]
                                  + bytes[8..16] + bytes[16..24] + bytes[24..32];
  }

  /** Every accepted buffer is the envelope of what it decodes to. */
  lemma EnvelopeUnique(bytes: seq<Byte>, family: nat, r: nat, elemSize: nat, w: nat, umax: nat)
    requires 0 < w == 8 * elemSize && 1 <= r <= 32 && umax < TWO64
    requires Decode(bytes, family, r, elemSize, w, umax).Ok?
    ensures var (h, payload) := Decode(bytes, family, r, elemSize, w, umax).value;
      var segs := Chunks(payload, elemSize);
      && Storable(r, h.numStarts, segs, elemSize, w, umax)
      && Envelope(family, r, h.seed, h.numStarts, segs) == bytes
  {
    hide Fnv, WordBytes, BytesWord, NatOfWord, WordOfNat, Magic, SegmentBytes, Chunks, ByteOf, Pow2, Blocks;
    var (h, payload) := Decode(bytes, family, r, elemSize, w, umax).value;
    var count := Blocks(h.numStarts, w) * r;
    var at := |bytes| - CHECKSUM_LEN;
    AcceptedGeometry(bytes, family, r, elemSize, w, umax);
    SegmentsOfChunks(payload, elemSize, count);
    WordOfBytes(bytes[8..16]);
    WordOfBytes(bytes[16..24]);
    WordOfBytes(bytes[24..32]);
    WordOfBytes(bytes[at..at + 8]);
    WordOfNatOfWord(U64At(bytes, 16));
    WordOfNatOfWord(U64At(bytes, 24));
    HeaderIs(bytes, family, r, h.seed, h.numStarts, count);
    assert bytes[..at] == bytes[..HEADER_LEN] + payload;
    assert bytes == bytes[..at] + bytes[at..at + 8];
  }
}
