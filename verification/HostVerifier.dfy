/** The encryption host's verifier `extract_hpu_native_and_verify`, and what it accepts. */
module HostVerifier {
  import opened Numbers
  import opened NativeLayout
  import opened Radix
  import opened Stream
  import opened HostReference
  import E = LweEncrypt
  import D = LweDecrypt
  import S = StreamInversion

  /** The distance of a phase from a block's encoding. */
  function ErrorFrom(phase: Word, block: nat): int
    requires block < 4
  {
    AsSigned(Wrap(phase - Encode(block)))
  }

  /** The check the verifier computes. */
  predicate ErrorIsSmall(phase: Word, maxError: int) {
    -maxError <= ErrorFrom(phase, DecodeNarrow(phase)) <= maxError
  }

  /** `phase` lies at distance `e` from the encoding of `block`. */
  ghost predicate Near(phase: Word, block: nat, e: int) {
    block < 4 && phase == Wrap(Encode(block) + e)
  }

  ghost predicate NearEncoding(phase: Word, maxError: int) {
    exists block: nat, e: int :: Near(phase, block, e) && -maxError <= e <= maxError
  }

  lemma WrapOfSigned(w: Word)
    ensures Wrap(AsSigned(w)) == w
  {
  }

  lemma NearItsError(phase: Word, block: nat)
    requires block < 4
    ensures Near(phase, block, ErrorFrom(phase, block))
  {
    var encoded: int := Encode(block);
    var difference := Wrap(phase - encoded);
    WrapOfSigned(difference);
    WrapSum(AsSigned(difference), encoded);
    WrapSum(phase - encoded, encoded);
    WrapOfWord(phase);
  }

  lemma ErrorOfNear(phase: Word, block: nat, e: int)
    requires Near(phase, block, e) && -HALF_DELTA <= e < HALF_DELTA
    ensures ErrorFrom(phase, block) == e
  {
    var encoded: int := Encode(block);
    assert Wrap(phase - encoded) == Wrap(e) by {
      WrapSum(encoded + e, -encoded);
    }
    SignedOfWrap(e);
  }

  lemma CheckIsSound(phase: Word, maxError: int)
    requires ErrorIsSmall(phase, maxError)
    ensures NearEncoding(phase, maxError)
  {
    NearItsError(phase, DecodeNarrow(phase));
  }

  lemma CheckIsComplete(phase: Word, block: nat, e: int, maxError: int)
    requires 0 <= maxError < HALF_DELTA
    requires Near(phase, block, e) && -maxError <= e <= maxError
    ensures ErrorIsSmall(phase, maxError)
  {
    assert DecodeNarrow(phase) == block by {
      SmallErrorsAreTolerated(block, e);
    }
    ErrorOfNear(phase, block, e);
  }

  /** The computed check means what it should: the phase lies within the bound of one
      of the four encodings. */
  lemma CheckIsExact(phase: Word, maxError: int)
    requires 0 <= maxError < HALF_DELTA
    ensures ErrorIsSmall(phase, maxError) <==> NearEncoding(phase, maxError)
  {
    if ErrorIsSmall(phase, maxError) {
      CheckIsSound(phase, maxError);
    }
    if NearEncoding(phase, maxError) {
      var b: nat, e: int :| Near(phase, b, e) && -maxError <= e <= maxError;
      CheckIsComplete(phase, b, e, maxError);
    }
  }

  /** Clean padding, and a phase that lies at one of the four encodings, or closer than 2^17 to
      it if there is noise. */
  ghost predicate BlockAccepted(key: Key, native: Native, zeroNoise: bool) {
    PaddingIsZero(native) && NearEncoding(HostPhase(key, native), if zeroNoise then 0 else 0x1_ffff)
  }

  method VerifyBlock(raw: seq<Byte>, lwe: nat, key: Key, zeroNoise: bool)
    returns (ok: bool, decoded: nat, words: seq<Word>)
    requires 8 * (3072 * lwe + 3072) <= |raw|
    ensures words == ToLogical(NativeAtIndex(raw, lwe))
    ensures ok <==> BlockAccepted(key, NativeAtIndex(raw, lwe), zeroNoise)
    ensures decoded == HostBlock(key, NativeAtIndex(raw, lwe))
  {
    var native := NativeAtIndex(raw, lwe);
    var phase, mask := ComputePhase(raw, lwe, key);
    words := mask + [native[PC_DATA_WORDS]];
    assert words == ToLogical(native) by {
      assert ToLogical(native)[2048] == LogicalWord(native, 2048);
    }
    decoded := DecodeNarrow(phase);
    var maxError := if zeroNoise then 0 else 0x1_ffff;
    CheckIsExact(phase, maxError);
    ok := CheckPadding(native);
    ok := ok && ErrorIsSmall(phase, maxError);
  }

  // ---------------------------------------------------------------- the whole buffer

  ghost predicate AcceptedAt(key: Key, raw: seq<Byte>, lwe: nat, zeroNoise: bool)
    requires 24576 * lwe + 24576 <= |raw|
  {
    BlockAccepted(key, NativeAtIndex(raw, lwe), zeroNoise)
  }

  /** The logical words of the first `n` ciphertexts. */
  ghost function LogicalWords(raw: seq<Byte>, n: nat): (ws: seq<Word>)
    requires 24576 * n <= |raw|
  {
    if n == 0 then [] else LogicalWords(raw, n - 1) + ToLogical(NativeAtIndex(raw, n - 1))
  }

  // ---------------------------------------------------------------- one byte

  ghost predicate BlockOk(key: Key, raw: seq<Byte>, i: nat, k: nat, zeroNoise: bool)
    requires k < 4 && 98304 * (i + 1) <= |raw|
  {
    AcceptedAt(key, raw, 4 * i + k, zeroNoise)
  }

  ghost function BlockValue(key: Key, raw: seq<Byte>, i: nat, k: nat): nat
    requires k < 4 && 98304 * (i + 1) <= |raw|
  {
    HostBlock(key, NativeAtIndex(raw, 4 * i + k))
  }

  ghost function WordsAfter(raw: seq<Byte>, i: nat, k: nat): seq<Word>
    requires k <= 4 && 98304 * (i + 1) <= |raw|
  {
    LogicalWords(raw, 4 * i + k)
  }

  ghost function PartialByte(key: Key, raw: seq<Byte>, i: nat, k: nat): nat
    requires k <= 4 && 98304 * (i + 1) <= |raw|
  {
    Assemble(HostBlocks(key, raw, i, k))
  }

  /** One round of the block loop. */
  method VerifyNext(raw: seq<Byte>, i: nat, k: nat, key: Key, expected: Option<Byte>, zeroNoise: bool,
                    partial: nat, before: seq<Word>) returns (ok: bool, partial': nat, words: seq<Word>)
    requires k < 4 && 98304 * (i + 1) <= |raw|
    requires partial == PartialByte(key, raw, i, k) && before == WordsAfter(raw, i, k)
    ensures ok <==>
      && BlockOk(key, raw, i, k, zeroNoise)
      && (expected.Some? ==> BlockValue(key, raw, i, k) == BlockOf(expected.value, k))
    ensures ok ==> partial' == PartialByte(key, raw, i, k + 1) && words == WordsAfter(raw, i, k + 1)
  {
    var accepted, decoded, logical := VerifyBlock(raw, 4 * i + k, key, zeroNoise);
    if !accepted {
      return false, partial, before;
    }
    words := before + logical;
    if expected.Some? && decoded != BlockOf(expected.value, k) {
      return false, partial, words;
    }
    HostBlocksSnoc(key, raw, i, k);
    partial' := partial + decoded * Weight(k);
    ok := true;
  }

  /** What the block loop should find in byte `i`, by block. */
  datatype View = View(accepted: nat -> bool, block: nat -> nat, words: nat -> seq<Word>, partial: nat -> nat)

  ghost function ViewOf(key: Key, raw: seq<Byte>, i: nat, zeroNoise: bool): View
    requires 98304 * (i + 1) <= |raw|
  {
    View((k: nat) => k < 4 && BlockOk(key, raw, i, k, zeroNoise),
         (k: nat) => if k < 4 then BlockValue(key, raw, i, k) else 0,
         (k: nat) => if k <= 4 then WordsAfter(raw, i, k) else [],
         (k: nat) => if k <= 4 then PartialByte(key, raw, i, k) else 0)
  }

  ghost predicate IsView(v: View, key: Key, raw: seq<Byte>, i: nat, zeroNoise: bool)
    requires 98304 * (i + 1) <= |raw|
  {
    && (forall k: nat {:trigger BlockOk(key, raw, i, k, zeroNoise)} | k < 4 ::
          v.accepted(k) <==> BlockOk(key, raw, i, k, zeroNoise))
    && (forall k: nat {:trigger BlockValue(key, raw, i, k)} | k < 4 :: v.block(k) == BlockValue(key, raw, i, k))
    && (forall k: nat {:trigger WordsAfter(raw, i, k)} | k <= 4 :: v.words(k) == WordsAfter(raw, i, k))
    && (forall k: nat {:trigger PartialByte(key, raw, i, k)} | k <= 4 :: v.partial(k) == PartialByte(key, raw, i, k))
  }

  /** The round in terms of the view. */
  method VerifyRound(raw: seq<Byte>, i: nat, k: nat, key: Key, expected: Option<Byte>, zeroNoise: bool,
                     partial: nat, before: seq<Word>, ghost v: View) returns (ok: bool, partial': nat, words: seq<Word>)
    requires k < 4 && 98304 * (i + 1) <= |raw| && IsView(v, key, raw, i, zeroNoise)
    requires partial == v.partial(k) && before == v.words(k)
    ensures ok <==> v.accepted(k) && (expected.Some? ==> v.block(k) == BlockOf(expected.value, k))
    ensures ok ==> partial' == v.partial(k + 1) && words == v.words(k + 1)
  {
    assert partial == PartialByte(key, raw, i, k) && before == WordsAfter(raw, i, k);
    ok, partial', words := VerifyNext(raw, i, k, key, expected, zeroNoise, partial, before);
  }

  /** The block loop. */
  method VerifyBlocks(raw: seq<Byte>, i: nat, key: Key, expected: Option<Byte>, zeroNoise: bool,
                      before: seq<Word>, ghost v: View) returns (ok: bool, partial: nat, words: seq<Word>)
    requires 98304 * (i + 1) <= |raw| && IsView(v, key, raw, i, zeroNoise)
    requires v.partial(0) == 0 && before == v.words(0)
    ensures ok <==> forall k: nat | k < 4 ::
                      v.accepted(k) && (expected.Some? ==> v.block(k) == BlockOf(expected.value, k))
    ensures ok ==> partial == v.partial(4) && words == v.words(4)
  {
    partial, words := 0, before;
    for k := 0 to 4
      invariant partial == v.partial(k) && words == v.words(k)
      invariant forall j: nat | j < k :: v.accepted(j) && (expected.Some? ==> v.block(j) == BlockOf(expected.value, j))
    {
      ok, partial, words := VerifyRound(raw, i, k, key, expected, zeroNoise, partial, words, v);
      if !ok {
        return;
      }
    }
    ok := true;
  }

  ghost predicate BlocksMatch(blocks: seq<nat>, expected: Option<Byte>)
    requires |blocks| == 4
  {
    expected.Some? ==> forall k: nat | k < 4 :: blocks[k] == BlockOf(expected.value, k)
  }

  lemma MatchMeansEqual(blocks: seq<nat>, expected: Option<Byte>)
    requires |blocks| == 4 && forall k | 0 <= k < 4 :: blocks[k] < 4
    ensures BlocksMatch(blocks, expected) <==> (expected.Some? ==> Assemble(blocks) == expected.value)
  {
    if expected.Some? {
      AssembleIsInjective(blocks, expected.value);
    }
  }

  lemma ViewIsView(key: Key, raw: seq<Byte>, i: nat, zeroNoise: bool)
    requires 98304 * (i + 1) <= |raw|
    ensures IsView(ViewOf(key, raw, i, zeroNoise), key, raw, i, zeroNoise)
  {
  }

  lemma AcceptedBlocks(v: View, key: Key, raw: seq<Byte>, i: nat, zeroNoise: bool)
    requires 98304 * (i + 1) <= |raw| && IsView(v, key, raw, i, zeroNoise)
    ensures (forall k: nat | k < 4 :: v.accepted(k)) <==>
            (forall lwe: nat | 4 * i <= lwe < 4 * i + 4 :: AcceptedAt(key, raw, lwe, zeroNoise))
  {
    if forall k: nat | k < 4 :: v.accepted(k) {
      forall lwe: nat | 4 * i <= lwe < 4 * i + 4
        ensures AcceptedAt(key, raw, lwe, zeroNoise)
      {
        assert BlockOk(key, raw, i, lwe - 4 * i, zeroNoise);
      }
    }
    if forall lwe: nat | 4 * i <= lwe < 4 * i + 4 :: AcceptedAt(key, raw, lwe, zeroNoise) {
      forall k: nat | k < 4
        ensures v.accepted(k)
      {
        assert AcceptedAt(key, raw, 4 * i + k, zeroNoise);
        assert BlockOk(key, raw, i, k, zeroNoise);
      }
    }
  }

  lemma MatchingBlocks(v: View, key: Key, raw: seq<Byte>, i: nat, zeroNoise: bool, expected: Option<Byte>)
    requires 98304 * (i + 1) <= |raw| && IsView(v, key, raw, i, zeroNoise) && expected.Some?
    ensures (forall k: nat | k < 4 :: v.block(k) == BlockOf(expected.value, k)) <==>
            HostByte(key, raw, i) == expected.value
  {
    var blocks := HostBlocks(key, raw, i, 4);
    MatchMeansEqual(blocks, expected);
    forall k: nat | k < 4
      ensures blocks[k] == v.block(k)
    {
      assert blocks[k] == BlockValue(key, raw, i, k);
    }
  }

  lemma FirstWords(v: View, key: Key, raw: seq<Byte>, i: nat, zeroNoise: bool)
    requires 98304 * (i + 1) <= |raw| && IsView(v, key, raw, i, zeroNoise)
    ensures v.partial(0) == 0 && v.words(0) == LogicalWords(raw, 4 * i)
    ensures v.partial(4) == HostByte(key, raw, i) && v.words(4) == LogicalWords(raw, 4 * i + 4)
  {
    assert PartialByte(key, raw, i, 0) == 0;
    assert WordsAfter(raw, i, 0) == LogicalWords(raw, 4 * i);
    assert PartialByte(key, raw, i, 4) == HostByte(key, raw, i);
    assert WordsAfter(raw, i, 4) == LogicalWords(raw, 4 * i + 4);
  }

  /** One byte: four blocks, each compared with the expected value of the first byte. */
  method VerifyByte(raw: seq<Byte>, i: nat, key: Key, expected: Option<Byte>, zeroNoise: bool, before: seq<Word>)
    returns (ok: bool, clear: Byte, words: seq<Word>)
    requires 98304 * (i + 1) <= |raw| && before == LogicalWords(raw, 4 * i)
    ensures ok <==>
      && (forall lwe: nat | 4 * i <= lwe < 4 * i + 4 :: AcceptedAt(key, raw, lwe, zeroNoise))
      && (expected.Some? ==> HostByte(key, raw, i) == expected.value)
    ensures ok ==> clear == HostByte(key, raw, i) && words == LogicalWords(raw, 4 * i + 4)
  {
    ghost var v := ViewOf(key, raw, i, zeroNoise);
    ViewIsView(key, raw, i, zeroNoise);
    FirstWords(v, key, raw, i, zeroNoise);
    AcceptedBlocks(v, key, raw, i, zeroNoise);
    if expected.Some? {
      MatchingBlocks(v, key, raw, i, zeroNoise, expected);
    }
    var partial;
    ok, partial, words := VerifyBlocks(raw, i, key, expected, zeroNoise, before, v);
    clear := 0;
    if ok {
      clear := partial;
    }
  }

  ghost predicate AllAccepted(key: Key, raw: seq<Byte>, n: nat, zeroNoise: bool)
    requires 24576 * n <= |raw|
  {
    forall lwe: nat | lwe < n :: AcceptedAt(key, raw, lwe, zeroNoise)
  }

  lemma FourMore(key: Key, raw: seq<Byte>, i: nat, zeroNoise: bool)
    requires 98304 * (i + 1) <= |raw|
    ensures AllAccepted(key, raw, 4 * (i + 1), zeroNoise) <==>
            && AllAccepted(key, raw, 4 * i, zeroNoise)
            && (forall lwe: nat | 4 * i <= lwe < 4 * i + 4 :: AcceptedAt(key, raw, lwe, zeroNoise))
  {
  }

  lemma OneMoreByte(key: Key, raw: seq<Byte>, i: nat)
    requires 98304 * (i + 1) <= |raw|
    ensures HostBytes(key, raw, i + 1) == HostBytes(key, raw, i) + [HostByte(key, raw, i)]
  {
  }

  /** The first `i` bytes of the buffer pass. */
  ghost predicate Passes(key: Key, raw: seq<Byte>, i: nat, expected: Option<Byte>, zeroNoise: bool) {
    && 98304 * i <= |raw| && AllAccepted(key, raw, 4 * i, zeroNoise)
    && (expected.Some? && i > 0 ==> HostByte(key, raw, 0) == expected.value)
  }

  lemma PassesStep(key: Key, raw: seq<Byte>, i: nat, expected: Option<Byte>, zeroNoise: bool)
    requires 98304 * (i + 1) <= |raw| && Passes(key, raw, i, expected, zeroNoise)
    ensures Passes(key, raw, i + 1, expected, zeroNoise) <==>
            && (forall lwe: nat | 4 * i <= lwe < 4 * i + 4 :: AcceptedAt(key, raw, lwe, zeroNoise))
            && (expected.Some? && i == 0 ==> HostByte(key, raw, i) == expected.value)
  {
    FourMore(key, raw, i, zeroNoise);
  }

  /** What fails early fails. */
  lemma FailsForGood(key: Key, raw: seq<Byte>, i: nat, n: nat, expected: Option<Byte>, zeroNoise: bool)
    requires 0 < i <= n && !Passes(key, raw, i, expected, zeroNoise)
    ensures !Passes(key, raw, n, expected, zeroNoise)
  {
  }

  /** One round of the byte loop. */
  method VerifyItem(raw: seq<Byte>, i: nat, key: Key, expected: Option<Byte>, zeroNoise: bool,
                    clears: seq<Byte>, words: seq<Word>) returns (ok: bool, clears': seq<Byte>, words': seq<Word>)
    requires 98304 * (i + 1) <= |raw| && Passes(key, raw, i, expected, zeroNoise)
    requires clears == HostBytes(key, raw, i) && words == LogicalWords(raw, 4 * i)
    ensures ok <==> Passes(key, raw, i + 1, expected, zeroNoise)
    ensures ok ==> clears' == HostBytes(key, raw, i + 1) && words' == LogicalWords(raw, 4 * (i + 1))
  {
    PassesStep(key, raw, i, expected, zeroNoise);
    var clear;
    ok, clear, words' := VerifyByte(raw, i, key, if i == 0 then expected else None, zeroNoise, words);
    OneMoreByte(key, raw, i);
    clears' := clears + [clear];
  }

  /** `extract_hpu_native_and_verify` */
  method ExtractAndVerify(raw: seq<Byte>, n: nat, key: Key, expected: Option<Byte>, zeroNoise: bool)
    returns (ok: bool, clears: seq<Byte>, words: seq<Word>)
    ensures ok <==>
      && 98304 * n <= |raw| && AllAccepted(key, raw, 4 * n, zeroNoise)
      && (expected.Some? && n > 0 ==> HostByte(key, raw, 0) == expected.value)
    ensures ok ==> clears == HostBytes(key, raw, n) && words == LogicalWords(raw, 4 * n)
  {
    clears, words := [], [];
    if |raw| / 8 < 4 * n * 2 * 1536 {
      return false, clears, words;
    }
    for i := 0 to n
      invariant Passes(key, raw, i, expected, zeroNoise)
      invariant clears == HostBytes(key, raw, i) && words == LogicalWords(raw, 4 * i)
    {
      ok, clears, words := VerifyItem(raw, i, key, expected, zeroNoise, clears, words);
      if !ok {
        FailsForGood(key, raw, i + 1, n, expected, zeroNoise);
        return;
      }
    }
    ok := true;
  }

  // ---------------------------------------------------------------- lwe_encrypt's output

  lemma CiphertextPhase(p: E.Params, key: Key, s0: Word, block: nat)
    requires S.HostParams(p, key) && block < 4
    ensures var native := ToNative(E.Ciphertext(p, s0, 2048, Encode(block), 0));
      Near(HostPhase(key, native), block, E.NoiseFor(p, s0, 2048, 0))
  {
    var logical: Logical := E.Ciphertext(p, s0, 2048, Encode(block), 0);
    S.LogicalOfCiphertext(p, key, s0, Encode(block));
    LogicalOfNative(logical);
    NativeAt(logical, 0, PC_DATA_WORDS);
    S.PhaseOfBody(Sum(E.MaskTerms(p, s0, 2048)), Encode(block), E.NoiseFor(p, s0, 2048, 0));
  }

  /** The verifier runs in zero-noise mode only if lwe_encrypt did. */
  ghost predicate SameNoise(p: E.Params, zeroNoise: bool) {
    zeroNoise ==> p.noiseMode != E.NOISE_TUNIFORM
  }

  lemma CiphertextIsAccepted(p: E.Params, key: Key, s0: Word, block: nat, zeroNoise: bool)
    requires S.HostParams(p, key) && block < 4 && SameNoise(p, zeroNoise)
    ensures BlockAccepted(key, ToNative(E.Ciphertext(p, s0, 2048, Encode(block), 0)), zeroNoise)
  {
    CiphertextPhase(p, key, s0, block);
    LogicalOfNative(E.Ciphertext(p, s0, 2048, Encode(block), 0));
    S.NoiseIsSmall(p, key, s0);
    var native := ToNative(E.Ciphertext(p, s0, 2048, Encode(block), 0));
    var e := E.NoiseFor(p, s0, 2048, 0);
    assert Near(HostPhase(key, native), block, e) && -0x2_0000 < e < 0x2_0000 && (zeroNoise ==> e == 0);
  }

  lemma BufferNative(p: E.Params, stream: seq<Packet>, raw: seq<Byte>, clears: seq<Byte>, i: nat, k: nat)
    requires p.outputLayout == E.LAYOUT_HPU_NATIVE && S.StartsWithPayload(stream, p, clears) && Carries(stream, raw)
    requires i < |clears| && k < 4 && 98304 * |clears| <= |raw|
    ensures NativeAtIndex(raw, 4 * i + k) == ToNative(E.BlockCiphertext(p, clears[i], i, k))
  {
    var found := D.NativeFrom(stream, 384 * (4 * i + k));
    assert found == NativeAtIndex(raw, 4 * i + k) by {
      NativeOfBuffer(stream, raw, 4 * i + k);
    }
    assert found == ToNative(E.BlockCiphertext(p, clears[i], i, k)) by {
      S.NativeOfPayload(stream, p, clears, i, k);
    }
  }

  lemma AcceptedNative(key: Key, raw: seq<Byte>, lwe: nat, native: Native, zeroNoise: bool)
    requires 24576 * lwe + 24576 <= |raw| && NativeAtIndex(raw, lwe) == native
    requires BlockAccepted(key, native, zeroNoise)
    ensures AcceptedAt(key, raw, lwe, zeroNoise)
  {
  }

  /** Ciphertext `k` of byte `i` is accepted wherever it lies. */
  lemma BlockIsAccepted(p: E.Params, key: Key, clear: Byte, i: nat, k: nat, zeroNoise: bool)
    requires S.HostParams(p, key) && k < 4 && SameNoise(p, zeroNoise)
    ensures BlockAccepted(key, ToNative(E.BlockCiphertext(p, clear, i, k)), zeroNoise)
  {
    CiphertextIsAccepted(p, key, p.generator.seed(E.CiphertextIndex(i, k)), BlockOf(clear, k), zeroNoise);
  }

  /** What `lwe_encrypt` should have put at position `lwe` of the buffer. */
  ghost function CipherAt(p: E.Params, clears: seq<Byte>, lwe: nat): Native
    requires lwe < 4 * |clears|
  {
    ToNative(E.BlockCiphertext(p, clears[lwe / 4], lwe / 4, lwe % 4))
  }

  lemma CipherAtIsAccepted(p: E.Params, key: Key, clears: seq<Byte>, lwe: nat, zeroNoise: bool)
    requires S.HostParams(p, key) && lwe < 4 * |clears| && SameNoise(p, zeroNoise)
    ensures BlockAccepted(key, CipherAt(p, clears, lwe), zeroNoise)
  {
    BlockIsAccepted(p, key, clears[lwe / 4], lwe / 4, lwe % 4, zeroNoise);
  }

  lemma BufferHoldsCiphers(p: E.Params, stream: seq<Packet>, raw: seq<Byte>, clears: seq<Byte>)
    requires p.outputLayout == E.LAYOUT_HPU_NATIVE && S.StartsWithPayload(stream, p, clears) && Carries(stream, raw)
    requires 98304 * |clears| <= |raw|
    ensures forall lwe: nat | lwe < 4 * |clears| :: NativeAtIndex(raw, lwe) == CipherAt(p, clears, lwe)
  {
    forall lwe: nat | lwe < 4 * |clears|
      ensures NativeAtIndex(raw, lwe) == CipherAt(p, clears, lwe)
    {
      BufferHoldsCipher(p, stream, raw, clears, lwe, lwe / 4, lwe % 4);
    }
  }

  lemma BufferHoldsCipher(p: E.Params, stream: seq<Packet>, raw: seq<Byte>, clears: seq<Byte>, lwe: nat, i: nat, k: nat)
    requires p.outputLayout == E.LAYOUT_HPU_NATIVE && S.StartsWithPayload(stream, p, clears) && Carries(stream, raw)
    requires lwe < 4 * |clears| && 98304 * |clears| <= |raw| && i == lwe / 4 && k == lwe % 4
    ensures NativeAtIndex(raw, lwe) == CipherAt(p, clears, lwe)
  {
    BufferNative(p, stream, raw, clears, i, k);
  }

  lemma CiphersAreAccepted(p: E.Params, key: Key, raw: seq<Byte>, clears: seq<Byte>, zeroNoise: bool)
    requires S.HostParams(p, key) && SameNoise(p, zeroNoise) && 98304 * |clears| <= |raw|
    requires forall lwe: nat | lwe < 4 * |clears| :: NativeAtIndex(raw, lwe) == CipherAt(p, clears, lwe)
    ensures AllAccepted(key, raw, 4 * |clears|, zeroNoise)
  {
    forall lwe: nat | lwe < 4 * |clears|
      ensures AcceptedAt(key, raw, lwe, zeroNoise)
    {
      CipherAtIsAccepted(p, key, clears, lwe, zeroNoise);
      AcceptedNative(key, raw, lwe, CipherAt(p, clears, lwe), zeroNoise);
    }
  }

  /** The verifier accepts every buffer that lwe_encrypt fills and reads the plaintext
      from it. */
  lemma EncryptedBufferIsAccepted(p: E.Params, key: Key, clears: seq<Byte>, done: Packet, raw: seq<Byte>,
                                  zeroNoise: bool)
    requires S.HostParams(p, key) && |clears| < TWO32 && SameNoise(p, zeroNoise)
    requires Carries(E.Emitted(E.EmitterOf(p).byte, clears) + [done], raw) && 98304 * |clears| <= |raw|
    ensures AllAccepted(key, raw, 4 * |clears|, zeroNoise)
    ensures HostBytes(key, raw, |clears|) == clears
  {
    var stream := E.Emitted(E.EmitterOf(p).byte, clears) + [done];
    S.PayloadPositions(p, clears, [done]);
    BufferHoldsCiphers(p, stream, raw, clears);
    CiphersAreAccepted(p, key, raw, clears, zeroNoise);
    S.BytesOfPayload(stream, p, key, clears);
    FpgaRefinesHost(key, stream, raw, |clears|);
  }
}
