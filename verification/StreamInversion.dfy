/** Decryption undoes encryption, over whole streams. */
module StreamInversion {
  import opened Numbers
  import opened NativeLayout
  import opened Radix
  import opened Stream
  import opened Context
  import opened MaskGenerator
  import E = LweEncrypt
  import D = LweDecrypt

  // ---------------------------------------------------------------- one ciphertext

  lemma KeyedSum(p: E.Params, s0: Word, key: Key, logical: Logical)
    requires forall i: nat | i < MASK_DIMENSION :: p.key(i) == key[i]
    requires forall i: nat | i < MASK_DIMENSION :: logical[i] == E.MaskWord(p, s0, i)
    ensures NaturalTerms(key, logical) == E.MaskTerms(p, s0, 2048)
  {
  }

  lemma PhaseOfBody(total: int, encoded: Word, e: int)
    ensures Phase(Wrap(total + encoded + e), Wrap(total)) == Wrap(encoded + e)
  {
    WrapSum(total, Wrap(total + encoded + e));
    WrapSum(total + encoded + e, -total);
  }

  /** Any native ciphertext whose body is the keyed sum of its mask, an encoded block
      and a small error decodes to that block. */
  lemma DecodesTo(key: Key, native: Native, block: nat, e: int)
    requires block < 4 && -HALF_DELTA <= e < HALF_DELTA
    requires native[PC_DATA_WORDS]
          == Wrap(Sum(NaturalTerms(key, ToLogical(native))) + Encode(block) + e)
    ensures D.DecodeNative(StreamKey(key), native) == block
  {
    StreamOrderDoesNotMatter(key, native);
    var total := Sum(NaturalTerms(key, ToLogical(native)));
    PhaseOfBody(total, Encode(block), e);
    RoundingWidthDoesNotMatter(native[PC_DATA_WORDS], Wrap(total));
    SmallErrorsAreTolerated(block, e);
  }

  /** The parameters that the hosts write: u8 radix mode with internal or zero noise. */
  ghost predicate HostParams(p: E.Params, key: Key) {
    && E.ConfigError(p) == 0
    && p.inputMode == E.MODE_U8_RADIX
    && p.outputLayout == E.LAYOUT_HPU_NATIVE
    && p.noiseMode != E.NOISE_INPUT
    && (p.noiseMode == E.NOISE_TUNIFORM ==> p.noiseBoundLog2 == 17)
    && p.inputCount < TWO32
    && forall i: nat | i < MASK_DIMENSION :: p.key(i) == key[i]
  }

  lemma Pow2Of17()
    ensures Pow2(17) == 0x2_0000
  {
    assert Pow2(4) == 16;
    Pow2Split(4, 4);
    Pow2Split(8, 8);
  }

  lemma NoiseIsSmall(p: E.Params, key: Key, s0: Word)
    requires HostParams(p, key)
    ensures -0x2_0000 < E.NoiseFor(p, s0, 2048, 0) < 0x2_0000
  {
    Pow2Of17();
  }

  lemma LogicalOfCiphertext(p: E.Params, key: Key, s0: Word, encoded: Word)
    requires HostParams(p, key)
    ensures var logical: Logical := E.Ciphertext(p, s0, 2048, encoded, 0);
      && NaturalTerms(key, logical) == E.MaskTerms(p, s0, 2048)
      && logical[2048] == E.Body(p, s0, 2048, encoded, 0)
  {
    var logical: Logical := E.Ciphertext(p, s0, 2048, encoded, 0);
    forall i: nat | i < MASK_DIMENSION
      ensures logical[i] == E.MaskWord(p, s0, i)
    {
      assert logical[i] == E.Mask(p, s0, 2048)[i];
    }
    KeyedSum(p, s0, key, logical);
  }

  /** Every ciphertext of lwe_encrypt decodes to its block. */
  lemma CiphertextDecodes(p: E.Params, key: Key, s0: Word, block: nat)
    requires HostParams(p, key) && block < 4
    ensures var logical: Logical := E.Ciphertext(p, s0, 2048, Encode(block), 0);
      D.DecodeNative(StreamKey(key), ToNative(logical)) == block
  {
    var logical: Logical := E.Ciphertext(p, s0, 2048, Encode(block), 0);
    LogicalOfCiphertext(p, key, s0, Encode(block));
    NoiseIsSmall(p, key, s0);
    LogicalOfNative(logical);
    NativeAt(logical, 0, PC_DATA_WORDS);
    DecodesTo(key, ToNative(logical), block, E.NoiseFor(p, s0, 2048, 0));
  }

  // ---------------------------------------------------------------- positions

  /** Requests of `size` beats each lie one after the other. */
  lemma {:induction false} EmittedSlice<T>(emit: (T, nat) -> seq<Packet>, items: seq<T>, i: nat)
    requires forall x: T, j: nat :: |emit(x, j)| == 1536
    requires i < |items|
    ensures |E.Emitted(emit, items)| == 1536 * |items|
    ensures E.Emitted(emit, items)[1536 * i..1536 * i + 1536] == emit(items[i], i % 0x1_0000_0000)
  {
    var n := |items| - 1;
    EmittedLength(emit, items[..n]);
    EmittedLength(emit, items);
    if i < n {
      EmittedSlice(emit, items[..n], i);
    }
    SliceOfConcatenation(E.Emitted(emit, items[..n]), emit(items[n], n % 0x1_0000_0000), 1536 * i, 1536 * i + 1536);
  }

  lemma {:induction false} EmittedLength<T>(emit: (T, nat) -> seq<Packet>, items: seq<T>)
    requires forall x: T, j: nat :: |emit(x, j)| == 1536
    ensures |E.Emitted(emit, items)| == 1536 * |items|
  {
    if items != [] {
      EmittedLength(emit, items[..|items| - 1]);
    }
  }

  lemma BlockLength(p: E.Params, clear: Byte, index: nat, k: nat)
    requires p.outputLayout == E.LAYOUT_HPU_NATIVE && k < 4
    ensures |E.BlockBeats(p, clear, index, k)| == 384
  {
  }

  lemma SliceOfConcatenation(before: seq<Packet>, last: seq<Packet>, a: nat, b: nat)
    requires a <= b
    ensures b <= |before| ==> (before + last)[a..b] == before[a..b]
    ensures a == |before| && b == |before| + |last| ==> (before + last)[a..b] == last
  {
  }

  lemma {:induction false} JoinedSlice(piece: nat -> seq<Packet>, n: nat, k: nat)
    requires k < n && forall j: nat | j < n :: |piece(j)| == 384
    ensures |E.Joined(piece, n)| == 384 * n && E.Joined(piece, n)[384 * k..384 * k + 384] == piece(k)
  {
    if k < n - 1 {
      JoinedSlice(piece, n - 1, k);
    } else if n > 1 {
      JoinedSlice(piece, n - 1, 0);
    }
    SliceOfConcatenation(E.Joined(piece, n - 1), piece(n - 1), 384 * k, 384 * k + 384);
  }

  lemma BlocksSlice(p: E.Params, clear: Byte, index: nat, k: nat)
    requires p.outputLayout == E.LAYOUT_HPU_NATIVE && k < 4
    ensures |E.BlocksBeats(p, clear, index)| == 1536
    ensures E.BlocksBeats(p, clear, index)[384 * k..384 * k + 384] == E.BlockBeats(p, clear, index, k)
  {
    var piece := E.BlockPieces(p, clear, index);
    forall j: nat | j < 4
      ensures |piece(j)| == 384
    {
      BlockLength(p, clear, index, j);
    }
    JoinedSlice(piece, 4, k);
  }

  /** The lanes of the beats of a ciphertext are its native words. */
  lemma LaneOfNativeBeats(logical: Logical, j: nat)
    requires j < NATIVE_WORDS
    ensures Lane(E.NativeBeats(logical)[j / 8], j % 8) == ToNative(logical)[j]
  {
    if j < 1536 {
      BeatLane(Slot(logical, 0), j / 8, j % 8);
    } else {
      assert (j - 1536) / 8 == j / 8 - 192 && (j - 1536) % 8 == j % 8;
      BeatLane(Slot(logical, 1), j / 8 - 192, j % 8);
    }
  }

  // ---------------------------------------------------------------- the whole payload

  ghost predicate StartsWith(stream: seq<Packet>, emit: (Byte, nat) -> seq<Packet>, clears: seq<Byte>) {
    && |stream| >= 1536 * |clears|
    && forall i: nat {:trigger emit(clears[i], i)} | i < |clears| ::
         stream[1536 * i..1536 * i + 1536] == emit(clears[i], i)
  }

  lemma EmittedPositions(emit: (Byte, nat) -> seq<Packet>, clears: seq<Byte>, rest: seq<Packet>)
    requires forall x: Byte, j: nat :: |emit(x, j)| == 1536
    requires |clears| < TWO32
    ensures |E.Emitted(emit, clears)| == 1536 * |clears|
    ensures StartsWith(E.Emitted(emit, clears) + rest, emit, clears)
  {
    EmittedLength(emit, clears);
    forall i: nat | i < |clears|
      ensures (E.Emitted(emit, clears) + rest)[1536 * i..1536 * i + 1536] == emit(clears[i], i)
    {
      EmittedSlice(emit, clears, i);
      SliceOfConcatenation(E.Emitted(emit, clears), rest, 1536 * i, 1536 * i + 1536);
    }
  }

  /** `stream` starts with the ciphertexts of `clears`. */
  ghost predicate StartsWithPayload(stream: seq<Packet>, p: E.Params, clears: seq<Byte>) {
    StartsWith(stream, E.EmitterOf(p).byte, clears)
  }

  lemma PayloadPositions(p: E.Params, clears: seq<Byte>, rest: seq<Packet>)
    requires p.outputLayout == E.LAYOUT_HPU_NATIVE && |clears| < TWO32
    ensures |E.Emitted(E.EmitterOf(p).byte, clears)| == 1536 * |clears|
    ensures StartsWithPayload(E.Emitted(E.EmitterOf(p).byte, clears) + rest, p, clears)
  {
    forall x: Byte, j: nat
      ensures |E.EmitterOf(p).byte(x, j)| == 1536
    {
      BlocksSlice(p, x, j, 0);
    }
    EmittedPositions(E.EmitterOf(p).byte, clears, rest);
  }

  lemma BlockSlice(stream: seq<Packet>, p: E.Params, clears: seq<Byte>, i: nat, k: nat)
    requires p.outputLayout == E.LAYOUT_HPU_NATIVE && StartsWithPayload(stream, p, clears)
    requires i < |clears| && k < 4
    ensures 384 * (4 * i + k) + 384 <= |stream|
    ensures stream[384 * (4 * i + k)..384 * (4 * i + k) + 384] == E.BlockBeats(p, clears[i], i, k)
  {
    ByteSlice(stream, E.EmitterOf(p).byte, clears, i);
    BlocksSlice(p, clears[i], i, k);
    PartOfByte(stream, E.BlocksBeats(p, clears[i], i), E.BlockBeats(p, clears[i], i, k), i, k);
  }

  lemma ByteSlice(stream: seq<Packet>, emit: (Byte, nat) -> seq<Packet>, clears: seq<Byte>, i: nat)
    requires StartsWith(stream, emit, clears) && i < |clears|
    ensures 1536 * i + 1536 <= |stream| && stream[1536 * i..1536 * i + 1536] == emit(clears[i], i)
  {
  }

  lemma PartOfByte(stream: seq<Packet>, byte: seq<Packet>, part: seq<Packet>, i: nat, k: nat)
    requires k < 4 && 1536 * i + 1536 <= |stream| && stream[1536 * i..1536 * i + 1536] == byte
    requires byte[384 * k..384 * k + 384] == part
    ensures stream[384 * (4 * i + k)..384 * (4 * i + k) + 384] == part
  {
    SliceOfSlice(stream, 1536 * i, 1536 * i + 1536, 384 * k, 384 * k + 384);
  }

  /** The lanes of the beats are the native words. */
  ghost predicate Lanes(beats: seq<Packet>, native: Native) {
    |beats| == 384 && forall j: nat | j < 3072 :: native[j] == Lane(beats[j / 8], j % 8)
  }

  lemma NativeBeatsLanes(logical: Logical)
    ensures Lanes(E.NativeBeats(logical), ToNative(logical))
  {
    forall j: nat | j < 3072
      ensures ToNative(logical)[j] == Lane(E.NativeBeats(logical)[j / 8], j % 8)
    {
      LaneOfNativeBeats(logical, j);
    }
  }

  lemma NativeOfBeats(stream: seq<Packet>, base: nat, beats: seq<Packet>, native: Native)
    requires base + 384 <= |stream| && stream[base..base + 384] == beats && Lanes(beats, native)
    ensures D.NativeFrom(stream, base) == native
  {
    var found := D.NativeFrom(stream, base);
    forall j: nat | j < 3072
      ensures found[j] == native[j]
    {
      assert stream[base + j / 8] == beats[j / 8];
    }
  }

  lemma NativeOfPayload(stream: seq<Packet>, p: E.Params, clears: seq<Byte>, i: nat, k: nat)
    requires p.outputLayout == E.LAYOUT_HPU_NATIVE && StartsWithPayload(stream, p, clears)
    requires i < |clears| && k < 4
    ensures D.NativeFrom(stream, 384 * (4 * i + k)) == ToNative(E.BlockCiphertext(p, clears[i], i, k))
  {
    BlockSlice(stream, p, clears, i, k);
    var logical := E.BlockCiphertext(p, clears[i], i, k);
    NativeBeatsLanes(logical);
    NativeOfBeats(stream, 384 * (4 * i + k), E.BlockBeats(p, clears[i], i, k), ToNative(logical));
  }

  lemma BlockOfPayload(stream: seq<Packet>, p: E.Params, key: Key, clears: seq<Byte>, i: nat, k: nat)
    requires HostParams(p, key) && StartsWithPayload(stream, p, clears) && i < |clears| && k < 4
    ensures D.StreamBlock(StreamKey(key), stream, 4 * i + k) == BlockOf(clears[i], k)
  {
    NativeOfPayload(stream, p, clears, i, k);
    CiphertextDecodes(p, key, p.generator.seed(E.CiphertextIndex(i, k)), BlockOf(clears[i], k));
  }

  lemma BlocksOfPayload(stream: seq<Packet>, p: E.Params, key: Key, clears: seq<Byte>, i: nat, blocks: seq<nat>)
    requires HostParams(p, key) && StartsWithPayload(stream, p, clears) && i < |clears|
    requires |blocks| == 4
    requires forall k: nat | k < 4 :: blocks[k] == D.StreamBlock(StreamKey(key), stream, 4 * i + k)
    ensures forall k: nat | k < 4 :: blocks[k] == BlockOf(clears[i], k)
  {
    forall k: nat | k < 4
      ensures blocks[k] == BlockOf(clears[i], k)
    {
      BlockOfPayload(stream, p, key, clears, i, k);
    }
  }

  lemma BlocksAt(selected: Key, stream: seq<Packet>, i: nat, blocks: seq<nat>)
    requires blocks == D.StreamBlocks(selected, stream, i, 4)
    ensures |blocks| == 4 && forall k: nat | k < 4 :: blocks[k] == D.StreamBlock(selected, stream, 4 * i + k)
  {
  }

  lemma ByteOfPayload(stream: seq<Packet>, p: E.Params, key: Key, clears: seq<Byte>, i: nat)
    requires HostParams(p, key) && StartsWithPayload(stream, p, clears) && i < |clears|
    ensures D.StreamByte(StreamKey(key), stream, i) == clears[i]
  {
    var blocks := D.StreamBlocks(StreamKey(key), stream, i, 4);
    BlocksAt(StreamKey(key), stream, i, blocks);
    BlocksOfPayload(stream, p, key, clears, i, blocks);
    AssembleBlocks(blocks, clears[i]);
  }

  lemma AssembleBlocks(blocks: seq<nat>, clear: Byte)
    requires |blocks| == 4 && (forall k | 0 <= k < 4 :: blocks[k] < 4)
    requires forall k: nat | k < 4 :: blocks[k] == BlockOf(clear, k)
    ensures Assemble(blocks) == clear
  {
    assert blocks == [BlockOf(clear, 0), BlockOf(clear, 1), BlockOf(clear, 2), BlockOf(clear, 3)];
    AssembleInvertsBlockOf(clear);
  }

  lemma BytesOfPayload(stream: seq<Packet>, p: E.Params, key: Key, clears: seq<Byte>)
    requires HostParams(p, key) && StartsWithPayload(stream, p, clears)
    ensures D.StreamBytes(StreamKey(key), stream, |clears|) == clears
  {
    forall i: nat | i < |clears|
      ensures D.StreamByte(StreamKey(key), stream, i) == clears[i]
    {
      ByteOfPayload(stream, p, key, clears, i);
    }
  }

  // ---------------------------------------------------------------- framing

  /** Beats of a payload that starts a stream are not finish packets. */
  lemma PayloadBeatsAreData(stream: seq<Packet>, p: E.Params, clears: seq<Byte>, q: nat)
    requires p.outputLayout == E.LAYOUT_HPU_NATIVE && StartsWithPayload(stream, p, clears)
    requires q < 1536 * |clears|
    ensures !IsDone(stream[q])
  {
    var b := q / 384;
    BlockSlice(stream, p, clears, b / 4, b % 4);
    SliceIsData(stream, 384 * b, E.BlockCiphertext(p, clears[b / 4], b / 4, b % 4), q % 384);
  }

  lemma SliceIsData(stream: seq<Packet>, base: nat, logical: Logical, u: nat)
    requires base + 384 <= |stream| && stream[base..base + 384] == E.NativeBeats(logical) && u < 384
    ensures !IsDone(stream[base + u])
  {
    NativeBeatIsData(logical, u);
    assert stream[base + u] == stream[base..base + 384][u];
  }

  lemma NativeBeatIsData(logical: Logical, u: nat)
    requires u < 384
    ensures !IsDone(E.NativeBeats(logical)[u])
  {
  }

  lemma FirstDoneOfPayload(stream: seq<Packet>, p: E.Params, clears: seq<Byte>)
    requires p.outputLayout == E.LAYOUT_HPU_NATIVE && StartsWithPayload(stream, p, clears)
    requires |stream| > 1536 * |clears| && IsDone(stream[1536 * |clears|])
    ensures D.FirstDone(stream) == 1536 * |clears|
  {
    forall q: nat | q < 1536 * |clears|
      ensures !IsDone(stream[q])
    {
      PayloadBeatsAreData(stream, p, clears, q);
    }
    D.FirstDoneIs(stream, 1536 * |clears|);
  }

  lemma CompleteStream(selected: Key, stream: seq<Packet>, clears: seq<Byte>)
    requires |clears| > 0 && |stream| == 1536 * |clears| + 1
    requires D.FirstDone(stream) == 1536 * |clears|
    requires D.StreamBytes(selected, stream, |clears|) == clears
    ensures D.StreamOutput(selected, |clears|, stream, D.FirstDone(stream))
         == ByteBeats(clears) + [stream[1536 * |clears|]]
  {
    var n := |clears|;
    var k := 1536 * n;
    assert k / 1536 == n && k % 1536 == 0;
    calc {
      D.StreamOutput(selected, n, stream, k);
      ByteBeats(D.StreamBytes(selected, stream, n)) + [stream[k]];
    }
  }

  /** The accepted ciphertext stream decrypts to the plaintext bytes and the finish
      packet. */
  lemma PayloadDecrypts(p: E.Params, key: Key, clears: seq<Byte>, done: Packet)
    requires HostParams(p, key) && 0 < |clears| < TWO32 && IsDone(done)
    ensures var stream := E.Emitted(E.EmitterOf(p).byte, clears) + [done];
      D.StreamOutput(StreamKey(key), |clears|, stream, D.FirstDone(stream))
      == ByteBeats(clears) + [done]
  {
    var stream := E.Emitted(E.EmitterOf(p).byte, clears) + [done];
    PayloadPositions(p, clears, [done]);
    FirstDoneOfPayload(stream, p, clears);
    BytesOfPayload(stream, p, key, clears);
    CompleteStream(StreamKey(key), stream, clears);
  }

  // ---------------------------------------------------------------- host contexts

  /** The fields of an encryption page, for any values. */
  lemma EncryptHead(page: Page, vs: seq<nat>, after: seq<Byte>)
    requires |vs| == 6 && (forall i | 0 <= i < 6 :: vs[i] < TWO32) && |after| == 40
    requires page[..64] == U32s(vs) + after
    ensures U32At(page, 0) == vs[0] && U32At(page, 4) == vs[1] && U32At(page, 8) == vs[2]
    ensures U32At(page, 12) == vs[3] && U32At(page, 16) == vs[4] && U32At(page, 20) == vs[5]
  {
    assert [] + U32s(vs) == U32s(vs);
    PageU32(page, [], vs, after, 0);
    PageU32(page, [], vs, after, 1);
    PageU32(page, [], vs, after, 2);
    PageU32(page, [], vs, after, 3);
    PageU32(page, [], vs, after, 4);
    PageU32(page, [], vs, after, 5);
  }

  lemma EncryptTail(page: Page, before: seq<Byte>, ws: seq<Word>, after: seq<Byte>)
    requires |before| == 32 && |ws| == 3 && |after| == 8 && page[..64] == before + WordsBytes(ws) + after
    ensures U64At(page, 32) == ws[0] && U64At(page, 40) == ws[1] && U64At(page, 48) == ws[2]
  {
    PageU64(page, before, ws, after, 0);
    PageU64(page, before, ws, after, 1);
    PageU64(page, before, ws, after, 2);
  }

  lemma Regroup(a: seq<Byte>, b: seq<Byte>, c: seq<Byte>, d: seq<Byte>)
    ensures a + b + c + d == a + (b + c + d)
  {
  }

  /** The page of the encryption host, field by field. */
  lemma EncryptPageFields(page: Page, n: nat, zeroNoise: bool, layout: nat, seed: Word, nonce: Word)
    requires n < TWO32 && layout < TWO32 && page[..64] == EncryptConfig(n, zeroNoise, layout, seed, nonce)
    ensures U32At(page, 0) == 2048 && U32At(page, 4) == n && U32At(page, 8) == 2
    ensures U32At(page, 12) == (if zeroNoise then 2 else 0) && U32At(page, 16) == 17 && U32At(page, 20) == layout
    ensures U64At(page, 32) == 0x0800_0000_0000_0000 && U64At(page, 40) == seed && U64At(page, 48) == nonce
  {
    var vs, ws := EncryptFields(n, zeroNoise, layout), [0x0800_0000_0000_0000, seed, nonce];
    EncryptTail(page, U32s(vs) + Zeros(8), ws, Zeros(8));
    Regroup(U32s(vs), Zeros(8), WordsBytes(ws), Zeros(8));
    EncryptHead(page, vs, Zeros(8) + WordsBytes(ws) + Zeros(8));
  }

  lemma EncryptContextFields(context: Context, page: Page, n: nat, zeroNoise: bool, layout: nat,
                             seed: Word, nonce: Word)
    requires Installed(context, page)
    requires n < TWO32 && layout < TWO32 && page[..64] == EncryptConfig(n, zeroNoise, layout, seed, nonce)
    ensures U32At(context, CONFIG + 0) == 2048 && U32At(context, CONFIG + 4) == n && U32At(context, CONFIG + 8) == 2
    ensures U32At(context, CONFIG + 12) == (if zeroNoise then 2 else 0) && U32At(context, CONFIG + 20) == layout
    ensures U64At(context, CONFIG + 40) == seed && U64At(context, CONFIG + 48) == nonce
  {
    EncryptPageFields(page, n, zeroNoise, layout, seed, nonce);
    InstalledU32(context, page, 0);
    InstalledU32(context, page, 4);
    InstalledU32(context, page, 8);
    InstalledU32(context, page, 12);
    InstalledU32(context, page, 20);
    InstalledU64(context, page, 40);
    InstalledU64(context, page, 48);
  }

  lemma EncryptParams(context: Context, n: nat, zeroNoise: bool, layout: nat, seed: Word, nonce: Word)
    requires U32At(context, CONFIG + 0) == 2048 && U32At(context, CONFIG + 4) == n && U32At(context, CONFIG + 8) == 2
    requires U32At(context, CONFIG + 12) == (if zeroNoise then 2 else 0) && U32At(context, CONFIG + 20) == layout
    requires U64At(context, CONFIG + 40) == seed && U64At(context, CONFIG + 48) == nonce
    ensures var p := E.ReadParams(context);
            && p.maskDimension == 2048 && p.inputCount == n && p.inputMode == 2
            && p.noiseMode == (if zeroNoise then 2 else 0) && p.outputLayout == layout
            && p.generator == Xorshift(seed, nonce)
            && (p.noiseMode == E.NOISE_TUNIFORM ==> p.noiseBoundLog2 == 17)
  {
  }

  lemma EncryptKey(context: Context, page: Page, key: Key)
    requires Installed(context, page) && HoldsKey(page, key)
    ensures forall i: nat | i < MASK_DIMENSION :: E.ReadParams(context).key(i) == key[i]
  {
    forall i: nat | i < MASK_DIMENSION
      ensures E.ReadParams(context).key(i) == key[i]
    {
      OperatorReadsPackedKey(context, page, key, i);
    }
  }

  /** The encryption operator accepts what the encryption host wrote, in either layout, and
      draws its masks from the generator of the seed and nonce that the host chose. */
  lemma HostPageIsAccepted(context: Context, page: Page, key: Key, n: nat, zeroNoise: bool, layout: nat,
                           seed: Word, nonce: Word)
    requires Installed(context, page) && HoldsKey(page, key) && layout <= 1
    requires n < TWO32 && page[..64] == EncryptConfig(n, zeroNoise, layout, seed, nonce)
    ensures var p := E.ReadParams(context);
            && E.ConfigError(p) == 0 && p.maskDimension == 2048 && p.inputCount == n && p.inputMode == 2
            && p.noiseMode == (if zeroNoise then 2 else 0) && p.outputLayout == layout
            && p.generator == Xorshift(seed, nonce)
            && (p.noiseMode == E.NOISE_TUNIFORM ==> p.noiseBoundLog2 == 17)
            && forall i: nat | i < MASK_DIMENSION :: p.key(i) == key[i]
  {
    EncryptContextFields(context, page, n, zeroNoise, layout, seed, nonce);
    EncryptParams(context, n, zeroNoise, layout, seed, nonce);
    EncryptKey(context, page, key);
  }

  /** The native layout, which the decryption operator reads. */
  lemma HostContextIsAccepted(context: Context, page: Page, key: Key, n: nat, zeroNoise: bool, seed: Word, nonce: Word)
    requires Installed(context, page) && HoldsKey(page, key)
    requires n < TWO32 && page[..64] == EncryptConfig(n, zeroNoise, 1, seed, nonce)
    ensures HostParams(E.ReadParams(context), key) && E.ReadParams(context).inputCount == n
    ensures E.ReadParams(context).generator == Xorshift(seed, nonce)
    ensures E.ReadParams(context).noiseMode == if zeroNoise then 2 else 0
  {
    HostPageIsAccepted(context, page, key, n, zeroNoise, 1, seed, nonce);
  }

  lemma Middle(a: seq<Byte>, b: seq<Byte>, c: seq<Byte>, d: seq<Byte>)
    ensures a + b + c + d == a + b + (c + d)
  {
  }

  /** The layout of a decryption page, for any values. */
  ghost predicate DecryptLayout(page: Page, vs: seq<nat>, ws: seq<Word>, us: seq<nat>) {
    && |vs| == 2 && |ws| == 1 && |us| == 3
    && (forall i | 0 <= i < 2 :: vs[i] < TWO32) && (forall i | 0 <= i < 3 :: us[i] < TWO32)
    && page[..64] == U32s(vs) + WordsBytes(ws) + U32s(us) + Zeros(36)
  }

  lemma DecryptHead(page: Page, vs: seq<nat>, ws: seq<Word>, us: seq<nat>)
    requires DecryptLayout(page, vs, ws, us)
    ensures U32At(page, 0) == vs[0] && U32At(page, 4) == vs[1]
  {
    var after := WordsBytes(ws) + U32s(us) + Zeros(36);
    Regroup(U32s(vs), WordsBytes(ws), U32s(us), Zeros(36));
    assert [] + U32s(vs) == U32s(vs);
    PageU32(page, [], vs, after, 0);
    PageU32(page, [], vs, after, 1);
  }

  lemma DecryptDelta(page: Page, vs: seq<nat>, ws: seq<Word>, us: seq<nat>)
    requires DecryptLayout(page, vs, ws, us)
    ensures U64At(page, 8) == ws[0]
  {
    Middle(U32s(vs), WordsBytes(ws), U32s(us), Zeros(36));
    PageU64(page, U32s(vs), ws, U32s(us) + Zeros(36), 0);
  }

  lemma DecryptTail(page: Page, vs: seq<nat>, ws: seq<Word>, us: seq<nat>)
    requires DecryptLayout(page, vs, ws, us)
    ensures U32At(page, 16) == us[0] && U32At(page, 20) == us[1] && U32At(page, 24) == us[2]
  {
    var before := U32s(vs) + WordsBytes(ws);
    PageU32(page, before, us, Zeros(36), 0);
    PageU32(page, before, us, Zeros(36), 1);
    PageU32(page, before, us, Zeros(36), 2);
  }

  lemma DecryptPageFields(page: Page, n: nat)
    requires n < TWO32 && page[..64] == DecryptConfig(n)
    ensures U32At(page, 0) == n && U32At(page, 4) == 2048 && U64At(page, 8) == 0x0800_0000_0000_0000
    ensures U32At(page, 16) == 2 && U32At(page, 20) == 4 && U32At(page, 24) == 1
  {
    DecryptHead(page, [n, 2048], [0x0800_0000_0000_0000], [2, 4, 1]);
    DecryptDelta(page, [n, 2048], [0x0800_0000_0000_0000], [2, 4, 1]);
    DecryptTail(page, [n, 2048], [0x0800_0000_0000_0000], [2, 4, 1]);
  }

  lemma DecryptContextFields(context: Context, page: Page, n: nat)
    requires Installed(context, page) && n < TWO32 && page[..64] == DecryptConfig(n)
    ensures U32At(context, CONFIG + 0) == n && U32At(context, CONFIG + 4) == 2048
    ensures U64At(context, CONFIG + 8) == 0x0800_0000_0000_0000 && U32At(context, CONFIG + 16) == 2
    ensures U32At(context, CONFIG + 20) == 4 && U32At(context, CONFIG + 24) == 1
  {
    DecryptPageFields(page, n);
    InstalledU32(context, page, 0);
    InstalledU32(context, page, 4);
    InstalledU64(context, page, 8);
    InstalledU32(context, page, 16);
    InstalledU32(context, page, 20);
    InstalledU32(context, page, 24);
  }

  lemma DecryptParams(context: Context, n: nat)
    requires U32At(context, CONFIG + 0) == n && U32At(context, CONFIG + 4) == 2048
    requires U64At(context, CONFIG + 8) == 0x0800_0000_0000_0000 && U32At(context, CONFIG + 16) == 2
    requires U32At(context, CONFIG + 20) == 4 && U32At(context, CONFIG + 24) == 1
    ensures D.ConfigError(D.ReadParams(context)) == 0 && D.ReadParams(context).inputCount == n
  {
  }

  lemma DecryptKey(context: Context, page: Page, key: Key)
    requires Installed(context, page) && HoldsKey(page, key)
    ensures D.KeyOf(D.ReadParams(context).key) == key
  {
    forall i: nat | i < MASK_DIMENSION
      ensures D.ReadParams(context).key(i) == key[i]
    {
      OperatorReadsPackedKey(context, page, key, i);
    }
  }

  /** The decryption operator accepts what the decryption host wrote. */
  lemma DecryptContextIsAccepted(context: Context, page: Page, key: Key, n: nat)
    requires Installed(context, page) && HoldsKey(page, key)
    requires n < TWO32 && page[..64] == DecryptConfig(n)
    ensures var p := D.ReadParams(context);
      D.ConfigError(p) == 0 && p.inputCount == n && D.KeyOf(p.key) == key
  {
    DecryptContextFields(context, page, n);
    DecryptParams(context, n);
    DecryptKey(context, page, key);
  }

  /** The finish packet of a plaintext stream has index `k`, and at least `n` bytes are
      valid before it. */
  ghost predicate PlaintextStream(input: seq<Packet>, n: nat, k: nat) {
    && k < |input| && IsDone(input[k])
    && (forall j | 0 <= j < k :: !IsDone(input[j]))
    && |ValidBytes(input[..k])| >= n
  }

  /** With a byte count, lwe_encrypt emits exactly the ciphertexts of the first `n`
      valid bytes and the finish packet. */
  lemma EncryptedStream(p: E.Params, key: Key, input: seq<Packet>, k: nat)
    requires HostParams(p, key) && p.inputCount > 0 && PlaintextStream(input, p.inputCount, k)
    ensures E.StreamOutput(p, E.EmitterOf(p), input)
         == E.Emitted(E.EmitterOf(p).byte, ValidBytes(input[..k])[..p.inputCount]) + [input[k]]
  {
    E.EndIs(p, input, k);
    assert E.Take(ValidBytes(input[..k]), p.inputCount) == ValidBytes(input[..k])[..p.inputCount];
  }

  /** Stream inversion: for every key, seed and nonce, with internal or zero noise, and
      for every packetisation of the plaintext, decrypting what was encrypted emits
      exactly the plaintext bytes in order and then the finish packet. */
  lemma DecryptionInvertsEncryption(
      encryptContext: Context, encryptPage: Page, decryptContext: Context, decryptPage: Page,
      key: Key, n: nat, zeroNoise: bool, seed: Word, nonce: Word, input: seq<Packet>, k: nat)
    requires 0 < n < TWO32 && PlaintextStream(input, n, k)
    requires Installed(encryptContext, encryptPage) && HoldsKey(encryptPage, key)
    requires encryptPage[..64] == EncryptConfig(n, zeroNoise, 1, seed, nonce)
    requires Installed(decryptContext, decryptPage) && HoldsKey(decryptPage, key)
    requires decryptPage[..64] == DecryptConfig(n)
    ensures var clears := ValidBytes(input[..k])[..n];
      && D.Output(decryptContext, E.Output(encryptContext, input)) == ByteBeats(clears) + [input[k]]
      && ValidBytes(ByteBeats(clears)) == clears
    ensures |E.Output(encryptContext, input)| == 1536 * n + 1
  {
    var p := E.ReadParams(encryptContext);
    var clears := ValidBytes(input[..k])[..n];
    HostContextIsAccepted(encryptContext, encryptPage, key, n, zeroNoise, seed, nonce);
    DecryptContextIsAccepted(decryptContext, decryptPage, key, n);
    EncryptedStream(p, key, input, k);
    PayloadPositions(p, clears, [input[k]]);
    PayloadDecrypts(p, key, clears, input[k]);
    ByteBeatsCarryBytes(clears);
  }

  method InstallPage(page: array<Byte>) returns (context: Context)
    requires page.Length == 4096
    ensures Installed(context, page[..])
  {
    context := Zeros(192) + page[..] + Zeros(12096);
    assert context[192..192 + 4096] == page[..];
  }

  method PrepareEncryption(key: Key, n: nat, zeroNoise: bool, seed: Word, nonce: Word)
    returns (context: Context, ghost page: Page)
    ensures Installed(context, page) && HoldsKey(page, key)
    ensures page[..64] == EncryptConfig(n, zeroNoise, 1, seed, nonce)
  {
    var buffer := new Byte[4096];
    BuildEncryptContext(buffer, key, n, zeroNoise, 1, seed, nonce);
    context := InstallPage(buffer);
    page := buffer[..];
    assert buffer[..64] == page[..64];
  }

  method PrepareDecryption(key: Key, n: nat) returns (context: Context, ghost page: Page)
    ensures Installed(context, page) && HoldsKey(page, key)
    ensures page[..64] == DecryptConfig(n)
  {
    var buffer := new Byte[4096];
    BuildDecryptContext(buffer, key, n);
    context := InstallPage(buffer);
    page := buffer[..];
    assert buffer[..64] == page[..64];
  }

  /** Both operators in a row, configured by the hosts' context builders. */
  method EncryptAndDecrypt(input: seq<Packet>, key: Key, n: nat, zeroNoise: bool, seed: Word, nonce: Word, ghost k: nat)
    returns (clear: OutStream)
    requires n > 0 && 1536 * n + 1 < TWO32 && |input| < TWO32 && PlaintextStream(input, n, k)
    ensures clear.beats == ByteBeats(ValidBytes(input[..k])[..n]) + [input[k]]
  {
    var encryptContext, encryptPage := PrepareEncryption(key, n, zeroNoise, seed, nonce);
    var decryptContext, decryptPage := PrepareDecryption(key, n);
    var cipher := new OutStream();
    E.Encrypt(input, cipher, encryptContext);
    assert cipher.beats == E.Output(encryptContext, input);
    DecryptionInvertsEncryption(encryptContext, encryptPage, decryptContext, decryptPage,
                                key, n, zeroNoise, seed, nonce, input, k);
    clear := new OutStream();
    D.Decrypt(cipher.beats, clear, decryptContext);
  }
}
