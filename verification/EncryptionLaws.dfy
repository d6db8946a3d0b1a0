/** What the ciphertexts in lwe_encrypt's output stream are, independently of how they are
    made: every one has a mask of its own, and its phase under the key is the encoded message
    plus exactly the noise that was asked for. Both output layouts and all input modes.
 */
module EncryptionLaws {
  import opened Numbers
  import opened BitReversal
  import opened NativeLayout
  import opened Radix
  import opened MaskGenerator
  import opened Stream
  import opened Context
  import E = LweEncrypt
  import D = LweDecrypt
  import S = StreamInversion
  import F = Framing

  // ---------------------------------------------------------------- masks

  lemma IndexOfBlock(i: nat, k: nat)
    requires i < 0x4000_0000 && k < 4
    ensures E.CiphertextIndex(i, k) == 4 * i + k
  {
  }

  /** Mask word `m` of ciphertext `c`. */
  function MaskDraw(g: Generator, c: nat, m: nat): Word {
    Draw(g, g.seed(c), m + 1)
  }

  /** Different ciphertexts draw different words at every position. */
  ghost predicate KeepsApart(g: Generator) {
    forall c: nat, d: nat, m: nat {:trigger MaskDraw(g, c, m), MaskDraw(g, d, m)}
      | c < TWO32 && d < TWO32 && c != d :: MaskDraw(g, c, m) != MaskDraw(g, d, m)
  }

  lemma XorshiftKeepsApart(seed: Word, nonce: Word)
    ensures KeepsApart(Xorshift(seed, nonce))
  {
    var g := Xorshift(seed, nonce);
    forall c: nat, d: nat, m: nat | c < TWO32 && d < TWO32 && c != d
      ensures MaskDraw(g, c, m) != MaskDraw(g, d, m)
    {
      MasksDiffer(seed, nonce, c, d, m);
    }
  }

  lemma BlockMaskWord(p: E.Params, clear: Byte, i: nat, k: nat, m: nat)
    requires i < 0x4000_0000 && k < 4 && m < MASK_DIMENSION
    ensures E.BlockCiphertext(p, clear, i, k)[m] == MaskDraw(p.generator, 4 * i + k, m)
  {
    IndexOfBlock(i, k);
    var s0 := p.generator.seed(4 * i + k);
    assert E.BlockCiphertext(p, clear, i, k)[m] == E.Mask(p, s0, 2048)[m];
  }

  lemma OwnMasks(p: E.Params, a: Byte, i: nat, k: nat, b: Byte, j: nat, l: nat, m: nat)
    requires KeepsApart(p.generator) && i < 0x4000_0000 && j < 0x4000_0000 && k < 4 && l < 4
    requires (i, k) != (j, l) && m < MASK_DIMENSION
    ensures E.BlockCiphertext(p, a, i, k)[m] != E.BlockCiphertext(p, b, j, l)[m]
  {
    BlockMaskWord(p, a, i, k, m);
    BlockMaskWord(p, b, j, l, m);
  }

  /** Two blocks of one batch never share a mask word at the same position. */
  lemma BlocksHaveTheirOwnMasks(p: E.Params, seed: Word, nonce: Word, a: Byte, i: nat, k: nat,
                                b: Byte, j: nat, l: nat, m: nat)
    requires p.generator == Xorshift(seed, nonce) && i < 0x4000_0000 && j < 0x4000_0000 && k < 4 && l < 4
    requires (i, k) != (j, l) && m < MASK_DIMENSION
    ensures E.BlockCiphertext(p, a, i, k)[m] != E.BlockCiphertext(p, b, j, l)[m]
  {
    XorshiftKeepsApart(seed, nonce);
    OwnMasks(p, a, i, k, b, j, l, m);
  }

  // ---------------------------------------------------------------- phases

  /** The words that the key selects. */
  ghost function Selected(key: nat -> bool, mask: seq<Word>): (terms: seq<int>) {
    seq(|mask|, i requires 0 <= i < |mask| => if key(i) then mask[i] as int else 0)
  }

  /** The body without the keyed sum of the mask. */
  ghost function PhaseUnder(key: nat -> bool, words: seq<Word>): Word
    requires words != []
  {
    Wrap(words[|words| - 1] - Sum(Selected(key, words[..|words| - 1])))
  }

  lemma SelectedMask(p: E.Params, s0: Word, n: nat)
    ensures Selected(p.key, E.Mask(p, s0, n)) == E.MaskTerms(p, s0, n)
  {
  }

  lemma PhaseOfCiphertext(p: E.Params, s0: Word, n: nat, encoded: Word, inputNoise: Word)
    ensures PhaseUnder(p.key, E.Ciphertext(p, s0, n, encoded, inputNoise))
         == Wrap(encoded + E.NoiseFor(p, s0, n, inputNoise))
  {
    var ws, noise := E.Ciphertext(p, s0, n, encoded, inputNoise), E.NoiseFor(p, s0, n, inputNoise);
    var total := Sum(E.MaskTerms(p, s0, n));
    assert ws[..n] == E.Mask(p, s0, n);
    SelectedMask(p, s0, n);
    WrapSum(total + encoded + noise, -total);
  }

  /** The noise that a draw stands for: its remainder modulo 2^bound with its sign. */
  ghost function NoiseOfDraw(r: Word, boundLog2: nat): int {
    var magnitude: int := r % Pow2(boundLog2);
    if r >= 0x8000_0000_0000_0000 then -magnitude else magnitude
  }

  lemma RemainderOfSmall(r: nat, m: nat)
    requires r < m
    ensures r % m == r
  {
  }

  /** Noise mode 0 takes the draw behind the mask, mode 1 the word from the input packet, and
      any other mode adds nothing. */
  lemma NoiseIsExact(p: E.Params, s0: Word, n: nat, inputNoise: Word)
    ensures p.noiseMode == 0 && 0 < p.noiseBoundLog2 < 64 ==>
              E.NoiseFor(p, s0, n, inputNoise) == NoiseOfDraw(Draw(p.generator, s0, n + 1), p.noiseBoundLog2)
    ensures p.noiseMode == 0 && p.noiseBoundLog2 == 0 ==> E.NoiseFor(p, s0, n, inputNoise) == 0
    ensures p.noiseMode == 1 ==> E.NoiseFor(p, s0, n, inputNoise) == inputNoise
    ensures p.noiseMode > 1 ==> E.NoiseFor(p, s0, n, inputNoise) == 0
  {
    var r := Draw(p.generator, s0, n + 1);
    if r < Pow2(p.noiseBoundLog2) {
      RemainderOfSmall(r, Pow2(p.noiseBoundLog2));
    }
  }

  /** The noise of ciphertext `c` in a batch that a host configured: the signed remainder of the
      draw behind the 2048 mask words. */
  ghost function HostNoise(seed: Word, nonce: Word, c: nat, zeroNoise: bool): int {
    var r := MaskDraw(Xorshift(seed, nonce), c, 2048);
    if zeroNoise then 0
    else if r >= 0x8000_0000_0000_0000 then -(r % 0x2_0000)
    else r % 0x2_0000
  }

  /** What the hosts configure, in either layout. */
  ghost predicate Configured(p: E.Params, key: Key, zeroNoise: bool, seed: Word, nonce: Word) {
    && p.inputMode == 2 && p.noiseMode == (if zeroNoise then 2 else 0)
    && (p.noiseMode == 0 ==> p.noiseBoundLog2 == 17)
    && p.generator == Xorshift(seed, nonce)
    && forall i: nat | i < MASK_DIMENSION :: p.key(i) == key[i]
  }

  /** `noise` is the noise of ciphertext `c`. */
  ghost predicate IsHostNoise(noise: int, seed: Word, nonce: Word, c: nat, zeroNoise: bool) {
    noise == HostNoise(seed, nonce, c, zeroNoise)
  }

  lemma NoiseOfHost(p: E.Params, key: Key, zeroNoise: bool, seed: Word, nonce: Word, c: nat)
    requires Configured(p, key, zeroNoise, seed, nonce)
    ensures IsHostNoise(E.NoiseFor(p, p.generator.seed(c), 2048, 0), seed, nonce, c, zeroNoise)
  {
    NoiseIsExact(p, p.generator.seed(c), 2048, 0);
    S.Pow2Of17();
  }

  lemma BlockIs(p: E.Params, clear: Byte, c: nat)
    requires c < TWO32
    ensures E.BlockCiphertext(p, clear, c / 4, c % 4)
         == E.Ciphertext(p, p.generator.seed(c), 2048, Encode(BlockOf(clear, c % 4)), 0)
  {
    IndexOfBlock(c / 4, c % 4);
  }

  lemma PhaseOfBlock(p: E.Params, clear: Byte, c: nat, noise: int)
    requires c < TWO32 && noise == E.NoiseFor(p, p.generator.seed(c), 2048, 0)
    ensures PhaseUnder(p.key, E.BlockCiphertext(p, clear, c / 4, c % 4))
         == Wrap(BlockOf(clear, c % 4) * 0x0800_0000_0000_0000 + noise)
  {
    BlockIs(p, clear, c);
    PhaseOfCiphertext(p, p.generator.seed(c), 2048, Encode(BlockOf(clear, c % 4)), 0);
  }

  /** `words` is a ciphertext of a block: body minus keyed mask sum is the block times 2^59,
      plus `noise`. */
  ghost predicate Encrypts(key: nat -> bool, words: seq<Word>, block: nat, noise: int) {
    words != [] && PhaseUnder(key, words) == Wrap(block * 0x0800_0000_0000_0000 + noise)
  }

  /** Block `c % 4` of byte `c / 4` of a batch that a host configured. */
  lemma BlockEncrypts(p: E.Params, key: Key, zeroNoise: bool, seed: Word, nonce: Word, clear: Byte, c: nat)
    returns (noise: int)
    requires Configured(p, key, zeroNoise, seed, nonce) && c < TWO32
    ensures IsHostNoise(noise, seed, nonce, c, zeroNoise)
    ensures Encrypts(p.key, E.BlockCiphertext(p, clear, c / 4, c % 4), BlockOf(clear, c % 4), noise)
  {
    noise := E.NoiseFor(p, p.generator.seed(c), 2048, 0);
    PhaseOfBlock(p, clear, c, noise);
    NoiseOfHost(p, key, zeroNoise, seed, nonce, c);
  }

  // ---------------------------------------------------------------- positions in the stream

  lemma NextMultiple(size: nat, n: nat)
    ensures size * (n + 1) == size * n + size
  {
  }

  /** `whole` has `piece` at position `size * k`. */
  ghost predicate HasPiece(whole: seq<Packet>, size: nat, k: nat, piece: seq<Packet>) {
    size * k + size <= |whole| && whole[size * k..size * k + size] == piece
  }

  lemma PieceInFront(front: seq<Packet>, last: seq<Packet>, size: nat, k: nat, piece: seq<Packet>)
    requires HasPiece(front, size, k, piece)
    ensures HasPiece(front + last, size, k, piece)
  {
    S.SliceOfConcatenation(front, last, size * k, size * k + size);
  }

  lemma PieceAtEnd(front: seq<Packet>, last: seq<Packet>, size: nat, k: nat)
    requires |front| == size * k && |last| == size
    ensures HasPiece(front + last, size, k, last) && |front + last| == size * (k + 1)
  {
    S.SliceOfConcatenation(front, last, size * k, size * k + size);
    NextMultiple(size, k);
  }

  lemma {:induction false} JoinedPiece(piece: nat -> seq<Packet>, size: nat, n: nat, k: nat)
    requires forall j: nat | j < n :: |piece(j)| == size
    ensures |E.Joined(piece, n)| == size * n
    ensures k < n ==> HasPiece(E.Joined(piece, n), size, k, piece(k))
  {
    if n > 0 {
      JoinedPiece(piece, size, n - 1, k);
      PieceAtEnd(E.Joined(piece, n - 1), piece(n - 1), size, n - 1);
      if k < n - 1 {
        PieceInFront(E.Joined(piece, n - 1), piece(n - 1), size, k, piece(k));
      }
    }
  }

  lemma {:induction false} EmittedPiece<T>(emit: (T, nat) -> seq<Packet>, size: nat, items: seq<T>, i: nat)
    requires forall x: T, j: nat :: |emit(x, j)| == size
    requires |items| < TWO32
    ensures |E.Emitted(emit, items)| == size * |items|
    ensures i < |items| ==> HasPiece(E.Emitted(emit, items), size, i, emit(items[i], i))
  {
    if items != [] {
      var n := |items| - 1;
      EmittedPiece(emit, size, items[..n], i);
      PieceAtEnd(E.Emitted(emit, items[..n]), emit(items[n], n), size, n);
      if i < n {
        PieceInFront(E.Emitted(emit, items[..n]), emit(items[n], n), size, i, emit(items[i], i));
      }
    }
  }

  lemma StreamPiece<T>(emit: (T, nat) -> seq<Packet>, size: nat, items: seq<T>, rest: seq<Packet>,
                       stream: seq<Packet>, i: nat)
    requires forall x: T, j: nat :: |emit(x, j)| == size
    requires i < |items| < TWO32 && stream == E.Emitted(emit, items) + rest
    ensures HasPiece(stream, size, i, emit(items[i], i))
  {
    EmittedPiece(emit, size, items, i);
    PieceInFront(E.Emitted(emit, items), rest, size, i, emit(items[i], i));
  }

  /** A piece of a piece. */
  lemma PieceOfPiece(whole: seq<Packet>, part: seq<Packet>, size: nat, c: nat, piece: seq<Packet>)
    requires HasPiece(whole, 4 * size, c / 4, part) && HasPiece(part, size, c % 4, piece)
    ensures HasPiece(whole, size, c, piece)
  {
    var i, k := c / 4, c % 4;
    var o := 4 * size * i;
    assert size * c == o + size * k by {
      Reorder(size, i);
      Distribute(size, 4 * i, k);
    }
    SliceOfSlice(whole, o, o + 4 * size, size * k, size * k + size);
  }

  lemma Reorder(size: nat, i: nat)
    ensures 4 * size * i == size * (4 * i)
  {
  }

  lemma Distribute(size: nat, a: nat, b: nat)
    ensures size * (a + b) == size * a + size * b
  {
  }

  // ---------------------------------------------------------------- reading the stream back

  ghost function BlockSize(p: E.Params): nat {
    if p.outputLayout == 1 then 384 else 257
  }

  lemma BytePiece(p: E.Params, clear: Byte, i: nat, k: nat)
    requires k < 4
    ensures HasPiece(E.BlocksBeats(p, clear, i), BlockSize(p), k, E.BlockBeats(p, clear, i, k))
  {
    var piece := E.BlockPieces(p, clear, i);
    forall j: nat | j < 4
      ensures |piece(j)| == BlockSize(p)
    {
      F.BlockFraming(p, clear, i, j);
    }
    JoinedPiece(piece, BlockSize(p), 4, k);
  }

  /** Ciphertext `c` of the payload is that of block `c % 4` of byte `c / 4`. */
  lemma PayloadPiece(p: E.Params, clears: seq<Byte>, rest: seq<Packet>, stream: seq<Packet>, c: nat)
    requires |clears| < TWO32 && c < 4 * |clears|
    requires stream == E.Emitted(E.EmitterOf(p).byte, clears) + rest
    ensures HasPiece(stream, BlockSize(p), c, E.BlockBeats(p, clears[c / 4], c / 4, c % 4))
  {
    var emit, i, k := E.EmitterOf(p).byte, c / 4, c % 4;
    forall x: Byte, j: nat
      ensures |emit(x, j)| == 4 * BlockSize(p)
    {
      F.BlocksFraming(p, x, j);
    }
    StreamPiece(emit, 4 * BlockSize(p), clears, rest, stream, i);
    BytePiece(p, clears[i], i, k);
    PieceOfPiece(stream, E.BlocksBeats(p, clears[i], i), BlockSize(p), c, E.BlockBeats(p, clears[i], i, k));
  }

  /** Ciphertext `c` of a stream of 64-bit lanes: 384 packets in the native layout, and 257 with
      the words in natural order in the CPU layout. */
  ghost function CiphertextAt(native: bool, stream: seq<Packet>, c: nat): Logical {
    if native then ToLogical(D.NativeFrom(stream, 384 * c)) else CpuWords(stream, 257 * c)
  }

  ghost function CpuWords(stream: seq<Packet>, base: nat): Logical {
    LaneWords(stream, base, 2049)
  }

  /** `n` words from packet `base` on. */
  ghost function LaneWords(stream: seq<Packet>, base: nat, n: nat): (words: seq<Word>)
    ensures |words| == n
  {
    seq(n, j requires 0 <= j < n => D.StreamWord(stream, base + j / 8, j % 8))
  }

  lemma LanesOfBeats(stream: seq<Packet>, base: nat, size: nat, words: seq<Word>)
    requires base + size <= |stream| && stream[base..base + size] == Beats(words)
    ensures LaneWords(stream, base, |words|) == words
  {
    var beats := Beats(words);
    forall j: nat | j < |words|
      ensures D.StreamWord(stream, base + j / 8, j % 8) == words[j]
    {
      assert j / 8 < |beats| && Lane(beats[j / 8], j % 8) == words[j] by {
        BeatsLane(words, j);
      }
      assert stream[base + j / 8] == beats[j / 8];
    }
  }

  lemma LanePiece(stream: seq<Packet>, size: nat, c: nat, words: seq<Word>)
    requires HasPiece(stream, size, c, Beats(words))
    ensures LaneWords(stream, size * c, |words|) == words
  {
    LanesOfBeats(stream, size * c, size, words);
  }

  lemma NativePiece(stream: seq<Packet>, c: nat, logical: Logical)
    requires HasPiece(stream, 384, c, E.NativeBeats(logical))
    ensures ToLogical(D.NativeFrom(stream, 384 * c)) == logical
  {
    S.NativeBeatsLanes(logical);
    S.NativeOfBeats(stream, 384 * c, E.NativeBeats(logical), ToNative(logical));
    LogicalOfNative(logical);
  }

  lemma PieceReads(native: bool, stream: seq<Packet>, c: nat, logical: Logical)
    requires native ==> HasPiece(stream, 384, c, E.NativeBeats(logical))
    requires !native ==> HasPiece(stream, 257, c, Beats(logical))
    ensures CiphertextAt(native, stream, c) == logical
  {
    if native {
      NativePiece(stream, c, logical);
    } else {
      LanePiece(stream, 257, c, logical);
    }
  }

  lemma BlockReads(p: E.Params, stream: seq<Packet>, c: nat, clear: Byte, i: nat, k: nat)
    requires p.outputLayout <= 1 && k < 4 && HasPiece(stream, BlockSize(p), c, E.BlockBeats(p, clear, i, k))
    ensures CiphertextAt(p.outputLayout == 1, stream, c) == E.BlockCiphertext(p, clear, i, k)
  {
    PieceReads(p.outputLayout == 1, stream, c, E.BlockCiphertext(p, clear, i, k));
  }

  // ---------------------------------------------------------------- the output of lwe_encrypt

  /** The key as the selection of mask words. */
  function KeyBits(key: Key): nat -> bool {
    (i: nat) => i < 2048 && key[i]
  }

  lemma SameSelection(p: E.Params, key: Key, words: Logical, block: nat, noise: int)
    requires forall i: nat | i < MASK_DIMENSION :: p.key(i) == key[i]
    requires Encrypts(p.key, words, block, noise)
    ensures Encrypts(KeyBits(key), words, block, noise)
  {
    assert Selected(p.key, words[..2048]) == Selected(KeyBits(key), words[..2048]);
  }

  /** The beats of the ciphertexts of `clears` lie one after the other. */
  ghost predicate HoldsBlocks(p: E.Params, stream: seq<Packet>, clears: seq<Byte>) {
    forall c: nat | c < 4 * |clears| ::
      HasPiece(stream, BlockSize(p), c, E.BlockBeats(p, clears[c / 4], c / 4, c % 4))
  }

  /** The stream consists of the ciphertexts of `clears`. */
  ghost predicate Carries(p: E.Params, stream: seq<Packet>, clears: seq<Byte>) {
    HoldsCiphertexts(p, p.outputLayout == 1, stream, clears)
  }

  ghost predicate HoldsCiphertexts(p: E.Params, native: bool, stream: seq<Packet>, clears: seq<Byte>) {
    forall c: nat {:trigger CiphertextAt(native, stream, c)} | c < 4 * |clears| ::
      CiphertextAt(native, stream, c) == E.BlockCiphertext(p, clears[c / 4], c / 4, c % 4)
  }

  lemma BlocksAreCarried(p: E.Params, stream: seq<Packet>, clears: seq<Byte>)
    requires p.outputLayout <= 1 && HoldsBlocks(p, stream, clears)
    ensures Carries(p, stream, clears)
  {
    forall c: nat | c < 4 * |clears|
      ensures CiphertextAt(p.outputLayout == 1, stream, c) == E.BlockCiphertext(p, clears[c / 4], c / 4, c % 4)
    {
      BlockReads(p, stream, c, clears[c / 4], c / 4, c % 4);
    }
  }

  lemma PayloadHoldsBlocks(p: E.Params, clears: seq<Byte>, rest: seq<Packet>, stream: seq<Packet>)
    requires |clears| < TWO32 && stream == E.Emitted(E.EmitterOf(p).byte, clears) + rest
    ensures HoldsBlocks(p, stream, clears)
  {
    forall c: nat | c < 4 * |clears|
      ensures HasPiece(stream, BlockSize(p), c, E.BlockBeats(p, clears[c / 4], c / 4, c % 4))
    {
      PayloadPiece(p, clears, rest, stream, c);
    }
  }

  /** In u8 radix mode with a count. */
  lemma OutputIsPayload(context: Context, input: seq<Packet>, n: nat, done: nat)
    requires E.ConfigError(E.ReadParams(context)) == 0 && E.ReadParams(context).inputMode == 2
    requires E.ReadParams(context).inputCount == n > 0 && S.PlaintextStream(input, n, done)
    ensures E.Output(context, input)
         == E.Emitted(E.EmitterOf(E.ReadParams(context)).byte, ValidBytes(input[..done])[..n]) + [input[done]]
  {
    var p := E.ReadParams(context);
    E.EndIs(p, input, done);
    assert E.Take(ValidBytes(input[..done]), n) == ValidBytes(input[..done])[..n];
  }

  lemma OutputCarries(context: Context, input: seq<Packet>, n: nat, done: nat)
    requires E.ConfigError(E.ReadParams(context)) == 0 && E.ReadParams(context).inputMode == 2
    requires E.ReadParams(context).outputLayout <= 1
    requires E.ReadParams(context).inputCount == n > 0 && S.PlaintextStream(input, n, done)
    ensures Carries(E.ReadParams(context), E.Output(context, input), ValidBytes(input[..done])[..n])
  {
    OutputIsPayload(context, input, n, done);
    PayloadHoldsBlocks(E.ReadParams(context), ValidBytes(input[..done])[..n], [input[done]], E.Output(context, input));
    BlocksAreCarried(E.ReadParams(context), E.Output(context, input), ValidBytes(input[..done])[..n]);
  }

  // ---------------------------------------------------------------- the laws

  /** No two ciphertexts among the first `count` of the stream share a mask word at one
      position. */
  ghost predicate MasksAreDistinct(native: bool, stream: seq<Packet>, count: nat) {
    forall c: nat, d: nat, m: nat {:trigger CiphertextAt(native, stream, c)[m], CiphertextAt(native, stream, d)[m]}
      | c < count && d < count && c != d && m < MASK_DIMENSION ::
      CiphertextAt(native, stream, c)[m] != CiphertextAt(native, stream, d)[m]
  }

  lemma CarriedMasksDiffer(p: E.Params, stream: seq<Packet>, clears: seq<Byte>)
    requires KeepsApart(p.generator) && Carries(p, stream, clears) && |clears| <= 0x4000_0000
    ensures MasksAreDistinct(p.outputLayout == 1, stream, 4 * |clears|)
  {
    var native := p.outputLayout == 1;
    forall c: nat, d: nat, m: nat | c < 4 * |clears| && d < 4 * |clears| && c != d && m < MASK_DIMENSION
      ensures CiphertextAt(native, stream, c)[m] != CiphertextAt(native, stream, d)[m]
    {
      OwnMasks(p, clears[c / 4], c / 4, c % 4, clears[d / 4], d / 4, d % 4, m);
    }
  }

  /** Two bits of a byte. */
  function TwoBits(clear: Byte, k: nat): nat {
    Bit(clear, 2 * k) + 2 * Bit(clear, 2 * k + 1)
  }

  lemma TwoBitsStep(x: nat, i: nat)
    ensures Bit(x, i + 2) == Bit(x / 4, i)
  {
    assert Bit(x, i + 2) == Bit(x / 2, i + 1) == Bit(x / 2 / 2, i);
  }

  lemma {:induction false} TwoBitsShift(clear: Byte, k: nat)
    ensures TwoBits(clear, 0) == clear % 4
    ensures k > 0 ==> TwoBits(clear, k) == TwoBits(clear / 4, k - 1)
  {
    assert Bit(clear, 1) == clear / 2 % 2;
    if k > 0 {
      TwoBitsStep(clear, 2 * k - 2);
      TwoBitsStep(clear, 2 * k - 1);
    }
  }

  lemma BlockShift(clear: Byte, k: nat)
    requires 0 < k < 4
    ensures BlockOf(clear, k) == BlockOf(clear / 4, k - 1)
  {
    assert clear / 4 / 4 == clear / 16 && clear / 4 / 16 == clear / 64;
  }

  lemma {:induction false} BlockIsTwoBits(clear: Byte, k: nat)
    requires k < 4
    ensures BlockOf(clear, k) == TwoBits(clear, k)
  {
    TwoBitsShift(clear, k);
    if k > 0 {
      BlockShift(clear, k);
      BlockIsTwoBits(clear / 4, k - 1);
    }
  }

  /** `words` encrypts a block with exactly the noise of ciphertext `c`. */
  ghost predicate EncryptsExactly(words: Logical, key: Key, block: nat, seed: Word, nonce: Word, zeroNoise: bool,
                                  c: nat) {
    exists noise: int :: IsHostNoise(noise, seed, nonce, c, zeroNoise) && Encrypts(KeyBits(key), words, block, noise)
  }

  lemma BlockEncryptsExactly(p: E.Params, key: Key, zeroNoise: bool, seed: Word, nonce: Word, clear: Byte, c: nat,
                             words: Logical)
    requires Configured(p, key, zeroNoise, seed, nonce) && c < TWO32
    requires words == E.BlockCiphertext(p, clear, c / 4, c % 4)
    ensures EncryptsExactly(words, key, TwoBits(clear, c % 4), seed, nonce, zeroNoise, c)
  {
    BlockIsTwoBits(clear, c % 4);
    var noise := BlockEncrypts(p, key, zeroNoise, seed, nonce, clear, c);
    SameSelection(p, key, words, BlockOf(clear, c % 4), noise);
  }

  /** Ciphertext `c` of the stream encrypts bits `2 * (c % 4)` and `2 * (c % 4) + 1` of byte
      `c / 4`. */
  ghost predicate EncryptsBytes(native: bool, stream: seq<Packet>, key: Key, clears: seq<Byte>,
                                seed: Word, nonce: Word, zeroNoise: bool) {
    forall c: nat {:trigger CiphertextAt(native, stream, c)} | c < 4 * |clears| ::
      EncryptsExactly(CiphertextAt(native, stream, c), key, TwoBits(clears[c / 4], c % 4), seed, nonce, zeroNoise, c)
  }

  lemma CarriedPhases(p: E.Params, key: Key, zeroNoise: bool, seed: Word, nonce: Word, stream: seq<Packet>,
                      clears: seq<Byte>)
    requires Configured(p, key, zeroNoise, seed, nonce) && Carries(p, stream, clears)
    requires |clears| <= 0x4000_0000
    ensures EncryptsBytes(p.outputLayout == 1, stream, key, clears, seed, nonce, zeroNoise)
  {
    var native := p.outputLayout == 1;
    forall c: nat | c < 4 * |clears|
      ensures EncryptsExactly(CiphertextAt(native, stream, c), key, TwoBits(clears[c / 4], c % 4),
                              seed, nonce, zeroNoise, c)
    {
      BlockEncryptsExactly(p, key, zeroNoise, seed, nonce, clears[c / 4], c, CiphertextAt(native, stream, c));
    }
  }

  /** What a batch is, for every key, seed, nonce, noise mode, layout and packetisation: the
      output of `lwe_encrypt`, read back from its packets, consists of ciphertexts with
      pairwise different mask words at every position, and ciphertext `4 * i + k` encrypts
      bits `2 * k` and `2 * k + 1` of byte `i` with exactly the noise of its own draw. */
  lemma EncryptedBatch(context: Context, page: Page, key: Key, n: nat, zeroNoise: bool, layout: nat,
                       seed: Word, nonce: Word, input: seq<Packet>, done: nat)
    requires Installed(context, page) && HoldsKey(page, key) && layout <= 1 && 0 < n <= 0x4000_0000
    requires page[..64] == EncryptConfig(n, zeroNoise, layout, seed, nonce) && S.PlaintextStream(input, n, done)
    ensures MasksAreDistinct(layout == 1, E.Output(context, input), 4 * n)
    ensures EncryptsBytes(layout == 1, E.Output(context, input), key, ValidBytes(input[..done])[..n],
                          seed, nonce, zeroNoise)
  {
    var p, out, clears := E.ReadParams(context), E.Output(context, input), ValidBytes(input[..done])[..n];
    S.HostPageIsAccepted(context, page, key, n, zeroNoise, layout, seed, nonce);
    OutputCarries(context, input, n, done);
    XorshiftKeepsApart(seed, nonce);
    CarriedMasksDiffer(p, out, clears);
    CarriedPhases(p, key, zeroNoise, seed, nonce, out, clears);
  }

  // ---------------------------------------------------------------- the single-block modes

  /** The noise of packet `i` in a batch of single ciphertexts: lane 1 of the packet, the signed
      low bits of the draw behind the mask, or nothing. */
  ghost function SingleNoise(p: E.Params, packet: Packet, i: nat): int {
    var bound := p.noiseBoundLog2;
    if p.noiseMode == 1 then Lane(packet, 1)
    else if p.noiseMode == 0 && bound > 0 then
      var r := MaskDraw(p.generator, i, p.maskDimension);
      var magnitude: int := if bound < 64 then r % Pow2(bound) else r;
      if r >= 0x8000_0000_0000_0000 then -magnitude else magnitude
    else 0
  }

  /** Mode 1 multiplies the clear word by delta; any other mode takes an encoded word. */
  ghost function SingleMessage(p: E.Params, packet: Packet): int {
    if p.inputMode == 1 then Lane(packet, 0) * p.delta else Lane(packet, 0)
  }

  /** Beats of a ciphertext: it has a word more than its mask. */
  function BeatsFor(dimension: nat): nat {
    (dimension + 8) / 8
  }

  /** Ciphertext `i` of a stream. */
  ghost function SingleAt(dimension: nat, stream: seq<Packet>, i: nat): (words: seq<Word>)
    ensures |words| == dimension + 1
  {
    LaneWords(stream, BeatsFor(dimension) * i, dimension + 1)
  }

  ghost predicate HasPhase(key: nat -> bool, words: seq<Word>, phase: Word) {
    words != [] && PhaseUnder(key, words) == phase
  }

  /** `words` encrypts the message of packet `i`. */
  ghost predicate EncryptsSingle(p: E.Params, words: seq<Word>, packet: Packet, i: nat) {
    HasPhase(p.key, words, Wrap(SingleMessage(p, packet) + SingleNoise(p, packet, i)))
  }

  /** The ciphertext that is made of a packet. */
  ghost function SingleCiphertext(p: E.Params, packet: Packet, i: nat): (words: seq<Word>)
    ensures |words| == p.maskDimension + 1
  {
    E.Ciphertext(p, p.generator.seed(i), p.maskDimension, E.EncodedInput(p, packet), Lane(packet, 1))
  }

  lemma SingleSizes(p: E.Params, emit: (Packet, nat) -> seq<Packet>, size: nat)
    requires emit == E.EmitterOf(p).single && size == BeatsFor(p.maskDimension)
    ensures forall x: Packet, j: nat :: |emit(x, j)| == size
  {
    forall x: Packet, j: nat
      ensures |emit(x, j)| == size
    {
      F.SingleFraming(p, x, j);
    }
  }

  lemma SinglePiece(p: E.Params, data: seq<Packet>, rest: seq<Packet>, stream: seq<Packet>, i: nat, size: nat,
                    piece: seq<Packet>)
    requires i < |data| < TWO32 && stream == E.Emitted(E.EmitterOf(p).single, data) + rest
    requires size == BeatsFor(p.maskDimension) && piece == Beats(SingleCiphertext(p, data[i], i))
    ensures HasPiece(stream, size, i, piece)
  {
    var emit := E.EmitterOf(p).single;
    assert emit(data[i], i) == piece;
    SingleSizes(p, emit, size);
    StreamPiece(emit, size, data, rest, stream, i);
  }

  lemma ReadSingle(stream: seq<Packet>, dimension: nat, i: nat, words: seq<Word>)
    requires HasPiece(stream, BeatsFor(dimension), i, Beats(words)) && |words| == dimension + 1
    ensures SingleAt(dimension, stream, i) == words
  {
    LanePiece(stream, BeatsFor(dimension), i, words);
  }

  /** The stream consists of the ciphertexts of the packets. */
  ghost predicate HoldsSingles(p: E.Params, dimension: nat, stream: seq<Packet>, data: seq<Packet>) {
    forall i: nat {:trigger SingleAt(dimension, stream, i)} | i < |data| ::
      SingleAt(dimension, stream, i) == SingleCiphertext(p, data[i], i)
  }

  lemma SinglesAreHeld(p: E.Params, data: seq<Packet>, rest: seq<Packet>, stream: seq<Packet>)
    requires |data| < TWO32 && stream == E.Emitted(E.EmitterOf(p).single, data) + rest
    ensures HoldsSingles(p, p.maskDimension, stream, data)
  {
    forall i: nat | i < |data|
      ensures SingleAt(p.maskDimension, stream, i) == SingleCiphertext(p, data[i], i)
    {
      SinglePiece(p, data, rest, stream, i, BeatsFor(p.maskDimension), Beats(SingleCiphertext(p, data[i], i)));
      ReadSingle(stream, p.maskDimension, i, SingleCiphertext(p, data[i], i));
    }
  }

  lemma SingleMaskWord(p: E.Params, packet: Packet, i: nat, j: nat)
    requires j < p.maskDimension
    ensures SingleCiphertext(p, packet, i)[j] == MaskDraw(p.generator, i, j)
  {
    assert SingleCiphertext(p, packet, i)[j] == E.Mask(p, p.generator.seed(i), p.maskDimension)[j];
  }

  /** No two of the first `count` ciphertexts share a mask word at one position. */
  ghost predicate SingleMasksAreDistinct(dimension: nat, stream: seq<Packet>, count: nat) {
    forall i: nat, j: nat, m: nat {:trigger SingleAt(dimension, stream, i)[m], SingleAt(dimension, stream, j)[m]}
      | i < count && j < count && i != j && m < dimension ::
      SingleAt(dimension, stream, i)[m] != SingleAt(dimension, stream, j)[m]
  }

  lemma HeldMasksDiffer(p: E.Params, stream: seq<Packet>, data: seq<Packet>)
    requires KeepsApart(p.generator) && HoldsSingles(p, p.maskDimension, stream, data) && |data| < TWO32
    ensures SingleMasksAreDistinct(p.maskDimension, stream, |data|)
  {
    var dimension := p.maskDimension;
    forall i: nat, j: nat, m: nat | i < |data| && j < |data| && i != j && m < dimension
      ensures SingleAt(dimension, stream, i)[m] != SingleAt(dimension, stream, j)[m]
    {
      SingleMaskWord(p, data[i], i, m);
      SingleMaskWord(p, data[j], j, m);
    }
  }

  lemma NoiseOfSingle(p: E.Params, packet: Packet, i: nat)
    ensures E.NoiseFor(p, p.generator.seed(i), p.maskDimension, Lane(packet, 1)) == SingleNoise(p, packet, i)
  {
    NoiseIsExact(p, p.generator.seed(i), p.maskDimension, Lane(packet, 1));
  }

  lemma MessageOfSingle(p: E.Params, packet: Packet, noise: int)
    ensures Wrap(E.EncodedInput(p, packet) + noise) == Wrap(SingleMessage(p, packet) + noise)
  {
    WrapSum(SingleMessage(p, packet), noise);
  }

  lemma SingleEncrypts(p: E.Params, packet: Packet, i: nat)
    ensures EncryptsSingle(p, SingleCiphertext(p, packet, i), packet, i)
  {
    var noise := SingleNoise(p, packet, i);
    NoiseOfSingle(p, packet, i);
    MessageOfSingle(p, packet, noise);
    PhaseOfCiphertext(p, p.generator.seed(i), p.maskDimension, E.EncodedInput(p, packet), Lane(packet, 1));
  }

  /** Every ciphertext encrypts its packet. */
  ghost predicate EncryptsSingles(p: E.Params, dimension: nat, stream: seq<Packet>, data: seq<Packet>) {
    forall i: nat {:trigger SingleAt(dimension, stream, i)} | i < |data| ::
      EncryptsSingle(p, SingleAt(dimension, stream, i), data[i], i)
  }

  lemma HeldSinglesEncrypt(p: E.Params, stream: seq<Packet>, data: seq<Packet>)
    requires HoldsSingles(p, p.maskDimension, stream, data)
    ensures EncryptsSingles(p, p.maskDimension, stream, data)
  {
    forall i: nat | i < |data|
      ensures EncryptsSingle(p, SingleAt(p.maskDimension, stream, i), data[i], i)
    {
      SingleEncrypts(p, data[i], i);
    }
  }

  lemma SingleOutput(p: E.Params, input: seq<Packet>, k: nat)
    requires p.inputMode != 2 && 0 < p.inputCount <= k < |input|
    requires IsDone(input[k]) && forall j | 0 <= j < k :: !IsDone(input[j])
    ensures E.StreamOutput(p, E.EmitterOf(p), input)
         == E.Emitted(E.EmitterOf(p).single, input[..p.inputCount]) + [input[k]]
  {
    E.EndIs(p, input, k);
    assert E.Take(input[..k], p.inputCount) == input[..p.inputCount];
  }

  /** With a count, in the modes that encrypt one word per packet: ciphertext `i` of the output
      encrypts packet `i`, and no two ciphertexts share a mask word at one position. */
  lemma SingleBatch(p: E.Params, seed: Word, nonce: Word, input: seq<Packet>, k: nat)
    requires p.inputMode != 2 && 0 < p.inputCount <= k < |input| && p.inputCount < TWO32
    requires p.generator == Xorshift(seed, nonce)
    requires IsDone(input[k]) && forall j | 0 <= j < k :: !IsDone(input[j])
    ensures EncryptsSingles(p, p.maskDimension, E.StreamOutput(p, E.EmitterOf(p), input), input[..p.inputCount])
    ensures SingleMasksAreDistinct(p.maskDimension, E.StreamOutput(p, E.EmitterOf(p), input), p.inputCount)
  {
    var out, data := E.StreamOutput(p, E.EmitterOf(p), input), input[..p.inputCount];
    SingleOutput(p, input, k);
    SinglesAreHeld(p, data, [input[k]], out);
    HeldSinglesEncrypt(p, out, data);
    XorshiftKeepsApart(seed, nonce);
    HeldMasksDiffer(p, out, data);
  }

  /** Where the operator finds its parameters in the context. The u8 radix mode has its own delta
      and noise bound. */
  lemma ParameterOffsets(context: Context)
    ensures var p, u8 := E.ReadParams(context), U32At(context, 200) == 2;
            && p.maskDimension == U32At(context, 192) && p.inputCount == U32At(context, 196)
            && p.inputMode == U32At(context, 200) && p.noiseMode == U32At(context, 204)
            && p.outputLayout == U32At(context, 212)
            && p.generator == Xorshift(U64At(context, 232), U64At(context, 240))
            && p.delta == (if u8 then 0x0800_0000_0000_0000 else U64At(context, 224))
            && p.noiseBoundLog2 == (if u8 && U32At(context, 204) == 0 then 17 else U32At(context, 208))
            && forall i: nat :: p.key(i) <==> SecretKeyBit(context, i)
  {
  }
}
