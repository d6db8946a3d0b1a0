/** The encryption operator lwe_encrypt.

    The first half says what the operator emits for a given input stream. The
    second half is the operator itself, proved to emit exactly that.
 */
module LweEncrypt {
  import opened Numbers
  import opened BitReversal
  import opened NativeLayout
  import opened Radix
  import opened MaskGenerator
  import opened Stream
  import opened Context

  const MODE_CLEAR: nat := 1
  const MODE_U8_RADIX: nat := 2
  const NOISE_TUNIFORM: nat := 0
  const NOISE_INPUT: nat := 1
  const LAYOUT_HPU_NATIVE: nat := 1
  const ERROR_TAG: Word := 0x4c57_4545_5252_4f52

  datatype Params = Params(
    maskDimension: nat,
    inputCount: nat,
    inputMode: nat,
    noiseMode: nat,
    noiseBoundLog2: nat,
    outputLayout: nat,
    delta: Word,
    generator: Generator,
    key: nat -> bool)

  /** The configuration word, with the overrides of the u8 radix mode. */
  function ReadParams(context: Context): (p: Params)
    ensures p.inputCount < TWO32
  {
    var inputMode := U32At(context, CONFIG + 8);
    var noiseMode := U32At(context, CONFIG + 12);
    var u8 := inputMode == MODE_U8_RADIX;
    Params(
      U32At(context, CONFIG),
      U32At(context, CONFIG + 4),
      inputMode,
      noiseMode,
      if u8 && noiseMode == NOISE_TUNIFORM then 17 else U32At(context, CONFIG + 16),
      U32At(context, CONFIG + 20),
      if u8 then 0x0800_0000_0000_0000 else U64At(context, CONFIG + 32),
      Xorshift(U64At(context, CONFIG + 40), U64At(context, CONFIG + 48)),
      (i: nat) => SecretKeyBit(context, i))
  }

  /** 0, or the code of the error packet for a configuration that is refused. */
  function ConfigError(p: Params): (code: nat) {
    if p.maskDimension == 0 || p.maskDimension > 4096 then 1
    else if p.inputMode == MODE_U8_RADIX && p.maskDimension != MASK_DIMENSION then 2
    else if p.inputMode == MODE_U8_RADIX && p.noiseMode == NOISE_INPUT then 3
    else if p.outputLayout > LAYOUT_HPU_NATIVE then 5
    else if p.outputLayout == LAYOUT_HPU_NATIVE && p.inputMode != MODE_U8_RADIX then 6
    else 0
  }

  // ---------------------------------------------------------------- one ciphertext

  function MaskWord(p: Params, s0: Word, i: nat): (w: Word) {
    Draw(p.generator, s0, i + 1)
  }

  function Mask(p: Params, s0: Word, n: nat): (ws: seq<Word>)
    ensures |ws| == n
  {
    seq(n, i requires 0 <= i < n => MaskWord(p, s0, i))
  }

  /** The mask words selected by the key. */
  ghost function MaskTerms(p: Params, s0: Word, n: nat): (t: seq<int>)
    ensures |t| == n
  {
    seq(n, i requires 0 <= i < n => if p.key(i) then MaskWord(p, s0, i) as int else 0)
  }

  /** The noise added to the body after `n` mask words were drawn. */
  function NoiseFor(p: Params, s0: Word, n: nat, inputNoise: Word): (e: int) {
    if p.noiseMode == NOISE_INPUT then inputNoise
    else if p.noiseMode == NOISE_TUNIFORM then NoiseValue(p.generator, Draw(p.generator, s0, n), p.noiseBoundLog2)
    else 0
  }

  ghost function Body(p: Params, s0: Word, n: nat, encoded: Word, inputNoise: Word): (b: Word) {
    Wrap(Sum(MaskTerms(p, s0, n)) + encoded + NoiseFor(p, s0, n, inputNoise))
  }

  /** Mask and body of one LWE ciphertext. */
  ghost function Ciphertext(p: Params, s0: Word, n: nat, encoded: Word, inputNoise: Word): (ws: seq<Word>)
    ensures |ws| == n + 1
  {
    Mask(p, s0, n) + [Body(p, s0, n, encoded, inputNoise)]
  }

  function NativeBeats(logical: Logical): (beats: seq<Packet>)
    ensures |beats| == 384
  {
    FullBeats(Slot(logical, 0)) + FullBeats(Slot(logical, 1))
  }

  // ---------------------------------------------------------------- one byte

  function CiphertextIndex(requestIndex: nat, k: nat): (c: nat)
    ensures c < TWO32
  {
    (requestIndex * 4 + k) % 0x1_0000_0000
  }

  /** The ciphertext of block `k` of a byte. */
  ghost function BlockCiphertext(p: Params, clear: Byte, requestIndex: nat, k: nat): (logical: Logical)
    requires k < 4
  {
    Ciphertext(p, p.generator.seed(CiphertextIndex(requestIndex, k)), 2048,
               Encode(BlockOf(clear, k)), 0)
  }

  ghost function BlockBeats(p: Params, clear: Byte, requestIndex: nat, k: nat): (beats: seq<Packet>)
    requires k < 4
  {
    var logical := BlockCiphertext(p, clear, requestIndex, k);
    if p.outputLayout == LAYOUT_HPU_NATIVE then NativeBeats(logical) else Beats(logical)
  }

  /** The first `n` of consecutive pieces. */
  ghost function Joined(piece: nat -> seq<Packet>, n: nat): (beats: seq<Packet>) {
    if n == 0 then [] else Joined(piece, n - 1) + piece(n - 1)
  }

  ghost function BlockPieces(p: Params, clear: Byte, requestIndex: nat): nat -> seq<Packet> {
    (k: nat) => if k < 4 then BlockBeats(p, clear, requestIndex, k) else []
  }

  /** The ciphertexts of the four blocks of a byte. */
  ghost function BlocksBeats(p: Params, clear: Byte, requestIndex: nat): (beats: seq<Packet>) {
    Joined(BlockPieces(p, clear, requestIndex), 4)
  }

  // ---------------------------------------------------------------- single-block modes

  function EncodedInput(p: Params, packet: Packet): (encoded: Word) {
    if p.inputMode == MODE_CLEAR then Wrap(Lane(packet, 0) * p.delta) else Lane(packet, 0)
  }

  ghost function SingleBeats(p: Params, packet: Packet, requestIndex: nat): (beats: seq<Packet>) {
    Beats(Ciphertext(p, p.generator.seed(requestIndex), p.maskDimension,
                     EncodedInput(p, packet), Lane(packet, 1)))
  }

  // ---------------------------------------------------------------- the whole stream

  /** The first `count` elements; a count of 0 means no limit. */
  function Take<T>(s: seq<T>, count: nat): (t: seq<T>)
    ensures count > 0 ==> |t| <= count
  {
    if count == 0 || |s| <= count then s else s[..count]
  }

  /** What is emitted for the byte or packet with a given request index. */
  datatype Emitter = Emitter(byte: (Byte, nat) -> seq<Packet>, single: (Packet, nat) -> seq<Packet>)

  ghost function EmitterOf(p: Params): Emitter {
    Emitter((clear: Byte, i: nat) => BlocksBeats(p, clear, i),
            (packet: Packet, i: nat) => SingleBeats(p, packet, i))
  }

  /** What is emitted for consecutive requests. The request index is a 32-bit
      counter. */
  ghost function Emitted<T>(emit: (T, nat) -> seq<Packet>, items: seq<T>): (beats: seq<Packet>) {
    if items == [] then []
    else
      var n := |items| - 1;
      Emitted(emit, items[..n]) + emit(items[n], n % 0x1_0000_0000)
  }

  /** The plaintext bytes or plaintext packets that are encrypted, and their
      ciphertexts. */
  ghost function PayloadOf(p: Params, e: Emitter, data: seq<Packet>): (beats: seq<Packet>) {
    if p.inputMode == MODE_U8_RADIX
    then Emitted(e.byte, Take(ValidBytes(data), p.inputCount))
    else Emitted(e.single, Take(data, p.inputCount))
  }

  function ProcessedCount(p: Params, data: seq<Packet>): (n: nat)
    ensures p.inputCount > 0 ==> n <= p.inputCount
  {
    if p.inputMode == MODE_U8_RADIX then |Take(ValidBytes(data), p.inputCount)|
    else |Take(data, p.inputCount)|
  }

  predicate Stops(p: Params, packet: Packet) {
    IsDone(packet) || (p.inputCount == 0 && packet.last)
  }

  /** Index of the packet that ends the task, or the length of the input. */
  function EndOfTask(p: Params, input: seq<Packet>): (k: nat)
    ensures k <= |input|
    ensures forall j | 0 <= j < k :: !Stops(p, input[j])
    ensures k < |input| ==> Stops(p, input[k])
  {
    if input == [] || Stops(p, input[0]) then 0
    else
      var k := EndOfTask(p, input[1..]);
      assert forall j | 0 < j < k + 1 :: input[j] == input[1..][j - 1];
      k + 1
  }

  /** Everything lwe_encrypt writes after it accepted its configuration. If the input
      runs out before the task ends, the operator waits and nothing follows the
      payload. */
  ghost function StreamOutput(p: Params, e: Emitter, input: seq<Packet>): (beats: seq<Packet>) {
    var k := EndOfTask(p, input);
    if k == |input| then PayloadOf(p, e, input)
    else if !IsDone(input[k]) then
      PayloadOf(p, e, input[..k + 1]) + [Terminator(Zeros(64))]
    else if p.inputCount != 0 && ProcessedCount(p, input[..k]) < p.inputCount then
      PayloadOf(p, e, input[..k]) + [ErrorPacket(ERROR_TAG, 4)]
    else
      PayloadOf(p, e, input[..k]) + [input[k]]
  }

  ghost function Output(context: Context, input: seq<Packet>): (beats: seq<Packet>) {
    var p := ReadParams(context);
    if ConfigError(p) != 0 then [ErrorPacket(ERROR_TAG, ConfigError(p))]
    else StreamOutput(p, EmitterOf(p), input)
  }

  // ================================================================ the operator

  /** `write_hpu_native_pc_slot` */
  method WriteSlot(out: OutStream, pcData: array<Word>, body: Word, includeBody: bool)
    requires pcData.Length == 1024
    modifies out
    ensures out.beats == old(out.beats) + FullBeats(
      if includeBody then pcData[..] + [body] + ZeroWords(511) else pcData[..] + ZeroWords(512))
  {
    var packer := new WordPacker(out);
    packer.WriteArray(pcData);
    assert packer.words == pcData[..];
    if includeBody {
      packer.WriteWord(body);
      packer.WriteZeros(511, 1536);
    } else {
      packer.WriteZeros(512, 1536);
    }
  }

  lemma BodyStep(body: int, total: int, mask: Word)
    requires body == Wrap(total)
    ensures Wrap(body + mask) == Wrap(total + mask)
  {
    WrapSum(total, mask);
  }

  lemma BodyEnd(total: int, encoded: Word, noise: int)
    ensures Wrap(Wrap(Wrap(total) + encoded) + Wrap(noise)) == Wrap(total + encoded + noise)
  {
    WrapSum(total, encoded);
    WrapSum(total + encoded, Wrap(noise));
    WrapSum(noise, total + encoded);
  }

  lemma MaskTermsStep(p: Params, s0: Word, i: nat)
    ensures Sum(MaskTerms(p, s0, i + 1))
         == Sum(MaskTerms(p, s0, i))
            + (if p.key(i) then MaskWord(p, s0, i) as int else 0)
  {
    assert MaskTerms(p, s0, i + 1)[..i] == MaskTerms(p, s0, i);
  }

  /** The noise part of both ciphertext functions. */
  method SampleNoise(p: Params, state: Word, inputNoise: Word, ghost s0: Word, ghost n: nat) returns (noise: Word)
    requires state == Draw(p.generator, s0, n)
    ensures noise == Wrap(NoiseFor(p, s0, n, inputNoise))
  {
    noise := 0;
    if p.noiseMode == NOISE_INPUT {
      noise := inputNoise;
    } else if p.noiseMode == NOISE_TUNIFORM {
      var sampled, _ := SampleTuniform(p.generator, state, p.noiseBoundLog2);
      noise := sampled;
    }
  }

  method AddSelected(body: Word, maskWord: Word, selected: bool, ghost total: int) returns (body': Word)
    requires body == Wrap(total)
    ensures body' == Wrap(total + if selected then maskWord else 0)
  {
    body' := body;
    if selected {
      BodyStep(body, total, maskWord);
      body' := Wrap(body + maskWord);
    }
  }

  /** One round of a mask loop: draw a word and add it to the body if it is
      selected. */
  method MaskRound(p: Params, state: Word, body: Word, i: nat, ghost s0: Word)
    returns (state': Word, body': Word, maskWord: Word)
    requires state == Draw(p.generator, s0, i) && body == Wrap(Sum(MaskTerms(p, s0, i)))
    ensures state' == Draw(p.generator, s0, i + 1) && maskWord == MaskWord(p, s0, i)
    ensures body' == Wrap(Sum(MaskTerms(p, s0, i + 1)))
  {
    state' := p.generator.next(state);
    maskWord := state';
    MaskTermsStep(p, s0, i);
    body' := AddSelected(body, maskWord, p.key(i), Sum(MaskTerms(p, s0, i)));
  }

  /** The end of both ciphertext functions: add the message and the noise. */
  method FinishBody(p: Params, state: Word, body: Word, encoded: Word, inputNoise: Word,
                    ghost s0: Word, ghost n: nat) returns (body': Word)
    requires state == Draw(p.generator, s0, n) && body == Wrap(Sum(MaskTerms(p, s0, n)))
    ensures body' == Body(p, s0, n, encoded, inputNoise)
  {
    var noise := SampleNoise(p, state, inputNoise, s0, n);
    BodyEnd(Sum(MaskTerms(p, s0, n)), encoded, NoiseFor(p, s0, n, inputNoise));
    body' := Wrap(body + encoded);
    body' := Wrap(body' + noise);
  }

  lemma MaskSnoc(p: Params, s0: Word, i: nat)
    ensures Mask(p, s0, i + 1) == Mask(p, s0, i) + [MaskWord(p, s0, i)]
  {
  }

  /** `encrypt_encoded_lwe` */
  method EncryptEncoded(out: OutStream, p: Params, encoded: Word, inputNoise: Word,
                        ciphertextIndex: nat)
    requires p.maskDimension <= 4096
    modifies out
    ensures out.beats == old(out.beats)
      + Beats(Ciphertext(p, p.generator.seed(ciphertextIndex), p.maskDimension,
                         encoded, inputNoise))
  {
    var s0 := p.generator.seed(ciphertextIndex);
    var state, body: Word := s0, 0;
    var packer := new WordPacker(out);
    var i := 0;
    while i < 4096
      invariant i <= p.maskDimension && packer.out == out && packer.base == old(out.beats)
      invariant packer.Valid() && fresh(packer)
      invariant packer.words == Mask(p, s0, i)
      invariant state == Draw(p.generator, s0, i) && body == Wrap(Sum(MaskTerms(p, s0, i)))
      decreases 4096 - i
    {
      if i >= p.maskDimension {
        break;
      }
      var maskWord;
      state, body, maskWord := MaskRound(p, state, body, i, s0);
      packer.WriteWord(maskWord);
      MaskSnoc(p, s0, i);
      i := i + 1;
    }
    body := FinishBody(p, state, body, encoded, inputNoise, s0, i);
    packer.WriteLastWord(body);
  }

  // ---------------------------------------------------------------- native layout

  /** Slot buffer `which` holds its share of the first `i` mask words. */
  ghost predicate Scattered(pc: seq<Word>, which: nat, p: Params, s0: Word, i: nat)
    requires which < 2
  {
    && |pc| == 1024
    && forall offset: nat | offset < 1024 ::
         NaturalIndex(which, offset) < i ==> pc[offset] == MaskWord(p, s0, NaturalIndex(which, offset))
  }

  lemma ScatterStep(pc: seq<Word>, pc': seq<Word>, which: nat, p: Params, s0: Word, i: nat)
    requires which < 2 && i < MASK_DIMENSION && Scattered(pc, which, p, s0, i)
    requires pc' == if PlaceOf(i).pc == which then pc[PlaceOf(i).offset := MaskWord(p, s0, i)] else pc
    ensures Scattered(pc', which, p, s0, i + 1)
  {
    forall offset: nat | offset < 1024 && NaturalIndex(which, offset) < i + 1
      ensures pc'[offset] == MaskWord(p, s0, NaturalIndex(which, offset))
    {
      PlaceIsBijective(i, which, offset);
    }
  }

  /** The scatter part of the loop in `encrypt_encoded_lwe_hpu_native`. */
  method StoreMaskWord(pc0: array<Word>, pc1: array<Word>, i: nat, maskWord: Word)
    requires pc0.Length == 1024 && pc1.Length == 1024 && pc0 != pc1 && i < MASK_DIMENSION
    modifies pc0, pc1
    ensures pc0[..] == if PlaceOf(i).pc == 0
      then old(pc0[..])[PlaceOf(i).offset := maskWord] else old(pc0[..])
    ensures pc1[..] == if PlaceOf(i).pc == 1
      then old(pc1[..])[PlaceOf(i).offset := maskWord] else old(pc1[..])
  {
    var hpuIndex := ReverseByBitStores(i);
    assert hpuIndex == Rev11(i);
    var group, lane := hpuIndex / 16, hpuIndex % 16;
    var pcOffset := (group / 2) * 16 + lane;
    if group % 2 == 0 {
      pc0[pcOffset] := maskWord;
    } else {
      pc1[pcOffset] := maskWord;
    }
  }

  lemma SlotsOfCiphertext(pc0: seq<Word>, pc1: seq<Word>, p: Params, s0: Word, body: Word)
    requires Scattered(pc0, 0, p, s0, 2048) && Scattered(pc1, 1, p, s0, 2048)
    ensures pc0 + [body] + ZeroWords(511) == Slot(Mask(p, s0, 2048) + [body], 0)
    ensures pc1 + ZeroWords(512) == Slot(Mask(p, s0, 2048) + [body], 1)
  {
    var logical: Logical := Mask(p, s0, 2048) + [body];
    forall offset: nat | offset < 1536
      ensures (pc0 + [body] + ZeroWords(511))[offset] == SlotWord(logical, 0, offset)
      ensures (pc1 + ZeroWords(512))[offset] == SlotWord(logical, 1, offset)
    {
      if offset < 1024 {
        assert logical[NaturalIndex(0, offset)] == MaskWord(p, s0, NaturalIndex(0, offset));
        assert logical[NaturalIndex(1, offset)] == MaskWord(p, s0, NaturalIndex(1, offset));
      }
    }
  }

  /** The mask loop of `encrypt_encoded_lwe_hpu_native`. */
  method ScatterMask(p: Params, s0: Word, pc0: array<Word>, pc1: array<Word>) returns (state: Word, body: Word)
    requires pc0.Length == 1024 && pc1.Length == 1024 && pc0 != pc1
    modifies pc0, pc1
    ensures Scattered(pc0[..], 0, p, s0, 2048) && Scattered(pc1[..], 1, p, s0, 2048)
    ensures state == Draw(p.generator, s0, 2048) && body == Wrap(Sum(MaskTerms(p, s0, 2048)))
  {
    state, body := s0, 0;
    var i := 0;
    while i < 2048
      invariant i <= 2048
      invariant Scattered(pc0[..], 0, p, s0, i) && Scattered(pc1[..], 1, p, s0, i)
      invariant state == Draw(p.generator, s0, i) && body == Wrap(Sum(MaskTerms(p, s0, i)))
    {
      var maskWord;
      ghost var before0, before1 := pc0[..], pc1[..];
      state, body, maskWord := MaskRound(p, state, body, i, s0);
      StoreMaskWord(pc0, pc1, i, maskWord);
      ScatterStep(before0, pc0[..], 0, p, s0, i);
      ScatterStep(before1, pc1[..], 1, p, s0, i);
      i := i + 1;
    }
  }

  method WriteSlots(out: OutStream, pc0: array<Word>, pc1: array<Word>, body: Word, ghost logical: Logical)
    requires pc0.Length == 1024 && pc1.Length == 1024
    requires pc0[..] + [body] + ZeroWords(511) == Slot(logical, 0) && pc1[..] + ZeroWords(512) == Slot(logical, 1)
    modifies out
    ensures out.beats == old(out.beats) + NativeBeats(logical)
  {
    WriteSlot(out, pc0, body, true);
    WriteSlot(out, pc1, 0, false);
    Assoc(old(out.beats), FullBeats(Slot(logical, 0)), FullBeats(Slot(logical, 1)));
  }

  /** `encrypt_encoded_lwe_hpu_native` */
  method EncryptEncodedNative(out: OutStream, p: Params, encoded: Word, ciphertextIndex: nat)
    requires p.noiseMode != NOISE_INPUT
    modifies out
    ensures out.beats == old(out.beats)
      + NativeBeats(Ciphertext(p, p.generator.seed(ciphertextIndex), 2048, encoded, 0))
  {
    var s0 := p.generator.seed(ciphertextIndex);
    var pc0 := new Word[1024];
    var pc1 := new Word[1024];
    var state, body := ScatterMask(p, s0, pc0, pc1);
    body := FinishBody(p, state, body, encoded, 0, s0, 2048);
    SlotsOfCiphertext(pc0[..], pc1[..], p, s0, body);
    WriteSlots(out, pc0, pc1, body, Mask(p, s0, 2048) + [body]);
  }

  // ---------------------------------------------------------------- bytes and packets

  method EncryptBlock(out: OutStream, p: Params, clear: Byte, requestIndex: nat, k: nat)
    requires p.maskDimension == MASK_DIMENSION && p.noiseMode != NOISE_INPUT && k < 4
    modifies out
    ensures out.beats == old(out.beats) + BlockBeats(p, clear, requestIndex, k)
  {
    var encoded := Encode(BlockOf(clear, k));
    if p.outputLayout == LAYOUT_HPU_NATIVE {
      EncryptEncodedNative(out, p, encoded, CiphertextIndex(requestIndex, k));
    } else {
      EncryptEncoded(out, p, encoded, 0, CiphertextIndex(requestIndex, k));
    }
  }

  /** `encrypt_u8_radix` */
  method EncryptU8Radix(out: OutStream, p: Params, clear: Byte, requestIndex: nat)
    requires p.maskDimension == MASK_DIMENSION && p.noiseMode != NOISE_INPUT
    modifies out
    ensures out.beats == old(out.beats) + BlocksBeats(p, clear, requestIndex)
  {
    EncryptBlocks(out, p, clear, requestIndex, BlockPieces(p, clear, requestIndex));
  }

  method EncryptBlocks(out: OutStream, p: Params, clear: Byte, requestIndex: nat, ghost piece: nat -> seq<Packet>)
    requires p.maskDimension == MASK_DIMENSION && p.noiseMode != NOISE_INPUT
    requires forall k: nat {:trigger BlockBeats(p, clear, requestIndex, k)}
               | k < 4 :: piece(k) == BlockBeats(p, clear, requestIndex, k)
    modifies out
    ensures out.beats == old(out.beats) + Joined(piece, 4)
  {
    var k := 0;
    while k < 4
      invariant k <= 4 && out.beats == old(out.beats) + Joined(piece, k)
    {
      EncryptBlock(out, p, clear, requestIndex, k);
      Assoc(old(out.beats), Joined(piece, k), piece(k));
      k := k + 1;
    }
  }

  /** `encrypt_one_lwe` */
  method EncryptOne(out: OutStream, p: Params, packet: Packet, requestIndex: nat)
    requires p.maskDimension <= 4096
    modifies out
    ensures out.beats == old(out.beats) + SingleBeats(p, packet, requestIndex)
  {
    var encoded := Lane(packet, 0);
    if p.inputMode == MODE_CLEAR {
      encoded := Wrap(encoded * p.delta);
    }
    EncryptEncoded(out, p, encoded, Lane(packet, 1), requestIndex);
  }

  // ---------------------------------------------------------------- the stream loop

  /** `e` is what the methods above emit. */
  ghost predicate Emits(e: Emitter, p: Params) {
    && (forall clear: Byte, i: nat {:trigger BlocksBeats(p, clear, i)} ::
          e.byte(clear, i) == BlocksBeats(p, clear, i))
    && (forall packet: Packet, i: nat {:trigger SingleBeats(p, packet, i)} ::
          e.single(packet, i) == SingleBeats(p, packet, i))
  }

  /** A configuration for which bytes can be encrypted. */
  predicate Accepted(p: Params) {
    && p.inputCount < TWO32
    && p.maskDimension <= 4096
    && (p.inputMode == MODE_U8_RADIX ==>
          p.maskDimension == MASK_DIMENSION && p.noiseMode != NOISE_INPUT)
  }

  method EncryptByte(out: OutStream, p: Params, clear: Byte, requestIndex: nat, ghost e: Emitter)
    requires Accepted(p) && p.inputMode == MODE_U8_RADIX && Emits(e, p)
    modifies out
    ensures out.beats == old(out.beats) + e.byte(clear, requestIndex)
  {
    EncryptU8Radix(out, p, clear, requestIndex);
  }

  method EncryptSingle(out: OutStream, p: Params, packet: Packet, requestIndex: nat, ghost e: Emitter)
    requires Accepted(p) && Emits(e, p)
    modifies out
    ensures out.beats == old(out.beats) + e.single(packet, requestIndex)
  {
    EncryptOne(out, p, packet, requestIndex);
  }

  lemma EmittedSnoc<T>(emit: (T, nat) -> seq<Packet>, items: seq<T>, x: T)
    ensures Emitted(emit, items + [x])
         == Emitted(emit, items) + emit(x, |items| % 0x1_0000_0000)
  {
    assert (items + [x])[..|items|] == items;
  }

  lemma {:induction false} LanesGrow(packet: Packet, lane: nat, n: nat)
    requires lane <= n <= 64
    ensures ValidLanes(packet, lane) <= ValidLanes(packet, n)
    decreases n
  {
    if lane < n {
      LanesGrow(packet, lane, n - 1);
    }
  }

  /** The lanes after the one at which the count was reached do not matter. */
  lemma LaterLanesDoNotMatter(before: seq<Byte>, packet: Packet, lane: nat, count: nat)
    requires lane <= 64 && count > 0
    requires |before| + |ValidLanes(packet, lane)| == count
    ensures Take(before + ValidLanes(packet, 64), count) == before + ValidLanes(packet, lane)
  {
    LanesGrow(packet, lane, 64);
  }

  /** `done` is what was encrypted so far, within the requested count. */
  ghost predicate Progress(p: Params, e: Emitter, base: seq<Packet>, beats: seq<Packet>, done: seq<Byte>,
                           processed: nat) {
    && (p.inputCount == 0 || |done| <= p.inputCount)
    && processed == |done| % 0x1_0000_0000
    && beats == base + Emitted(e.byte, done)
  }

  lemma CounterStep(n: nat)
    ensures (n % 0x1_0000_0000 + 1) % 0x1_0000_0000 == (n + 1) % 0x1_0000_0000
  {
  }

  lemma ProgressStep(p: Params, e: Emitter, base: seq<Packet>, beats: seq<Packet>, done: seq<Byte>,
                     processed: nat, clear: Byte)
    requires Progress(p, e, base, beats, done, processed)
    requires p.inputCount == 0 || |done| < p.inputCount
    ensures Progress(p, e, base, beats + e.byte(clear, processed), done + [clear],
                     (processed + 1) % 0x1_0000_0000)
  {
    CounterStep(|done|);
    EmittedSnoc(e.byte, done, clear);
    Assoc(base, Emitted(e.byte, done), e.byte(clear, processed));
  }

  /** One round of the lane loop: encrypt the byte if the lane is valid. */
  method EncryptLane(out: OutStream, p: Params, packet: Packet, lane: nat, processed: nat,
                     ghost e: Emitter, ghost base: seq<Packet>, ghost before: seq<Byte>) returns (processed': nat)
    requires Accepted(p) && p.inputMode == MODE_U8_RADIX && Emits(e, p) && lane < 64
    requires Progress(p, e, base, out.beats, before + ValidLanes(packet, lane), processed)
    requires p.inputCount == 0 || processed < p.inputCount
    modifies out
    ensures Progress(p, e, base, out.beats, before + ValidLanes(packet, lane + 1), processed')
  {
    processed' := processed;
    if packet.keep[lane] {
      var clear := packet.data[lane];
      Assoc(before, ValidLanes(packet, lane), [clear]);
      ProgressStep(p, e, base, out.beats, before + ValidLanes(packet, lane), processed, clear);
      EncryptByte(out, p, clear, processed, e);
      processed' := (processed + 1) % 0x1_0000_0000;
    } else {
      assert ValidLanes(packet, lane + 1) == ValidLanes(packet, lane);
    }
  }

  /** `packed_u8_loop` */
  method EncryptPacket(out: OutStream, p: Params, packet: Packet, processed: nat,
                       ghost e: Emitter, ghost base: seq<Packet>, ghost before: seq<Byte>) returns (processed': nat)
    requires Accepted(p) && p.inputMode == MODE_U8_RADIX && Emits(e, p)
    requires Progress(p, e, base, out.beats, before, processed)
    modifies out
    ensures Progress(p, e, base, out.beats, Take(before + ValidLanes(packet, 64), p.inputCount), processed')
  {
    processed' := processed;
    var lane := 0;
    assert before + ValidLanes(packet, 0) == before;
    while lane < 64
      invariant lane <= 64
      invariant Progress(p, e, base, out.beats, before + ValidLanes(packet, lane), processed')
    {
      if p.inputCount != 0 && processed' >= p.inputCount {
        LaterLanesDoNotMatter(before, packet, lane, p.inputCount);
        return;
      }
      processed' := EncryptLane(out, p, packet, lane, processed', e, base, before);
      lane := lane + 1;
    }
  }

  /** What was encrypted of the data packets `data`. */
  ghost predicate Encrypted(p: Params, e: Emitter, base: seq<Packet>, beats: seq<Packet>, data: seq<Packet>,
                            processed: nat) {
    && processed == ProcessedCount(p, data) % 0x1_0000_0000
    && beats == base + PayloadOf(p, e, data)
  }

  lemma SkipPacket(p: Params, e: Emitter, base: seq<Packet>, beats: seq<Packet>, data: seq<Packet>,
                   processed: nat, packet: Packet)
    requires Accepted(p) && Encrypted(p, e, base, beats, data, processed)
    requires p.inputCount != 0 && processed >= p.inputCount
    ensures Encrypted(p, e, base, beats, data + [packet], processed)
  {
    ValidBytesSnoc(data, packet);
    if p.inputMode == MODE_U8_RADIX {
      assert Take(ValidBytes(data + [packet]), p.inputCount) == Take(ValidBytes(data), p.inputCount);
    } else {
      assert Take(data + [packet], p.inputCount) == Take(data, p.inputCount);
    }
  }

  lemma TakeTwice(a: seq<Byte>, b: seq<Byte>, count: nat)
    requires count == 0 || |a| < count
    ensures Take(Take(a, count) + b, count) == Take(a + b, count)
  {
  }

  method EncryptPackedBytes(out: OutStream, p: Params, packet: Packet, processed: nat,
                            ghost e: Emitter, ghost base: seq<Packet>, ghost data: seq<Packet>)
    returns (processed': nat)
    requires Accepted(p) && Emits(e, p) && p.inputMode == MODE_U8_RADIX
    requires Encrypted(p, e, base, out.beats, data, processed)
    requires p.inputCount == 0 || processed < p.inputCount
    modifies out
    ensures Encrypted(p, e, base, out.beats, data + [packet], processed')
  {
    ValidBytesSnoc(data, packet);
    TakeTwice(ValidBytes(data), ValidLanes(packet, 64), p.inputCount);
    processed' := EncryptPacket(out, p, packet, processed, e, base, Take(ValidBytes(data), p.inputCount));
  }

  lemma SingleStep(p: Params, e: Emitter, base: seq<Packet>, beats: seq<Packet>, data: seq<Packet>,
                   processed: nat, packet: Packet)
    requires Accepted(p) && p.inputMode != MODE_U8_RADIX
    requires Encrypted(p, e, base, beats, data, processed)
    requires p.inputCount == 0 || processed < p.inputCount
    ensures Encrypted(p, e, base, beats + e.single(packet, processed), data + [packet],
                      (processed + 1) % 0x1_0000_0000)
  {
    CounterStep(|data|);
    assert Take(data, p.inputCount) == data;
    assert Take(data + [packet], p.inputCount) == data + [packet];
    EmittedSnoc(e.single, data, packet);
    Assoc(base, Emitted(e.single, data), e.single(packet, processed));
  }

  /** The part of the stream loop that encrypts one data packet. */
  method EncryptData(out: OutStream, p: Params, packet: Packet, processed: nat,
                     ghost e: Emitter, ghost base: seq<Packet>, ghost data: seq<Packet>) returns (processed': nat)
    requires Accepted(p) && Emits(e, p)
    requires Encrypted(p, e, base, out.beats, data, processed)
    requires p.inputCount == 0 || processed < p.inputCount
    modifies out
    ensures Encrypted(p, e, base, out.beats, data + [packet], processed')
  {
    if p.inputMode == MODE_U8_RADIX {
      processed' := EncryptPackedBytes(out, p, packet, processed, e, base, data);
    } else {
      SingleStep(p, e, base, out.beats, data, processed, packet);
      EncryptSingle(out, p, packet, processed, e);
      processed' := (processed + 1) % 0x1_0000_0000;
    }
  }

  lemma EndIs(p: Params, input: seq<Packet>, k: nat)
    requires k <= |input| && forall j | 0 <= j < k :: !Stops(p, input[j])
    requires k < |input| ==> Stops(p, input[k])
    ensures EndOfTask(p, input) == k
  {
  }

  lemma FinishedOutput(p: Params, e: Emitter, input: seq<Packet>, k: nat, processed: nat, packet: Packet)
    requires Accepted(p) && k < |input| && IsDone(input[k]) && forall j | 0 <= j < k :: !Stops(p, input[j])
    requires processed == ProcessedCount(p, input[..k]) % 0x1_0000_0000
    requires packet == if p.inputCount != 0 && processed < p.inputCount then ErrorPacket(ERROR_TAG, 4) else input[k]
    ensures StreamOutput(p, e, input) == PayloadOf(p, e, input[..k]) + [packet]
  {
    EndIs(p, input, k);
  }

  lemma LastOutput(p: Params, e: Emitter, input: seq<Packet>, k: nat)
    requires k < |input| && p.inputCount == 0 && input[k].last && !IsDone(input[k])
    requires forall j | 0 <= j < k :: !Stops(p, input[j])
    ensures StreamOutput(p, e, input) == PayloadOf(p, e, input[..k + 1]) + [Terminator(Zeros(64))]
  {
    EndIs(p, input, k);
  }

  /** The input ended before the task did: the operator waits. */
  lemma OpenOutput(p: Params, e: Emitter, input: seq<Packet>)
    requires forall j | 0 <= j < |input| :: !Stops(p, input[j])
    ensures StreamOutput(p, e, input) == PayloadOf(p, e, input)
  {
    EndIs(p, input, |input|);
  }

  method WriteAfter(out: OutStream, packet: Packet, ghost base: seq<Packet>, ghost payload: seq<Packet>)
    requires out.beats == base + payload
    modifies out
    ensures out.beats == base + (payload + [packet])
  {
    out.Write(packet);
    Assoc(base, payload, [packet]);
  }

  /** The stream loop's reaction to a finish packet. */
  method Finish(out: OutStream, p: Params, input: seq<Packet>, k: nat, processed: nat,
                ghost e: Emitter, ghost base: seq<Packet>)
    requires Accepted(p) && k < |input| && IsDone(input[k])
    requires forall j | 0 <= j < k :: !Stops(p, input[j])
    requires Encrypted(p, e, base, out.beats, input[..k], processed)
    modifies out
    ensures out.beats == base + StreamOutput(p, e, input)
  {
    var packet := input[k];
    if p.inputCount != 0 && processed < p.inputCount {
      packet := ErrorPacket(ERROR_TAG, 4);
    }
    FinishedOutput(p, e, input, k, processed, packet);
    WriteAfter(out, packet, base, PayloadOf(p, e, input[..k]));
  }

  /** The synthetic finish packet after TLAST when no count was given. */
  method FinishAfterLast(out: OutStream, p: Params, input: seq<Packet>, k: nat,
                         ghost processed: nat, ghost e: Emitter, ghost base: seq<Packet>)
    requires k < |input| && p.inputCount == 0 && input[k].last && !IsDone(input[k])
    requires forall j | 0 <= j < k :: !Stops(p, input[j])
    requires Encrypted(p, e, base, out.beats, input[..k + 1], processed)
    modifies out
    ensures out.beats == base + StreamOutput(p, e, input)
  {
    LastOutput(p, e, input, k);
    WriteAfter(out, Terminator(Zeros(64)), base, PayloadOf(p, e, input[..k + 1]));
  }

  /** One data packet of `stream_loop`. */
  method ConsumePacket(out: OutStream, p: Params, packet: Packet, processed: nat,
                       ghost e: Emitter, ghost base: seq<Packet>, ghost data: seq<Packet>) returns (processed': nat)
    requires Accepted(p) && Emits(e, p)
    requires Encrypted(p, e, base, out.beats, data, processed)
    modifies out
    ensures Encrypted(p, e, base, out.beats, data + [packet], processed')
  {
    if p.inputCount != 0 && processed >= p.inputCount {
      SkipPacket(p, e, base, out.beats, data, processed, packet);
      processed' := processed;
    } else {
      processed' := EncryptData(out, p, packet, processed, e, base, data);
    }
  }

  lemma OneMorePacket(input: seq<Packet>, k: nat)
    requires k < |input|
    ensures input[..k + 1] == input[..k] + [input[k]]
  {
  }

  /** The data packet with index `k`. */
  method ConsumeAt(out: OutStream, p: Params, input: seq<Packet>, k: nat, processed: nat,
                   ghost e: Emitter, ghost base: seq<Packet>) returns (processed': nat)
    requires Accepted(p) && Emits(e, p) && k < |input|
    requires Encrypted(p, e, base, out.beats, input[..k], processed)
    modifies out
    ensures Encrypted(p, e, base, out.beats, input[..k + 1], processed')
  {
    OneMorePacket(input, k);
    processed' := ConsumePacket(out, p, input[k], processed, e, base, input[..k]);
  }

  /** The rounds of `stream_loop` up to the packet that ends the task, or to the end of what
      arrived. A packet that ends the task by TLAST is data too. */
  method EncryptUntilEnd(out: OutStream, p: Params, input: seq<Packet>, ghost e: Emitter, ghost base: seq<Packet>)
    returns (k: nat, processed: nat)
    requires Accepted(p) && Emits(e, p) && Encrypted(p, e, base, out.beats, [], 0)
    modifies out
    ensures k <= |input| && (forall j | 0 <= j < k :: !Stops(p, input[j])) && (k < |input| ==> Stops(p, input[k]))
    ensures var data := if k < |input| && !IsDone(input[k]) then input[..k + 1] else input[..k];
            Encrypted(p, e, base, out.beats, data, processed)
  {
    k, processed := 0, 0;
    assert input[..0] == [];
    while k < |input| && !IsDone(input[k])
      invariant k <= |input| && forall j | 0 <= j < k :: !Stops(p, input[j])
      invariant Encrypted(p, e, base, out.beats, input[..k], processed)
    {
      processed := ConsumeAt(out, p, input, k, processed, e, base);
      if p.inputCount == 0 && input[k].last {
        return;
      }
      k := k + 1;
    }
  }

  /** `stream_loop` */
  method EncryptStream(out: OutStream, p: Params, input: seq<Packet>, ghost e: Emitter)
    requires Accepted(p) && Emits(e, p) && |input| < TWO32
    modifies out
    ensures out.beats == old(out.beats) + StreamOutput(p, e, input)
  {
    ghost var base := out.beats;
    NothingEncrypted(p, e, base);
    var k, processed := EncryptUntilEnd(out, p, input, e, base);
    if k == |input| {
      assert input[..k] == input;
      OpenOutput(p, e, input);
    } else if IsDone(input[k]) {
      Finish(out, p, input, k, processed, e, base);
    } else {
      FinishAfterLast(out, p, input, k, processed, e, base);
    }
  }

  lemma NothingEncrypted(p: Params, e: Emitter, base: seq<Packet>)
    ensures Encrypted(p, e, base, base, [], 0)
  {
  }

  /** `lwe_encrypt`: the input holds every packet that arrives, and the task ends
      within the first 2^32 - 1 of them. */
  method Encrypt(input: seq<Packet>, out: OutStream, context: Context)
    requires |input| < TWO32
    modifies out
    ensures out.beats == old(out.beats) + Output(context, input)
  {
    var p := ReadParams(context);
    if p.maskDimension == 0 || p.maskDimension > 4096 {
      out.Write(ErrorPacket(ERROR_TAG, 1));
    } else if p.inputMode == MODE_U8_RADIX && p.maskDimension != MASK_DIMENSION {
      out.Write(ErrorPacket(ERROR_TAG, 2));
    } else if p.inputMode == MODE_U8_RADIX && p.noiseMode == NOISE_INPUT {
      out.Write(ErrorPacket(ERROR_TAG, 3));
    } else if p.outputLayout > LAYOUT_HPU_NATIVE {
      out.Write(ErrorPacket(ERROR_TAG, 5));
    } else if p.outputLayout == LAYOUT_HPU_NATIVE && p.inputMode != MODE_U8_RADIX {
      out.Write(ErrorPacket(ERROR_TAG, 6));
    } else {
      EncryptStream(out, p, input, EmitterOf(p));
    }
  }
}
