/** The hosts' own decryption of a native buffer: the reference decoder of the
    decryption host and the verifier of the encryption host. Both work in natural mask
    order with 64-bit wrapping arithmetic. The FPGA decoder is proved to agree with
    them on every buffer.
 */
module HostReference {
  import opened Numbers
  import opened NativeLayout
  import opened Radix
  import opened Stream
  import opened Context
  import D = LweDecrypt
  import S = StreamInversion

  /** The native words of ciphertext `lwe`. */
  function NativeAtIndex(raw: seq<Byte>, lwe: nat): (native: Native)
    requires 8 * (3072 * lwe + 3072) <= |raw|
  {
    var words := seq<Word>(3072, j requires 0 <= j < 3072 => WordAt(raw, 3072 * lwe + j));
    assert |words| == 3072;
    words
  }

  ghost function HostPhase(key: Key, native: Native): (phase: Word) {
    Phase(native[PC_DATA_WORDS], Wrap(Sum(NaturalTerms(key, ToLogical(native)))))
  }

  ghost function HostBlock(key: Key, native: Native): (block: nat)
    ensures block < 4
  {
    DecodeNarrow(HostPhase(key, native))
  }

  ghost function HostBlocks(key: Key, raw: seq<Byte>, i: nat, n: nat): (blocks: seq<nat>)
    requires n <= 4 && 98304 * (i + 1) <= |raw|
    ensures |blocks| == n && forall k | 0 <= k < n :: blocks[k] < 4
  {
    var blocks := seq<nat>(n, k requires 0 <= k < n => HostBlock(key, NativeAtIndex(raw, 4 * i + k)));
    assert forall k | 0 <= k < n :: blocks[k] == HostBlock(key, NativeAtIndex(raw, 4 * i + k));
    blocks
  }

  ghost function HostByte(key: Key, raw: seq<Byte>, i: nat): (clear: Byte)
    requires 98304 * (i + 1) <= |raw|
  {
    assert Weight(4) == 256 by {
      assert Weight(2) == 16;
    }
    Assemble(HostBlocks(key, raw, i, 4))
  }

  ghost function HostBytes(key: Key, raw: seq<Byte>, n: nat): (clears: seq<Byte>)
    requires 98304 * n <= |raw|
    ensures |clears| == n
  {
    seq(n, i requires 0 <= i < n => HostByte(key, raw, i))
  }

  // ---------------------------------------------------------------- refinement

  /** The first packets of `stream` carry the bytes of `raw`. */
  ghost predicate Carries(stream: seq<Packet>, raw: seq<Byte>) {
    forall q: nat | 64 * q + 64 <= |raw| ::
      q < |stream| && stream[q].data == raw[64 * q..64 * q + 64]
  }

  lemma LaneOfBuffer(stream: seq<Packet>, raw: seq<Byte>, q: nat, lane: nat)
    requires Carries(stream, raw) && 64 * q + 64 <= |raw| && lane < 8
    ensures D.StreamWord(stream, q, lane) == WordAt(raw, 8 * q + lane)
  {
    SliceOfSlice(raw, 64 * q, 64 * q + 64, 8 * lane, 8 * lane + 8);
    assert stream[q].data == raw[64 * q..64 * q + 64];
  }

  lemma NativeOfBuffer(stream: seq<Packet>, raw: seq<Byte>, b: nat)
    requires Carries(stream, raw) && 8 * (3072 * b + 3072) <= |raw|
    ensures D.NativeFrom(stream, 384 * b) == NativeAtIndex(raw, b)
  {
    var found, expected := D.NativeFrom(stream, 384 * b), NativeAtIndex(raw, b);
    forall j: nat | j < 3072
      ensures found[j] == expected[j]
    {
      LaneOfBuffer(stream, raw, 384 * b + j / 8, j % 8);
    }
  }

  /** One ciphertext: permuted order and 65-bit rounding give the same block. */
  lemma FpgaBlockIsHostBlock(key: Key, native: Native)
    ensures D.DecodeNative(StreamKey(key), native) == HostBlock(key, native)
  {
    StreamOrderDoesNotMatter(key, native);
    RoundingWidthDoesNotMatter(native[PC_DATA_WORDS],
                               Wrap(Sum(NaturalTerms(key, ToLogical(native)))));
  }

  lemma FpgaBlockOfBuffer(key: Key, stream: seq<Packet>, raw: seq<Byte>, b: nat)
    requires Carries(stream, raw) && 8 * (3072 * b + 3072) <= |raw|
    ensures D.StreamBlock(StreamKey(key), stream, b) == HostBlock(key, NativeAtIndex(raw, b))
  {
    NativeOfBuffer(stream, raw, b);
    FpgaBlockIsHostBlock(key, NativeAtIndex(raw, b));
  }

  lemma FpgaByteIsHostByte(key: Key, stream: seq<Packet>, raw: seq<Byte>, i: nat)
    requires Carries(stream, raw) && 98304 * (i + 1) <= |raw|
    ensures D.StreamByte(StreamKey(key), stream, i) == HostByte(key, raw, i)
  {
    var a, b := D.StreamBlocks(StreamKey(key), stream, i, 4), HostBlocks(key, raw, i, 4);
    forall k: nat | k < 4
      ensures a[k] == b[k]
    {
      FpgaBlockOfBuffer(key, stream, raw, 4 * i + k);
    }
    assert a == b;
  }

  /** On every buffer, not only on valid ciphertexts, the FPGA decodes the same bytes as
      the host reference. */
  lemma FpgaRefinesHost(key: Key, stream: seq<Packet>, raw: seq<Byte>, n: nat)
    requires Carries(stream, raw) && 98304 * n <= |raw|
    ensures D.StreamBytes(StreamKey(key), stream, n) == HostBytes(key, raw, n)
  {
    forall i: nat | i < n
      ensures D.StreamByte(StreamKey(key), stream, i) == HostByte(key, raw, i)
    {
      FpgaByteIsHostByte(key, stream, raw, i);
    }
  }

  // ---------------------------------------------------------------- the reference decoder

  lemma NaturalTermsStep(key: Key, logical: Logical, i: nat, dot: Word)
    requires i < MASK_DIMENSION && dot == Wrap(Sum(NaturalTerms(key, logical)[..i]))
    ensures Wrap(Sum(NaturalTerms(key, logical)[..i + 1]))
         == if key[i] then Wrap(dot + logical[i]) else dot
  {
    var terms := NaturalTerms(key, logical);
    SumSnoc(terms, i);
    WrapSum(Sum(terms[..i]), terms[i]);
    WrapOfWord(dot);
  }

  ghost function MaskWordAt(raw: seq<Byte>, lwe: nat, i: nat): Word
    requires 8 * (3072 * lwe + 3072) <= |raw| && i < MASK_DIMENSION
  {
    ToLogical(NativeAtIndex(raw, lwe))[i]
  }

  /** The word that the C++ index arithmetic addresses is the logical one. */
  method LoadMaskWord(raw: seq<Byte>, lwe: nat, i: nat) returns (word: Word)
    requires 8 * (3072 * lwe + 3072) <= |raw| && i < MASK_DIMENSION
    ensures word == MaskWordAt(raw, lwe, i)
  {
    var pc, offset := ComputeHostPlace(i);
    PositionOfPlace(i);
    word := WordAt(raw, lwe * 3072 + pc * 1536 + offset);
    assert word == NativeAtIndex(raw, lwe)[MaskPosition(i)];
  }

  ghost predicate HasMask(logical: Logical, raw: seq<Byte>, lwe: nat)
    requires 8 * (3072 * lwe + 3072) <= |raw|
  {
    forall i: nat {:trigger MaskWordAt(raw, lwe, i)} | i < MASK_DIMENSION :: logical[i] == MaskWordAt(raw, lwe, i)
  }

  /** One round of the mask loop. */
  method MaskRound(raw: seq<Byte>, lwe: nat, key: Key, i: nat, dot: Word, ghost logical: Logical, ghost terms: seq<int>)
    returns (dot': Word, word: Word)
    requires 8 * (3072 * lwe + 3072) <= |raw| && HasMask(logical, raw, lwe) && i < MASK_DIMENSION
    requires terms == NaturalTerms(key, logical) && dot == Wrap(Sum(terms[..i]))
    ensures word == logical[i] && dot' == Wrap(Sum(terms[..i + 1]))
  {
    word := LoadMaskWord(raw, lwe, i);
    NaturalTermsStep(key, logical, i, dot);
    dot' := if key[i] then Wrap(dot + word) else dot;
  }

  /** The mask loop. */
  method MaskLoop(raw: seq<Byte>, lwe: nat, key: Key, ghost logical: Logical, ghost terms: seq<int>)
    returns (dot: Word, mask: seq<Word>)
    requires 8 * (3072 * lwe + 3072) <= |raw| && HasMask(logical, raw, lwe) && terms == NaturalTerms(key, logical)
    ensures dot == Wrap(Sum(terms)) && mask == logical[..2048]
  {
    dot, mask := 0, [];
    assert terms[..0] == [];
    for i := 0 to 2048
      invariant dot == Wrap(Sum(terms[..i])) && mask == logical[..i]
    {
      var word;
      dot, word := MaskRound(raw, lwe, key, i, dot, logical, terms);
      mask := mask + [word];
    }
    SumWhole(terms);
  }

  /** The mask loop and the phase of one ciphertext. */
  method ComputePhase(raw: seq<Byte>, lwe: nat, key: Key) returns (phase: Word, mask: seq<Word>)
    requires 8 * (3072 * lwe + 3072) <= |raw|
    ensures phase == HostPhase(key, NativeAtIndex(raw, lwe))
    ensures mask == ToLogical(NativeAtIndex(raw, lwe))[..2048]
  {
    ghost var logical := ToLogical(NativeAtIndex(raw, lwe));
    var dot;
    dot, mask := MaskLoop(raw, lwe, key, logical, NaturalTerms(key, logical));
    var body := WordAt(raw, lwe * 3072 + 1024);
    assert body == NativeAtIndex(raw, lwe)[PC_DATA_WORDS];
    phase := Phase(body, dot);
  }

  lemma HostBlocksSnoc(key: Key, raw: seq<Byte>, i: nat, n: nat)
    requires n < 4 && 98304 * (i + 1) <= |raw|
    ensures Assemble(HostBlocks(key, raw, i, n + 1))
         == Assemble(HostBlocks(key, raw, i, n))
            + HostBlock(key, NativeAtIndex(raw, 4 * i + n)) * Weight(n)
  {
    assert HostBlocks(key, raw, i, n + 1)[..n] == HostBlocks(key, raw, i, n);
  }

  method DecodeByte(raw: seq<Byte>, i: nat, key: Key) returns (clear: Byte)
    requires 98304 * (i + 1) <= |raw|
    ensures clear == HostByte(key, raw, i)
  {
    var partial: nat := 0;
    for block := 0 to 4
      invariant partial == Assemble(HostBlocks(key, raw, i, block))
    {
      var phase, _ := ComputePhase(raw, 4 * i + block, key);
      HostBlocksSnoc(key, raw, i, block);
      partial := partial + DecodeNarrow(phase) * Weight(block);
    }
    assert partial == HostByte(key, raw, i);
    clear := partial;
  }

  /** The decoding loop of `verify_with_host_reference`. */
  method DecodeOnHost(raw: seq<Byte>, n: nat, key: Key) returns (clears: seq<Byte>)
    requires 98304 * n <= |raw|
    ensures clears == HostBytes(key, raw, n)
  {
    clears := [];
    for i := 0 to n
      invariant clears == HostBytes(key, raw, i)
    {
      var clear := DecodeByte(raw, i, key);
      clears := clears + [clear];
    }
  }

  // ---------------------------------------------------------------- both decoders

  /** Data packets that carry exactly the bytes of `raw`. */
  ghost predicate DataPackets(data: seq<Packet>, raw: seq<Byte>) {
    && |raw| == 64 * |data|
    && forall q: nat | q < |data| :: data[q].data == raw[64 * q..64 * q + 64] && !IsDone(data[q])
  }

  lemma DataThenDone(data: seq<Packet>, raw: seq<Byte>, done: Packet)
    requires DataPackets(data, raw) && IsDone(done)
    ensures Carries(data + [done], raw) && D.FirstDone(data + [done]) == |data|
  {
    var stream := data + [done];
    forall q: nat | 64 * q + 64 <= |raw|
      ensures q < |stream| && stream[q].data == raw[64 * q..64 * q + 64]
    {
      assert stream[q] == data[q];
    }
    assert forall j | 0 <= j < |data| :: stream[j] == data[j];
    D.FirstDoneIs(stream, |data|);
  }

  lemma OperatorOutput(context: Context, key: Key, raw: seq<Byte>, n: nat, data: seq<Packet>, done: Packet)
    requires n > 0 && |raw| == 98304 * n && DataPackets(data, raw) && IsDone(done)
    requires D.ConfigError(D.ReadParams(context)) == 0 && D.ReadParams(context).inputCount == n
    requires D.KeyOf(D.ReadParams(context).key) == key
    ensures D.Output(context, data + [done]) == ByteBeats(HostBytes(key, raw, n)) + [done]
  {
    DataThenDone(data, raw, done);
    FpgaRefinesHost(key, data + [done], raw, n);
    S.CompleteStream(StreamKey(key), data + [done], HostBytes(key, raw, n));
  }

  /** The operators themselves: fed with any buffer, ciphertexts or not, and configured by the
      host's context builder, `lwe_decrypt` emits the bytes that the reference decoder of
      the host finds, packed, and then the finish packet. */
  method DecodeOnBoth(raw: seq<Byte>, n: nat, key: Key, data: seq<Packet>, done: Packet)
    returns (fpga: OutStream, clears: seq<Byte>)
    requires n > 0 && 1536 * n + 1 < TWO32 && |raw| == 98304 * n
    requires DataPackets(data, raw) && IsDone(done)
    ensures fpga.beats == ByteBeats(clears) + [done]
    ensures clears == HostBytes(key, raw, n)
  {
    clears := DecodeOnHost(raw, n, key);
    var context, page := S.PrepareDecryption(key, n);
    S.DecryptContextIsAccepted(context, page, key, n);
    OperatorOutput(context, key, raw, n, data, done);
    fpga := new OutStream();
    D.Decrypt(data + [done], fpga, context);
  }
}
