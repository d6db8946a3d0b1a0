/** How the two operators frame their output streams: payload packets, then exactly one
    terminator. All input modes, with and without a count.
 */
module Framing {
  import opened Numbers
  import opened NativeLayout
  import opened Stream
  import opened Context
  import E = LweEncrypt
  import D = LweDecrypt

  /** A packet in the middle of a task: TUSER = 0, TLAST = 0. */
  ghost predicate IsPlain(p: Packet) {
    p.user == 0 && !p.last && p.id == 0 && p.dest == 0 && p.strb == p.keep
  }

  ghost predicate IsPayload(beats: seq<Packet>) {
    forall i | 0 <= i < |beats| :: IsPlain(beats[i])
  }

  /** Payload in which all byte lanes are valid. */
  ghost predicate IsFullPayload(beats: seq<Packet>) {
    IsPayload(beats) && forall i, lane | 0 <= i < |beats| && 0 <= lane < 64 :: beats[i].keep[lane]
  }

  // ---------------------------------------------------------------- terminators

  /** A terminator that an operator makes itself: TUSER = 0xff, TLAST = 1, all lanes valid. */
  ghost predicate IsOwnTerminator(p: Packet) {
    && p.user == 255 && p.last && p.id == 0 && p.dest == 0 && p.strb == p.keep
    && forall lane | 0 <= lane < 64 :: p.keep[lane]
  }

  /** An error packet carries the tag in its first word and the code in the next 32 bits. */
  lemma ErrorLayout(tag: Word, code: nat)
    requires code < TWO32
    ensures var p := ErrorPacket(tag, code);
            && Lane(p, 0) == tag && U32At(p.data, 8) == code
            && (forall i | 12 <= i < 64 :: p.data[i] == 0)
            && IsOwnTerminator(p)
  {
    var p := ErrorPacket(tag, code);
    forall i: nat | i < 8
      ensures p.data[0..8][i] == WordBytes(tag)[i]
    {
      LeByteIsShift(tag, 8, i);
    }
    assert p.data[0..8] == WordBytes(tag);
    forall i: nat | i < 4
      ensures p.data[8..12][i] == ToLE(code, 4)[i]
    {
      LeByteIsShift(code, 4, i);
    }
    assert p.data[8..12] == ToLE(code, 4);
    Pow256Of8();
    LeDecodesEncoding(code, 4);
  }

  /** No two error packets agree unless tag and code do. */
  lemma ErrorsDiffer(tag: Word, code: nat, tag': Word, code': nat)
    requires code < TWO32 && code' < TWO32 && ErrorPacket(tag, code) == ErrorPacket(tag', code')
    ensures tag == tag' && code == code'
  {
    ErrorLayout(tag, code);
    ErrorLayout(tag', code');
  }

  // ---------------------------------------------------------------- configurations

  /** Which configurations `lwe_encrypt` accepts, by the offsets of the context. */
  lemma EncryptAccepts(context: Context)
    ensures var dimension, mode, noise, layout :=
              U32At(context, 192), U32At(context, 200), U32At(context, 204), U32At(context, 212);
            E.ConfigError(E.ReadParams(context)) == 0 <==>
              && 0 < dimension <= 4096 && layout <= 1
              && (mode == 2 ==> dimension == 2048 && noise != 1) && (layout == 1 ==> mode == 2)
  {
  }

  /** A refused configuration is answered by one error packet, whatever the input is, and the
      code names the first check that fails. */
  lemma EncryptRefuses(context: Context, input: seq<Packet>) returns (code: nat)
    requires E.ConfigError(E.ReadParams(context)) != 0
    ensures E.Output(context, input) == [ErrorPacket(0x4c57_4545_5252_4f52, code)]
    ensures var dimension, mode, noise, layout :=
              U32At(context, 192), U32At(context, 200), U32At(context, 204), U32At(context, 212);
            && (code == 1 <==> dimension == 0 || dimension > 4096)
            && (code == 2 <==> mode == 2 && 0 < dimension <= 4096 && dimension != 2048)
            && (code == 3 <==> mode == 2 && dimension == 2048 && noise == 1)
            && (code == 5 <==> layout > 1 && 0 < dimension <= 4096 && (mode == 2 ==> dimension == 2048 && noise != 1))
            && (code == 6 <==> layout == 1 && 0 < dimension <= 4096 && mode != 2)
  {
    code := E.ConfigError(E.ReadParams(context));
  }

  /** Which configurations `lwe_decrypt` accepts: three fields may be left zero. */
  lemma DecryptAccepts(context: Context)
    ensures D.ConfigError(D.ReadParams(context)) == 0 <==>
              && U32At(context, 196) == 2048 && U32At(context, 216) == 1
              && (U64At(context, 200) == 0 || U64At(context, 200) == 0x0800_0000_0000_0000)
              && (U32At(context, 208) == 0 || U32At(context, 208) == 2)
              && (U32At(context, 212) == 0 || U32At(context, 212) == 4)
  {
  }

  lemma DecryptRefuses(context: Context, input: seq<Packet>) returns (code: nat)
    requires D.ConfigError(D.ReadParams(context)) != 0
    ensures D.Output(context, input) == [ErrorPacket(0x4c57_4544_4543_5252, code)]
    ensures var dimension, delta, width, blocks, layout := U32At(context, 196), U64At(context, 200),
              U32At(context, 208), U32At(context, 212), U32At(context, 216);
            var deltaIsFine := delta == 0 || delta == 0x0800_0000_0000_0000;
            var radixIsFine := (width == 0 || width == 2) && (blocks == 0 || blocks == 4);
            && (code == 1 <==> dimension != 2048)
            && (code == 2 <==> dimension == 2048 && !deltaIsFine)
            && (code == 3 <==> dimension == 2048 && deltaIsFine && !radixIsFine)
            && (code == 4 <==> dimension == 2048 && deltaIsFine && radixIsFine && layout != 1)
  {
    code := D.ConfigError(D.ReadParams(context));
  }

  // ---------------------------------------------------------------- decryption

  lemma ByteBeatsArePayload(bs: seq<Byte>)
    ensures IsFullPayload(FullByteBeats(bs)) && IsPayload(ByteBeats(bs))
  {
  }

  /** The beats that are already full carry a prefix of the bytes. */
  lemma FullByteBeatsCarry(bs: seq<Byte>)
    ensures ValidBytes(FullByteBeats(bs)) == bs[..|bs| - |bs| % 64]
  {
    var whole := bs[..|bs| - |bs| % 64];
    forall k | 0 <= k < |whole| / 64
      ensures whole[64 * k..64 * k + 64] == bs[64 * k..64 * k + 64]
    {
    }
    assert FullByteBeats(bs) == ByteBeats(whole);
    ByteBeatsCarryBytes(whole);
  }

  /** What both kinds of byte beats carry. */
  lemma CarriedBytes(bs: seq<Byte>, full: seq<Packet>, all: seq<Packet>)
    requires full == FullByteBeats(bs) && all == ByteBeats(bs)
    ensures IsFullPayload(full) && ValidBytes(full) == bs[..|bs| - |bs| % 64]
    ensures IsPayload(all) && ValidBytes(all) == bs
  {
    ByteBeatsArePayload(bs);
    FullByteBeatsCarry(bs);
    ByteBeatsCarryBytes(bs);
  }

  /** The three ways in which a task of `lwe_decrypt` ends at the finish packet with index `k`. */
  lemma DecryptEnds(selected: Key, count: nat, input: seq<Packet>, k: nat, bytes: seq<Byte>)
    requires k < |input|
    requires bytes == D.StreamBytes(selected, input, if count != 0 && k > 1536 * count then count else k / 1536)
    ensures D.StreamOutput(selected, count, input, k) ==
            if count != 0 && k > 1536 * count then FullByteBeats(bytes) + [ErrorPacket(0x4c57_4544_4543_5252, 6)]
            else if (if count == 0 then k % 1536 == 0 else k == 1536 * count) then ByteBeats(bytes) + [input[k]]
            else FullByteBeats(bytes) + [ErrorPacket(0x4c57_4544_4543_5252, 5)]
  {
    if count != 0 {
      WholeBytes(k, count);
    }
  }

  lemma WholeBytes(k: nat, count: nat)
    ensures k == 1536 * count <==> k / 1536 == count && k % 1536 == 0
  {
  }

  /** The finish packet with index `k` is forwarded exactly if the packets before it are whole
      bytes, and `N` of them if there is a count `N`. Error 5 means too few packets and error 6
      too many; the bytes of an output packet that was not full are then lost. */
  lemma DecryptFraming(selected: Key, count: nat, input: seq<Packet>) returns (payload: seq<Packet>, terminator: Packet)
    requires D.FirstDone(input) < |input|
    ensures D.StreamOutput(selected, count, input, D.FirstDone(input)) == payload + [terminator]
    ensures IsPayload(payload) && IsDone(terminator)
    ensures var k := D.FirstDone(input);
            var good := if count == 0 then k % 1536 == 0 else k == 1536 * count;
            var many := count != 0 && k > 1536 * count;
            var bytes := D.StreamBytes(selected, input, if many then count else k / 1536);
            && (good ==> terminator == input[k] && ValidBytes(payload) == bytes)
            && (many ==> terminator == ErrorPacket(0x4c57_4544_4543_5252, 6))
            && (!good && !many ==> terminator == ErrorPacket(0x4c57_4544_4543_5252, 5))
            && (!good ==> IsFullPayload(payload) && ValidBytes(payload) == bytes[..|bytes| - |bytes| % 64])
  {
    var k := D.FirstDone(input);
    var many := count != 0 && k > 1536 * count;
    var bytes := D.StreamBytes(selected, input, if many then count else k / 1536);
    var full, all := FullByteBeats(bytes), ByteBeats(bytes);
    DecryptEnds(selected, count, input, k, bytes);
    CarriedBytes(bytes, full, all);
    if many {
      payload, terminator := full, ErrorPacket(D.ERROR_TAG, 6);
    } else if (if count == 0 then k % 1536 == 0 else k == 1536 * count) {
      payload, terminator := all, input[k];
    } else {
      payload, terminator := full, ErrorPacket(D.ERROR_TAG, 5);
    }
  }

  // ---------------------------------------------------------------- encryption

  lemma WordBeatsArePayload(ws: seq<Word>)
    ensures IsFullPayload(FullBeats(ws)) && IsFullPayload(Beats(ws)) && |Beats(ws)| == (|ws| + 7) / 8
  {
  }

  /** 384 beats for a native ciphertext, 257 for a CPU one. */
  lemma BlockFraming(p: E.Params, clear: Byte, index: nat, k: nat)
    requires k < 4
    ensures IsFullPayload(E.BlockBeats(p, clear, index, k))
    ensures |E.BlockBeats(p, clear, index, k)| == if p.outputLayout == 1 then 384 else 257
  {
    var logical := E.BlockCiphertext(p, clear, index, k);
    WordBeatsArePayload(logical);
    WordBeatsArePayload(Slot(logical, 0));
    WordBeatsArePayload(Slot(logical, 1));
  }

  lemma {:induction false} JoinedFraming(piece: nat -> seq<Packet>, size: nat, n: nat)
    requires forall k: nat | k < n :: |piece(k)| == size && IsFullPayload(piece(k))
    ensures |E.Joined(piece, n)| == size * n && IsFullPayload(E.Joined(piece, n))
  {
    if n > 0 {
      JoinedFraming(piece, size, n - 1);
      Distribute(size, n - 1);
    }
  }

  lemma BlocksFraming(p: E.Params, clear: Byte, index: nat)
    ensures IsFullPayload(E.BlocksBeats(p, clear, index))
    ensures |E.BlocksBeats(p, clear, index)| == if p.outputLayout == 1 then 1536 else 1028
  {
    var piece := E.BlockPieces(p, clear, index);
    var size := if p.outputLayout == 1 then 384 else 257;
    forall k: nat | k < 4
      ensures |piece(k)| == size && IsFullPayload(piece(k))
    {
      BlockFraming(p, clear, index, k);
    }
    JoinedFraming(piece, size, 4);
  }

  lemma SingleFraming(p: E.Params, packet: Packet, index: nat)
    ensures IsFullPayload(E.SingleBeats(p, packet, index))
    ensures |E.SingleBeats(p, packet, index)| == (p.maskDimension + 8) / 8
  {
    WordBeatsArePayload(E.Ciphertext(p, p.generator.seed(index), p.maskDimension, E.EncodedInput(p, packet),
                                     Lane(packet, 1)));
  }

  lemma Distribute(size: nat, n: nat)
    ensures size * n + size == size * (n + 1)
  {
  }

  lemma {:induction false} EmittedFraming<T>(emit: (T, nat) -> seq<Packet>, size: nat, items: seq<T>)
    requires forall x: T, j: nat :: |emit(x, j)| == size && IsFullPayload(emit(x, j))
    ensures |E.Emitted(emit, items)| == size * |items| && IsFullPayload(E.Emitted(emit, items))
  {
    if items != [] {
      var n := |items| - 1;
      EmittedFraming(emit, size, items[..n]);
      assert |emit(items[n], n % 0x1_0000_0000)| == size;
      Distribute(size, n);
    }
  }

  /** Beats for each plaintext byte in u8 radix mode, or for each plaintext packet: one
      ciphertext has a word more than its mask. */
  function BeatsPerItem(p: E.Params): nat {
    if p.inputMode != 2 then (p.maskDimension + 8) / 8
    else if p.outputLayout == 1 then 1536 else 1028
  }

  /** The plaintext bytes or packets that the task offers. */
  ghost function Offered(p: E.Params, data: seq<Packet>): nat {
    if p.inputMode == 2 then |ValidBytes(data)| else |data|
  }

  /** Full beats for `n` items. */
  ghost predicate Framed(beats: seq<Packet>, size: nat, n: nat) {
    |beats| == size * n && IsFullPayload(beats)
  }

  lemma BytesFraming(p: E.Params, clears: seq<Byte>)
    requires p.inputMode == 2
    ensures Framed(E.Emitted(E.EmitterOf(p).byte, clears), BeatsPerItem(p), |clears|)
  {
    var emit := E.EmitterOf(p).byte;
    forall x: Byte, j: nat
      ensures |emit(x, j)| == BeatsPerItem(p) && IsFullPayload(emit(x, j))
    {
      BlocksFraming(p, x, j);
    }
    EmittedFraming(emit, BeatsPerItem(p), clears);
  }

  lemma PacketsFraming(p: E.Params, data: seq<Packet>)
    requires p.inputMode != 2
    ensures Framed(E.Emitted(E.EmitterOf(p).single, data), BeatsPerItem(p), |data|)
  {
    var emit := E.EmitterOf(p).single;
    forall x: Packet, j: nat
      ensures |emit(x, j)| == BeatsPerItem(p) && IsFullPayload(emit(x, j))
    {
      SingleFraming(p, x, j);
    }
    EmittedFraming(emit, BeatsPerItem(p), data);
  }

  lemma PayloadFraming(p: E.Params, data: seq<Packet>)
    ensures Framed(E.PayloadOf(p, E.EmitterOf(p), data), BeatsPerItem(p), E.ProcessedCount(p, data))
  {
    if p.inputMode == 2 {
      BytesFraming(p, E.Take(ValidBytes(data), p.inputCount));
    } else {
      PacketsFraming(p, E.Take(data, p.inputCount));
    }
  }

  lemma ProcessedIs(p: E.Params, data: seq<Packet>)
    ensures var offered := Offered(p, data);
            E.ProcessedCount(p, data) ==
            if p.inputCount == 0 || offered < p.inputCount then offered else p.inputCount
  {
  }

  lemma OutputAtLast(p: E.Params, e: E.Emitter, input: seq<Packet>, k: nat)
    requires k < |input| && E.EndOfTask(p, input) == k && !IsDone(input[k])
    ensures E.StreamOutput(p, e, input) == E.PayloadOf(p, e, input[..k + 1]) + [Terminator(Zeros(64))]
  {
    assert E.EndOfTask(p, input) != |input|;
  }

  lemma OutputAtFinish(p: E.Params, e: E.Emitter, input: seq<Packet>, k: nat, terminator: Packet)
    requires k < |input| && E.EndOfTask(p, input) == k && IsDone(input[k])
    requires terminator == if E.ProcessedCount(p, input[..k]) < p.inputCount then ErrorPacket(E.ERROR_TAG, 4)
                           else input[k]
    ensures E.StreamOutput(p, e, input) == E.PayloadOf(p, e, input[..k]) + [terminator]
  {
  }

  /** What ends a task: a finish packet, or TLAST when there is no count. */
  predicate EndsTask(count: nat, p: Packet) {
    p.user / 16 % 16 != 0 || (count == 0 && p.last)
  }

  /** In every mode: what is offered before the end of the task, up to the count, is encrypted
      with a fixed number of full beats for each item, and one terminator follows. A finish
      packet is forwarded unless fewer than `N` items preceded it, which is error 4. Without a
      count TLAST ends the task too; its packet is plaintext, and the operator makes a
      finish packet of zeros. */
  lemma EncryptFraming(p: E.Params, input: seq<Packet>, k: nat) returns (payload: seq<Packet>, terminator: Packet)
    requires k < |input| && EndsTask(p.inputCount, input[k])
    requires forall j | 0 <= j < k :: !EndsTask(p.inputCount, input[j])
    ensures E.StreamOutput(p, E.EmitterOf(p), input) == payload + [terminator]
    ensures IsDone(terminator)
    ensures var finish := IsDone(input[k]);
            var offered := Offered(p, input[..if finish then k else k + 1]);
            var enough := p.inputCount <= offered;
            && Framed(payload, BeatsPerItem(p), if p.inputCount == 0 || !enough then offered else p.inputCount)
            && (finish && !enough ==> terminator == ErrorPacket(0x4c57_4545_5252_4f52, 4))
            && (finish && enough ==> terminator == input[k])
            && (!finish ==> terminator.data == Zeros(64) && IsOwnTerminator(terminator))
  {
    E.EndIs(p, input, k);
    var data := input[..if IsDone(input[k]) then k else k + 1];
    ProcessedIs(p, data);
    PayloadFraming(p, data);
    payload := E.PayloadOf(p, E.EmitterOf(p), data);
    if IsDone(input[k]) {
      terminator := if Offered(p, data) < p.inputCount then ErrorPacket(E.ERROR_TAG, 4) else input[k];
      OutputAtFinish(p, E.EmitterOf(p), input, k, terminator);
    } else {
      terminator := Terminator(Zeros(64));
      OutputAtLast(p, E.EmitterOf(p), input, k);
    }
  }
}
