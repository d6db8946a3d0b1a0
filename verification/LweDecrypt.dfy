/** The decryption operator lwe_decrypt: a stream machine with nested counters for
    packet, PC slot, radix block and byte.
 */
module LweDecrypt {
  import opened Numbers
  import opened BitReversal
  import opened NativeLayout
  import opened Radix
  import opened Stream
  import opened Context

  const ERROR_TAG: Word := 0x4c57_4544_4543_5252

  datatype Params = Params(
    inputCount: nat,
    maskDimension: nat,
    delta: Word,
    messageWidth: nat,
    radixBlocks: nat,
    inputLayout: nat,
    key: nat -> bool)

  /** The configuration word; three of its fields have defaults. */
  function ReadParams(context: Context): (p: Params)
    ensures p.inputCount < TWO32
  {
    var delta := U64At(context, CONFIG + 8);
    var messageWidth := U32At(context, CONFIG + 16);
    var radixBlocks := U32At(context, CONFIG + 20);
    Params(
      U32At(context, CONFIG),
      U32At(context, CONFIG + 4),
      if delta == 0 then 0x0800_0000_0000_0000 else delta,
      if messageWidth == 0 then 2 else messageWidth,
      if radixBlocks == 0 then 4 else radixBlocks,
      U32At(context, CONFIG + 24),
      (i: nat) => SecretKeyBit(context, i))
  }

  function ConfigError(p: Params): (code: nat) {
    if p.maskDimension != MASK_DIMENSION then 1
    else if p.delta != 0x0800_0000_0000_0000 then 2
    else if p.messageWidth != 2 || p.radixBlocks != 4 then 3
    else if p.inputLayout != 1 then 4
    else 0
  }

  // ---------------------------------------------------------------- what is decoded

  function KeyOf(key: nat -> bool): (k: Key) {
    seq(2048, i requires 0 <= i < 2048 => key(i))
  }

  /** A word of the stream; words that never arrive read as zero. */
  function StreamWord(input: seq<Packet>, packet: nat, lane: nat): (w: Word)
    requires lane < 8
  {
    if packet < |input| then Lane(input[packet], lane) else 0
  }

  /** The native ciphertext in the 384 packets from `base` on. */
  function NativeFrom(input: seq<Packet>, base: nat): (native: Native) {
    seq(3072, j requires 0 <= j < 3072 => StreamWord(input, base + j / 8, j % 8))
  }

  ghost function DecodeNative(selected: Key, native: Native): (block: nat)
    ensures block < 4
  {
    DecodeWide(native[PC_DATA_WORDS], Wrap(Sum(StreamTerms(selected, native))))
  }

  ghost function StreamBlock(selected: Key, input: seq<Packet>, b: nat): (block: nat)
    ensures block < 4
  {
    DecodeNative(selected, NativeFrom(input, 384 * b))
  }

  /** The first `n` blocks of byte `i`. */
  ghost function StreamBlocks(selected: Key, input: seq<Packet>, i: nat, n: nat): (blocks: seq<nat>)
    ensures |blocks| == n && forall k | 0 <= k < n :: blocks[k] < 4
  {
    var blocks := seq<nat>(n, k requires 0 <= k < n => StreamBlock(selected, input, 4 * i + k));
    assert forall k | 0 <= k < n :: blocks[k] == StreamBlock(selected, input, 4 * i + k);
    blocks
  }

  ghost function StreamByte(selected: Key, input: seq<Packet>, i: nat): (clear: Byte) {
    assert Weight(4) == 256 by {
      assert Weight(2) == 16;
    }
    Assemble(StreamBlocks(selected, input, i, 4))
  }

  ghost function StreamBytes(selected: Key, input: seq<Packet>, n: nat): (clears: seq<Byte>)
    ensures |clears| == n
  {
    seq(n, i requires 0 <= i < n => StreamByte(selected, input, i))
  }

  function FirstDone(input: seq<Packet>): (k: nat)
    ensures k <= |input|
    ensures forall j | 0 <= j < k :: !IsDone(input[j])
    ensures k < |input| ==> IsDone(input[k])
  {
    if input == [] || IsDone(input[0]) then 0
    else
      var k := FirstDone(input[1..]);
      assert forall j | 0 < j < k + 1 :: input[j] == input[1..][j - 1];
      k + 1
  }

  /** Everything lwe_decrypt writes after it accepted its configuration, when the
      first finish packet has index `k` (or there is none, and `k` is the length of
      the input). Error 6 follows one packet too many, error 5 a finish packet that
      comes too early; a partly filled output packet is then lost. */
  ghost function StreamOutput(selected: Key, count: nat, input: seq<Packet>, k: nat): (beats: seq<Packet>)
    requires k <= |input|
  {
    if count != 0 && k > 1536 * count then
      FullByteBeats(StreamBytes(selected, input, count)) + [ErrorPacket(ERROR_TAG, 6)]
    else if k == |input| then
      FullByteBeats(StreamBytes(selected, input, k / 1536))
    else if (count != 0 && k / 1536 != count) || k % 1536 != 0 then
      FullByteBeats(StreamBytes(selected, input, k / 1536)) + [ErrorPacket(ERROR_TAG, 5)]
    else
      ByteBeats(StreamBytes(selected, input, k / 1536)) + [input[k]]
  }

  ghost function Output(context: Context, input: seq<Packet>): (beats: seq<Packet>) {
    var p := ReadParams(context);
    if ConfigError(p) != 0 then [ErrorPacket(ERROR_TAG, ConfigError(p))]
    else StreamOutput(StreamKey(KeyOf(p.key)), p.inputCount, input, FirstDone(input))
  }

  // ================================================================ the operator

  /** `natural_index_from_pc_offset` */
  method NaturalIndexFromPcOffset(pc: nat, pcOffset: nat) returns (natural: nat)
    requires pc < 2 && pcOffset < PC_DATA_WORDS
    ensures natural == NaturalIndex(pc, pcOffset)
  {
    var groupInPc, lane := pcOffset / 16, pcOffset % 16;
    var interleavedGroup := groupInPc * 2 + pc;
    var hpuIndex := interleavedGroup * 16 + lane;
    assert hpuIndex == Collect(Place(pc, pcOffset));
    natural := ReverseByBitStores(hpuIndex);
  }

  /** The number of mask words in the first `r` packets of a ciphertext. */
  function MaskWordsIn(r: nat): (m: nat)
    requires r <= 384
    ensures m <= MASK_DIMENSION
  {
    if r <= 128 then 8 * r
    else if r <= 192 then 1024
    else if r <= 320 then 1024 + 8 * (r - 192)
    else 2048
  }

  /** The accumulators after the first `r` packets of a ciphertext. */
  ghost predicate Accumulated(terms: seq<int>, bodyWord: Word, r: nat, dot: Word, body: Word)
    requires r <= 384 && |terms| == MASK_DIMENSION
  {
    && dot == Wrap(Sum(terms[..MaskWordsIn(r)]))
    && body == if r > 128 then bodyWord else 0
  }

  lemma DotStep(terms: seq<int>, m: nat, dot: Word)
    requires m < |terms| && dot == Wrap(Sum(terms[..m]))
    ensures Wrap(dot + terms[m]) == Wrap(Sum(terms[..m + 1]))
  {
    SumSnoc(terms, m);
    WrapSum(Sum(terms[..m]), terms[m]);
  }

  /** `selected` is the key in the order of the stream. */
  ghost predicate IsStreamKey(selected: Key, key: nat -> bool) {
    forall m: nat {:trigger StreamNatural(m)} | m < MASK_DIMENSION ::
      selected[m] == key(StreamNatural(m))
  }

  method ReadKeyBit(key: nat -> bool, pc: nat, pcOffset: nat, ghost selected: Key) returns (bit: bool)
    requires pc < 2 && pcOffset < PC_DATA_WORDS && IsStreamKey(selected, key)
    ensures bit == selected[1024 * pc + pcOffset]
  {
    var natural := NaturalIndexFromPcOffset(pc, pcOffset);
    ghost var m := 1024 * pc + pcOffset;
    assert m / 1024 == pc && m % 1024 == pcOffset;
    assert natural == StreamNatural(m);
    bit := key(natural);
  }

  /** Lane `lane` of a packet holds the word behind term `base + lane`. */
  ghost predicate LaneTerm(terms: seq<int>, selected: Key, packet: Packet, base: nat, lane: nat)
    requires lane < 8 && base + lane < MASK_DIMENSION == |terms|
  {
    terms[base + lane] == if selected[base + lane] then Lane(packet, lane) else 0
  }

  /** What a packet of mask words adds. */
  ghost predicate TermsOfPacket(terms: seq<int>, selected: Key, packet: Packet, base: nat)
    requires base + 8 <= MASK_DIMENSION == |terms|
  {
    forall lane: nat | lane < 8 :: LaneTerm(terms, selected, packet, base, lane)
  }

  /** One round of `mask_word_loop`. */
  method AddTerm(packet: Packet, lane: nat, bit: bool, dot: Word, ghost terms: seq<int>, ghost m: nat)
    returns (dot': Word)
    requires lane < 8 && m < |terms| && terms[m] == (if bit then Lane(packet, lane) else 0)
    requires dot == Wrap(Sum(terms[..m]))
    ensures dot' == Wrap(Sum(terms[..m + 1]))
  {
    DotStep(terms, m, dot);
    WrapOfWord(dot);
    dot' := if bit then Wrap(dot + Lane(packet, lane)) else dot;
  }

  /** `mask_word_loop` */
  method AddMaskWords(key: nat -> bool, packet: Packet, pc: nat, idx: nat, dot: Word,
                      ghost selected: Key, ghost terms: seq<int>) returns (dot': Word)
    requires pc < 2 && idx < 128 && |terms| == MASK_DIMENSION
    requires IsStreamKey(selected, key) && TermsOfPacket(terms, selected, packet, 1024 * pc + 8 * idx)
    requires dot == Wrap(Sum(terms[..1024 * pc + 8 * idx]))
    ensures dot' == Wrap(Sum(terms[..1024 * pc + 8 * idx + 8]))
  {
    dot' := dot;
    var lane := 0;
    while lane < 8
      invariant lane <= 8
      invariant dot' == Wrap(Sum(terms[..1024 * pc + 8 * idx + lane]))
    {
      assert LaneTerm(terms, selected, packet, 1024 * pc + 8 * idx, lane);
      var bit := ReadKeyBit(key, pc, 8 * idx + lane, selected);
      dot' := AddTerm(packet, lane, bit, dot', terms, 1024 * pc + 8 * idx + lane);
      lane := lane + 1;
    }
  }

  /** The part of the loop body that looks at the packet data. */
  method AccumulatePacket(key: nat -> bool, packet: Packet, pc: nat, idx: nat, dot: Word, body: Word,
                          ghost selected: Key, ghost terms: seq<int>, ghost bodyWord: Word)
    returns (dot': Word, body': Word)
    requires pc < 2 && idx < 192 && |terms| == MASK_DIMENSION
    requires IsStreamKey(selected, key)
    requires idx < 128 ==> TermsOfPacket(terms, selected, packet, 1024 * pc + 8 * idx)
    requires pc == 0 && idx == 128 ==> bodyWord == Lane(packet, 0)
    requires Accumulated(terms, bodyWord, 192 * pc + idx, dot, body)
    ensures Accumulated(terms, bodyWord, 192 * pc + idx + 1, dot', body')
  {
    dot', body' := dot, body;
    if idx < 128 {
      dot' := AddMaskWords(key, packet, pc, idx, dot, selected, terms);
    } else if pc == 0 && idx == 128 {
      body' := Lane(packet, 0);
    }
  }

  // ---------------------------------------------------------------- one packet

  lemma WordOfPacket(input: seq<Packet>, base: nat, pc: nat, idx: nat, lane: nat)
    requires pc < 2 && idx < 192 && lane < 8 && base + 192 * pc + idx < |input|
    ensures NativeFrom(input, base)[Position(pc, 8 * idx + lane)]
         == Lane(input[base + 192 * pc + idx], lane)
  {
    var j := Position(pc, 8 * idx + lane);
    assert j / 8 == 192 * pc + idx && j % 8 == lane;
  }

  lemma TermOfLane(selected: Key, native: Native, pc: nat, offset: nat)
    requires pc < 2 && offset < PC_DATA_WORDS
    ensures StreamTerms(selected, native)[1024 * pc + offset]
         == if selected[1024 * pc + offset] then native[Position(pc, offset)] else 0
  {
    var m := 1024 * pc + offset;
    assert m / 1024 == pc && m % 1024 == offset;
    assert StreamPosition(m) == Position(pc, offset);
  }

  lemma PacketHasItsTerms(selected: Key, input: seq<Packet>, base: nat, pc: nat, idx: nat)
    requires pc < 2 && idx < 128 && base + 192 * pc + idx < |input|
    ensures TermsOfPacket(StreamTerms(selected, NativeFrom(input, base)), selected,
                          input[base + 192 * pc + idx], 1024 * pc + 8 * idx)
  {
    var terms := StreamTerms(selected, NativeFrom(input, base));
    var packet, first := input[base + 192 * pc + idx], 1024 * pc + 8 * idx;
    forall lane: nat | lane < 8
      ensures LaneTerm(terms, selected, packet, first, lane)
    {
      TermOfLane(selected, NativeFrom(input, base), pc, 8 * idx + lane);
      WordOfPacket(input, base, pc, idx, lane);
    }
  }

  datatype Counters = Counters(processed: nat, block: nat, pc: nat, idx: nat)

  ghost predicate InRange(c: Counters) {
    c.block < 4 && c.pc < 2 && c.idx < 192
  }

  /** The number of packets the counters stand for. */
  function Total(c: Counters): nat {
    1536 * c.processed + 384 * c.block + 192 * c.pc + c.idx
  }

  /** The counters are the mixed-radix digits of the number of packets consumed. */
  lemma CountersAreDigits(c: Counters)
    requires InRange(c)
    ensures c == Counters(Total(c) / 1536, (Total(c) / 384) % 4, (Total(c) / 192) % 2, Total(c) % 192)
  {
    assert Total(c) / 192 == 8 * c.processed + 2 * c.block + c.pc;
    assert Total(c) / 384 == 4 * c.processed + c.block;
  }

  /** The accumulators of the ciphertext that starts at packet `384 * b`, after `r` of
      its packets. */
  ghost predicate InCiphertext(selected: Key, input: seq<Packet>, b: nat, r: nat, dot: Word, body: Word)
    requires r <= 384
  {
    var native := NativeFrom(input, 384 * b);
    Accumulated(StreamTerms(selected, native), native[PC_DATA_WORDS], r, dot, body)
  }

  /** What the machine should hold: the accumulators of ciphertext `b` after `r` packets, and
      the first `n` blocks of byte `i`. */
  datatype Ledger = Ledger(holds: (nat, nat, Word, Word) -> bool, partial: (nat, nat) -> int)

  ghost function LedgerOf(selected: Key, input: seq<Packet>): Ledger {
    Ledger((b: nat, r: nat, dot: Word, body: Word) => r <= 384 && InCiphertext(selected, input, b, r, dot, body),
           (i: nat, n: nat) => if n <= 4 then Assemble(StreamBlocks(selected, input, i, n)) else 0)
  }

  ghost predicate IsLedger(l: Ledger, selected: Key, input: seq<Packet>) {
    && (forall b: nat, r: nat, dot: Word, body: Word {:trigger InCiphertext(selected, input, b, r, dot, body)}
          | r <= 384 :: l.holds(b, r, dot, body) <==> InCiphertext(selected, input, b, r, dot, body))
    && (forall i: nat, n: nat {:trigger StreamBlocks(selected, input, i, n)} | n <= 4 ::
          l.partial(i, n) == Assemble(StreamBlocks(selected, input, i, n)))
  }

  lemma LedgerIsLedger(selected: Key, input: seq<Packet>)
    ensures IsLedger(LedgerOf(selected, input), selected, input)
  {
  }

  /** The machine after `k` packets: the counters stand for `k`, and the accumulators
      hold what has arrived of the current ciphertext and of the current byte. */
  ghost predicate MachineAt(l: Ledger, k: nat, c: Counters, dot: Word, body: Word, reconstructed: nat) {
    && InRange(c) && k == Total(c)
    && l.holds(4 * c.processed + c.block, 192 * c.pc + c.idx, dot, body)
    && reconstructed == l.partial(c.processed, c.block)
  }

  lemma StartOfCiphertext(l: Ledger, selected: Key, input: seq<Packet>, b: nat)
    requires IsLedger(l, selected, input)
    ensures l.holds(b, 0, 0, 0)
  {
    assert StreamTerms(selected, NativeFrom(input, 384 * b))[..0] == [];
    assert InCiphertext(selected, input, b, 0, 0, 0);
  }

  lemma StartOfByte(l: Ledger, selected: Key, input: seq<Packet>, i: nat)
    requires IsLedger(l, selected, input)
    ensures l.partial(i, 0) == 0
  {
    assert Assemble(StreamBlocks(selected, input, i, 0)) == 0;
  }

  lemma WholeByte(l: Ledger, selected: Key, input: seq<Packet>, i: nat)
    requires IsLedger(l, selected, input)
    ensures l.partial(i, 4) == StreamByte(selected, input, i)
  {
  }

  lemma EndOfCiphertext(selected: Key, input: seq<Packet>, b: nat, dot: Word, body: Word)
    requires InCiphertext(selected, input, b, 384, dot, body)
    ensures DecodeWide(body, dot) == StreamBlock(selected, input, b)
  {
    SumWhole(StreamTerms(selected, NativeFrom(input, 384 * b)));
  }

  /** The accumulators of ciphertext `b` take in its packet `192 * pc + idx`. */
  method AccumulateNext(key: nat -> bool, packet: Packet, b: nat, pc: nat, idx: nat, dot: Word, body: Word,
                        ghost input: seq<Packet>, ghost selected: Key) returns (dot': Word, body': Word)
    requires pc < 2 && idx < 192 && 384 * b + 192 * pc + idx < |input|
    requires packet == input[384 * b + 192 * pc + idx] && IsStreamKey(selected, key)
    requires InCiphertext(selected, input, b, 192 * pc + idx, dot, body)
    ensures InCiphertext(selected, input, b, 192 * pc + idx + 1, dot', body')
  {
    ghost var native := NativeFrom(input, 384 * b);
    if idx < 128 {
      PacketHasItsTerms(selected, input, 384 * b, pc, idx);
    } else if pc == 0 && idx == 128 {
      WordOfPacket(input, 384 * b, 0, 128, 0);
    }
    dot', body' := AccumulatePacket(key, packet, pc, idx, dot, body, selected,
                                    StreamTerms(selected, native), native[PC_DATA_WORDS]);
  }

  /** The same in terms of the ledger. */
  method TakeIn(key: nat -> bool, packet: Packet, b: nat, pc: nat, idx: nat, dot: Word, body: Word,
                ghost input: seq<Packet>, ghost selected: Key, ghost l: Ledger) returns (dot': Word, body': Word)
    requires pc < 2 && idx < 192 && 384 * b + 192 * pc + idx < |input|
    requires packet == input[384 * b + 192 * pc + idx] && IsStreamKey(selected, key) && IsLedger(l, selected, input)
    requires l.holds(b, 192 * pc + idx, dot, body)
    ensures l.holds(b, 192 * pc + idx + 1, dot', body')
  {
    assert InCiphertext(selected, input, b, 192 * pc + idx, dot, body);
    dot', body' := AccumulateNext(key, packet, b, pc, idx, dot, body, input, selected);
  }

  lemma BlocksSnoc(selected: Key, input: seq<Packet>, i: nat, n: nat)
    requires n < 4
    ensures Assemble(StreamBlocks(selected, input, i, n + 1))
         == Assemble(StreamBlocks(selected, input, i, n))
            + StreamBlock(selected, input, 4 * i + n) * Weight(n)
  {
    assert StreamBlocks(selected, input, i, n + 1)[..n] == StreamBlocks(selected, input, i, n);
  }

  lemma BytesSnoc(selected: Key, input: seq<Packet>, n: nat)
    ensures StreamBytes(selected, input, n + 1)
         == StreamBytes(selected, input, n) + [StreamByte(selected, input, n)]
  {
  }

  /** The end of a ciphertext: the decoded block is or-ed into the byte. */
  method FinishBlock(block: nat, dot: Word, body: Word, reconstructed: nat,
                     ghost input: seq<Packet>, ghost selected: Key, ghost i: nat, ghost l: Ledger)
    returns (reconstructed': nat)
    requires block < 4 && IsLedger(l, selected, input)
    requires l.holds(4 * i + block, 384, dot, body) && reconstructed == l.partial(i, block)
    ensures reconstructed' == l.partial(i, block + 1)
  {
    assert InCiphertext(selected, input, 4 * i + block, 384, dot, body);
    EndOfCiphertext(selected, input, 4 * i + block, dot, body);
    BlocksSnoc(selected, input, i, block);
    reconstructed' := reconstructed + DecodeWide(body, dot) * Weight(block);
  }

  /** The machine between two data packets, when the byte may just be complete. */
  ghost predicate AfterPacket(l: Ledger, k: nat, c: Counters, dot: Word, body: Word, reconstructed: nat) {
    if c.block < 4 then MachineAt(l, k, c, dot, body, reconstructed)
    else
      && c == Counters(c.processed, 4, 0, 0) && k == Total(c)
      && dot == 0 && body == 0 && reconstructed == l.partial(c.processed, 4)
  }

  /** The second PC slot is complete. */
  method CloseCiphertext(c: Counters, dot: Word, body: Word, reconstructed: nat,
                         ghost input: seq<Packet>, ghost selected: Key, ghost l: Ledger)
    returns (c': Counters, reconstructed': nat)
    requires InRange(c) && c.pc == 1 && c.idx == 0 && IsLedger(l, selected, input)
    requires l.holds(4 * c.processed + c.block, 384, dot, body)
    requires reconstructed == l.partial(c.processed, c.block)
    ensures AfterPacket(l, Total(c) + 192, c', 0, 0, reconstructed')
    ensures c'.processed == c.processed
  {
    c' := c.(pc := 0);
    reconstructed' := FinishBlock(c'.block, dot, body, reconstructed, input, selected, c'.processed, l);
    c' := c'.(block := c'.block + 1);
    StartOfCiphertext(l, selected, input, 4 * c'.processed + c'.block);
  }

  /** The counters and accumulators after one more data packet: the rest of the loop
      body up to the output of a complete byte. */
  method Step(key: nat -> bool, packet: Packet, c: Counters, dot: Word, body: Word, reconstructed: nat,
              ghost input: seq<Packet>, ghost selected: Key, ghost l: Ledger)
    returns (c': Counters, dot': Word, body': Word, reconstructed': nat)
    requires Total(c) < |input| && packet == input[Total(c)] && IsStreamKey(selected, key)
    requires IsLedger(l, selected, input) && MachineAt(l, Total(c), c, dot, body, reconstructed)
    ensures AfterPacket(l, Total(c) + 1, c', dot', body', reconstructed')
    ensures c'.processed == c.processed
  {
    dot', body' := TakeIn(key, packet, 4 * c.processed + c.block, c.pc, c.idx, dot, body, input, selected, l);
    c', reconstructed' := c.(idx := c.idx + 1), reconstructed;
    if c'.idx == 192 {
      c' := c'.(idx := 0);
      if c'.pc == 0 {
        c' := c'.(pc := 1);
      } else {
        c', reconstructed' := CloseCiphertext(c', dot', body', reconstructed', input, selected, l);
        dot', body' := 0, 0;
      }
    }
  }

  /** Output of a complete byte. */
  method EmitByte(packer: BytePacker, c: Counters, reconstructed: nat, ghost dot: Word, ghost body: Word,
                  ghost input: seq<Packet>, ghost selected: Key, ghost k: nat, ghost l: Ledger)
    returns (c': Counters, reconstructed': nat)
    requires IsLedger(l, selected, input) && AfterPacket(l, k, c, dot, body, reconstructed)
    requires packer.Valid() && packer.bytes == StreamBytes(selected, input, c.processed)
    modifies packer, packer.out
    ensures MachineAt(l, k, c', dot, body, reconstructed')
    ensures packer.Valid() && packer.bytes == StreamBytes(selected, input, c'.processed)
  {
    c', reconstructed' := c, reconstructed;
    if c.block == 4 {
      WholeByte(l, selected, input, c.processed);
      BytesSnoc(selected, input, c.processed);
      packer.WriteByte(reconstructed);
      StartOfCiphertext(l, selected, input, 4 * c.processed + 4);
      StartOfByte(l, selected, input, c.processed + 1);
      reconstructed' := 0;
      c' := c.(block := 0, processed := c.processed + 1);
    }
  }

  lemma FirstDoneIs(input: seq<Packet>, k: nat)
    requires k < |input| && IsDone(input[k]) && forall j | 0 <= j < k :: !IsDone(input[j])
    ensures FirstDone(input) == k
  {
  }

  lemma NoDoneBefore(input: seq<Packet>, k: nat)
    requires k <= |input| && forall j | 0 <= j < k :: !IsDone(input[j])
    ensures FirstDone(input) >= k
  {
  }

  lemma CompleteOutput(selected: Key, count: nat, input: seq<Packet>, c: Counters)
    requires Total(c) < |input| && c.block == c.pc == c.idx == 0 && (count == 0 || c.processed == count)
    ensures StreamOutput(selected, count, input, Total(c))
         == ByteBeats(StreamBytes(selected, input, c.processed)) + [input[Total(c)]]
  {
    CountersAreDigits(c);
  }

  lemma EarlyOutput(selected: Key, count: nat, input: seq<Packet>, c: Counters)
    requires Total(c) < |input| && InRange(c) && (count != 0 ==> Total(c) <= 1536 * count)
    requires (count != 0 && c.processed != count) || c.block != 0 || c.pc != 0 || c.idx != 0
    ensures StreamOutput(selected, count, input, Total(c))
         == FullByteBeats(StreamBytes(selected, input, c.processed)) + [ErrorPacket(ERROR_TAG, 5)]
  {
    CountersAreDigits(c);
    assert Total(c) % 1536 == 384 * c.block + 192 * c.pc + c.idx;
  }

  lemma LateOutput(selected: Key, count: nat, input: seq<Packet>, c: Counters)
    requires Total(c) < |input| && InRange(c) && count != 0 && Total(c) <= 1536 * count && c.processed >= count
    requires forall j | 0 <= j <= Total(c) :: !IsDone(input[j])
    ensures StreamOutput(selected, count, input, FirstDone(input))
         == FullByteBeats(StreamBytes(selected, input, c.processed)) + [ErrorPacket(ERROR_TAG, 6)]
  {
    LastByteIsComplete(c, count);
    NoDoneBefore(input, Total(c) + 1);
  }

  lemma LastByteIsComplete(c: Counters, count: nat)
    requires InRange(c) && Total(c) <= 1536 * count && c.processed >= count
    ensures c.processed == count && Total(c) == 1536 * count
  {
  }

  /** The input ended without a finish packet: the operator waits. */
  lemma RunOut(selected: Key, count: nat, input: seq<Packet>, c: Counters)
    requires InRange(c) && |input| == Total(c) && forall j | 0 <= j < |input| :: !IsDone(input[j])
    requires count != 0 ==> |input| <= 1536 * count
    ensures StreamOutput(selected, count, input, FirstDone(input))
         == FullByteBeats(StreamBytes(selected, input, c.processed))
  {
    NoDoneBefore(input, |input|);
    CountersAreDigits(c);
  }

  /** An error packet behind the complete output packets; a partly filled one is lost. */
  method EmitError(out: OutStream, packer: BytePacker, code: nat)
    requires packer.out == out && packer.Valid() && code < TWO32
    modifies out
    ensures out.beats == packer.base + (FullByteBeats(packer.bytes) + [ErrorPacket(ERROR_TAG, code)])
  {
    out.Write(ErrorPacket(ERROR_TAG, code));
    Assoc(packer.base, FullByteBeats(packer.bytes), [ErrorPacket(ERROR_TAG, code)]);
  }

  /** The finish packet behind all output packets. */
  method EmitFinish(out: OutStream, packer: BytePacker, done: Packet)
    requires packer.out == out && packer.Valid()
    modifies packer, out
    ensures out.beats == packer.base + (ByteBeats(old(packer.bytes)) + [done])
  {
    packer.Flush();
    out.Write(done);
    Assoc(packer.base, ByteBeats(packer.bytes), [done]);
  }

  /** The reaction to a finish packet. */
  method FinishTask(out: OutStream, packer: BytePacker, count: nat, input: seq<Packet>, c: Counters,
                    ghost selected: Key)
    requires packer.out == out && packer.Valid() && InRange(c) && Total(c) < |input|
    requires packer.bytes == StreamBytes(selected, input, c.processed)
    requires count != 0 ==> Total(c) <= 1536 * count
    modifies packer, out
    ensures out.beats == packer.base + StreamOutput(selected, count, input, Total(c))
  {
    if (count != 0 && c.processed != count) || c.block != 0 || c.pc != 0 || c.idx != 0 {
      EarlyOutput(selected, count, input, c);
      EmitError(out, packer, 5);
    } else {
      CompleteOutput(selected, count, input, c);
      EmitFinish(out, packer, input[Total(c)]);
    }
  }

  /** The reaction to a data packet after all requested bytes were decoded. */
  method RejectPacket(out: OutStream, packer: BytePacker, count: nat, input: seq<Packet>, c: Counters,
                      ghost selected: Key)
    requires packer.out == out && packer.Valid() && InRange(c) && Total(c) < |input|
    requires packer.bytes == StreamBytes(selected, input, c.processed)
    requires count != 0 && Total(c) <= 1536 * count && c.processed >= count
    requires forall j | 0 <= j <= Total(c) :: !IsDone(input[j])
    modifies out
    ensures out.beats == packer.base + StreamOutput(selected, count, input, FirstDone(input))
  {
    LateOutput(selected, count, input, c);
    EmitError(out, packer, 6);
  }

  /** One data packet. */
  method ConsumePacket(packer: BytePacker, key: nat -> bool, packet: Packet, c: Counters, dot: Word, body: Word,
                       reconstructed: nat, ghost input: seq<Packet>, ghost selected: Key, ghost l: Ledger)
    returns (c': Counters, dot': Word, body': Word, reconstructed': nat)
    requires Total(c) < |input| && packet == input[Total(c)] && IsStreamKey(selected, key)
    requires IsLedger(l, selected, input) && MachineAt(l, Total(c), c, dot, body, reconstructed)
    requires packer.Valid() && packer.bytes == StreamBytes(selected, input, c.processed)
    modifies packer, packer.out
    ensures MachineAt(l, Total(c) + 1, c', dot', body', reconstructed')
    ensures packer.Valid() && packer.bytes == StreamBytes(selected, input, c'.processed)
  {
    c', dot', body', reconstructed' := Step(key, packet, c, dot, body, reconstructed, input, selected, l);
    c', reconstructed' := EmitByte(packer, c', reconstructed', dot', body', input, selected, Total(c) + 1, l);
  }

  /** Where the stream loop stops reading data: at the finish packet, at a packet too many, or
      at the end of what arrived. */
  ghost predicate StopsAt(count: nat, input: seq<Packet>, c: Counters) {
    && InRange(c) && Total(c) <= |input|
    && (forall j | 0 <= j < Total(c) :: !IsDone(input[j]))
    && (count != 0 ==> Total(c) <= 1536 * count)
    && (Total(c) < |input| ==> IsDone(input[Total(c)]) || (count != 0 && c.processed >= count))
  }

  /** The rounds of `decrypt_stream_loop` that consume data packets. */
  method ConsumeData(packer: BytePacker, key: nat -> bool, count: nat, input: seq<Packet>,
                     ghost selected: Key, ghost l: Ledger) returns (c: Counters)
    requires IsStreamKey(selected, key) && IsLedger(l, selected, input) && l.holds(0, 0, 0, 0) && l.partial(0, 0) == 0
    requires packer.Valid() && packer.bytes == StreamBytes(selected, input, 0)
    modifies packer, packer.out
    ensures StopsAt(count, input, c)
    ensures packer.Valid() && packer.bytes == StreamBytes(selected, input, c.processed)
  {
    c := Counters(0, 0, 0, 0);
    var dot: Word, body: Word, reconstructed: nat := 0, 0, 0;
    var streamIndex: nat := 0;
    while streamIndex < |input| && !IsDone(input[streamIndex]) && !(count != 0 && c.processed >= count)
      invariant streamIndex <= |input| && packer.Valid()
      invariant forall j | 0 <= j < streamIndex :: !IsDone(input[j])
      invariant count != 0 ==> streamIndex <= 1536 * count
      invariant MachineAt(l, streamIndex, c, dot, body, reconstructed)
      invariant packer.bytes == StreamBytes(selected, input, c.processed)
    {
      c, dot, body, reconstructed :=
        ConsumePacket(packer, key, input[streamIndex], c, dot, body, reconstructed, input, selected, l);
      streamIndex := streamIndex + 1;
    }
  }

  /** What follows the data: `decrypt_stream_loop` returns, or waits for more. */
  method EndStream(out: OutStream, packer: BytePacker, count: nat, input: seq<Packet>, c: Counters, ghost selected: Key)
    requires packer.out == out && packer.Valid() && StopsAt(count, input, c)
    requires packer.bytes == StreamBytes(selected, input, c.processed)
    modifies packer, out
    ensures out.beats == packer.base + StreamOutput(selected, count, input, FirstDone(input))
  {
    if Total(c) == |input| {
      RunOut(selected, count, input, c);
    } else if IsDone(input[Total(c)]) {
      FirstDoneIs(input, Total(c));
      FinishTask(out, packer, count, input, c, selected);
    } else {
      RejectPacket(out, packer, count, input, c, selected);
    }
  }

  /** `decrypt_stream_loop` */
  method DecryptStream(out: OutStream, key: nat -> bool, count: nat, input: seq<Packet>, ghost selected: Key)
    requires IsStreamKey(selected, key) && |input| < TWO32
    modifies out
    ensures out.beats == old(out.beats) + StreamOutput(selected, count, input, FirstDone(input))
  {
    ghost var l := LedgerOf(selected, input);
    LedgerIsLedger(selected, input);
    StartOfCiphertext(l, selected, input, 0);
    StartOfByte(l, selected, input, 0);
    var packer := new BytePacker(out);
    var c := ConsumeData(packer, key, count, input, selected, l);
    EndStream(out, packer, count, input, c, selected);
  }

  /** `lwe_decrypt`: the input holds every packet that arrives, and the task ends
      within the first 2^32 - 1 of them. */
  method Decrypt(input: seq<Packet>, out: OutStream, context: Context)
    requires |input| < TWO32
    modifies out
    ensures out.beats == old(out.beats) + Output(context, input)
  {
    var p := ReadParams(context);
    if p.maskDimension != MASK_DIMENSION {
      out.Write(ErrorPacket(ERROR_TAG, 1));
    } else if p.delta != 0x0800_0000_0000_0000 {
      out.Write(ErrorPacket(ERROR_TAG, 2));
    } else if p.messageWidth != 2 || p.radixBlocks != 4 {
      out.Write(ErrorPacket(ERROR_TAG, 3));
    } else if p.inputLayout != 1 {
      out.Write(ErrorPacket(ERROR_TAG, 4));
    } else {
      DecryptStream(out, p.key, p.inputCount, input, StreamKey(KeyOf(p.key)));
    }
  }
}
