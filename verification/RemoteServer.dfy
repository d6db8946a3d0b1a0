/** The request handler of the remote HPU server. The HPU itself is a parameter: a function
    from one item and the scalar to one item.
 */
module RemoteServer {
  import opened Numbers
  import opened BatchMetadata
  import opened RemoteProtocol
  import opened Bridge

  datatype Hpu = Hpu(
    addCpu: (seq<Word>, Byte) -> seq<Word>,
    addNative: (seq<Block>, Byte) -> seq<Block>,
    addNativeToCpu: (seq<Block>, Byte) -> seq<Word>)

  datatype Server = Server(lweDimension: Word, messageWidth: nat, carryWidth: nat, geometry: Geometry, hpu: Hpu)

  predicate Configured(server: Server) {
    0 < server.messageWidth <= 8
  }

  /** `bridge::validate_metadata`; the subtraction wraps as in a release build. */
  predicate MetadataFits(m: Metadata, server: Server)
    requires Configured(server)
  {
    && Valid(m) && m.maskDimension == server.lweDimension
    && m.messageWidth == server.messageWidth && m.carryWidth == server.carryWidth
    && m.radixBlocks == 8 / server.messageWidth
    && m.deltaLog2 == Wrap(64 - server.messageWidth - server.carryWidth - m.paddingWidth)
  }

  predicate RequestFits(f: Frame, server: Server)
    requires Configured(server)
  {
    && f.kind == REQUEST && f.status == 0 && f.operation <= OP_ADD_ROUNDTRIP && f.scalar <= 255
    && MetadataFits(f.metadata, server)
  }

  lemma QuotientIs(q: nat, width: nat)
    requires width > 0
    ensures q == 8 / width <==> q * width <= 8 < (q + 1) * width
  {
    var d := 8 / width;
    assert 8 == width * d + 8 % width;
    if q < d {
      MulGap(width, q, d);
    } else if q > d {
      MulGap(width, d, q);
    }
  }

  lemma DifferenceIs(delta: Word, a: int)
    ensures delta == Wrap(64 - a) <==> Wrap(delta + a) == 64
  {
    WrapSum(64 - a, a);
    WrapSum(delta + a, -a);
    WrapOfWord(delta);
  }

  /** The metadata checks in arithmetic: a byte is split into as many blocks as fit, and delta
      leaves exactly the message, carry and padding bits above it. The sum wraps only with a
      delta beyond 64 bits. */
  lemma MetadataIsArithmetic(m: Metadata, server: Server)
    requires Configured(server)
    ensures MetadataFits(m, server) <==>
              && m.maskDimension == server.lweDimension > 0 && m.itemCount > 0
              && m.messageWidth == server.messageWidth && m.carryWidth == server.carryWidth
              && m.radixBlocks * m.messageWidth <= 8 < (m.radixBlocks + 1) * m.messageWidth
              && Wrap(m.deltaLog2 + m.messageWidth + m.carryWidth + m.paddingWidth) == 64
              && (m.wordCount == Blocks(m) * (m.maskDimension + 1) || m.wordCount == Blocks(m) * 3072)
  {
    if m.messageWidth == server.messageWidth && m.carryWidth == server.carryWidth {
      QuotientIs(m.radixBlocks, m.messageWidth);
      DifferenceIs(m.deltaLog2, m.messageWidth + m.carryWidth + m.paddingWidth);
      NativeWordsAreExact(m);
      if NonEmpty(m) {
        CpuWordsAreExact(m);
      }
    }
  }

  /** With all numbers below 2^62 the sum is plain. */
  lemma DeltaIsWhatRemains(m: Metadata, server: Server)
    requires Configured(server) && MetadataFits(m, server)
    requires m.deltaLog2 < 64 && m.carryWidth < 64 && m.paddingWidth < 64
    ensures m.deltaLog2 + m.messageWidth + m.carryWidth + m.paddingWidth == 64
  {
    MetadataIsArithmetic(m, server);
    WrapOfWord(m.deltaLog2 + m.messageWidth + m.carryWidth + m.paddingWidth);
  }

  /** The request checks in numbers. */
  lemma RequestIsArithmetic(f: Frame, server: Server)
    requires Configured(server)
    ensures RequestFits(f, server) <==>
            f.kind == 1 && f.status == 0 && f.operation < 4 && f.scalar < 256 && MetadataFits(f.metadata, server)
  {
  }

  datatype Processed = Processed(metadata: Metadata, words: seq<Word>)

  // ---------------------------------------------------------------- outputs

  /** `outputs[i]` is the HPU's result for `inputs[i]`. */
  ghost predicate Computed<A, B>(inputs: seq<A>, outputs: seq<B>, scalar: Byte, add: (A, Byte) -> B) {
    |outputs| == |inputs| && forall i | 0 <= i < |inputs| :: outputs[i] == add(inputs[i], scalar)
  }

  method AddItems<A, B>(inputs: seq<A>, scalar: Byte, add: (A, Byte) -> B) returns (outputs: seq<B>)
    ensures Computed(inputs, outputs, scalar, add)
  {
    outputs := [];
    for i := 0 to |inputs|
      invariant |outputs| == i && forall j | 0 <= j < i :: outputs[j] == add(inputs[j], scalar)
    {
      outputs := outputs + [add(inputs[i], scalar)];
    }
  }

  /** `words_to_radix_ciphertexts`: the item slices. */
  method SplitCpu(words: seq<Word>, count: nat, itemWords: nat) returns (items: seq<seq<Word>>)
    requires |words| == count * itemWords
    ensures Shaped(items, count, itemWords) && Flatten(items) == words
  {
    items := [];
    var base: nat := 0;
    for i := 0 to count
      invariant base == i * itemWords && base <= |words|
      invariant Shaped(items, i, itemWords) && Flatten(items) == words[..base]
    {
      MulGap(itemWords, i, count);
      var item := words[base..base + itemWords];
      FlattenSnoc(items, item);
      assert words[..base] + item == words[..base + itemWords];
      items := items + [item];
      base := base + itemWords;
    }
  }

  /** What a successful request yields: echo returns the request's words; the others have
      the word count of their result layout. */
  ghost predicate Answers(f: Frame, p: Processed) {
    && p.metadata == f.metadata.(wordCount := p.metadata.wordCount) && |p.words| == p.metadata.wordCount
    && match f.operation
       case 0 => p == Processed(f.metadata, f.words)
       case 3 => HasNativePayload(p.metadata)
       case _ => HasCpuPayload(p.metadata)
  }

  lemma CpuShape(m: Metadata)
    requires NonEmpty(m) && HasCpuPayload(m)
    ensures m.wordCount == m.itemCount * (m.radixBlocks * (m.maskDimension + 1))
  {
    CpuWordsAreExact(m);
    MulAssoc(m.itemCount, m.radixBlocks, m.maskDimension + 1);
  }

  lemma MulAssoc(a: nat, b: nat, c: nat)
    ensures a * b * c == a * (b * c)
  {
  }

  // ---------------------------------------------------------------- the three additions

  /** `words` is the concatenation of what the HPU made of the items of a CPU batch. */
  ghost predicate CpuSum(f: Frame, hpu: Hpu, words: seq<Word>)
    requires f.scalar <= 255
  {
    exists inputs: seq<seq<Word>>, outputs: seq<seq<Word>> ::
      && Flatten(inputs) == f.words && |inputs| == f.metadata.itemCount
      && Shaped(inputs, |inputs|, f.metadata.radixBlocks * (f.metadata.maskDimension + 1))
      && Computed(inputs, outputs, f.scalar, hpu.addCpu) && words == Flatten(outputs)
  }

  /** The items of a native batch: as many as announced, and the export of the request's words. */
  ghost predicate NativeItems(f: Frame, inputs: seq<seq<Block>>) {
    && Shaped(inputs, f.metadata.itemCount, f.metadata.radixBlocks)
    && AllBlocks(Flatten(inputs)) && ExportBlocks(Flatten(inputs)) == f.words
  }

  ghost predicate NativeToCpuSum(f: Frame, hpu: Hpu, words: seq<Word>)
    requires f.scalar <= 255
  {
    exists inputs: seq<seq<Block>>, outputs: seq<seq<Word>> ::
      NativeItems(f, inputs) && Computed(inputs, outputs, f.scalar, hpu.addNativeToCpu) && words == Flatten(outputs)
  }

  ghost predicate NativeSum(f: Frame, hpu: Hpu, words: seq<Word>)
    requires f.scalar <= 255
  {
    exists inputs: seq<seq<Block>>, outputs: seq<seq<Block>> ::
      && NativeItems(f, inputs) && Computed(inputs, outputs, f.scalar, hpu.addNative)
      && AllBlocks(Flatten(outputs)) && words == ExportBlocks(Flatten(outputs))
  }

  /** The HPU returns as many words, or as many blocks of the right form, as it was given. */
  ghost predicate KeepsShape(hpu: Hpu, m: Metadata) {
    var itemWords: nat := m.radixBlocks * (m.maskDimension + 1);
    && (forall item: seq<Word>, x: Byte | |item| == itemWords :: |hpu.addCpu(item, x)| == itemWords)
    && (forall item: seq<Block>, x: Byte | |item| == m.radixBlocks :: |hpu.addNativeToCpu(item, x)| == itemWords)
    && (forall item: seq<Block>, x: Byte | |item| == m.radixBlocks && AllBlocks(item) ::
          |hpu.addNative(item, x)| == m.radixBlocks && AllBlocks(hpu.addNative(item, x)))
  }

  lemma {:induction false} AllBlocksOfItems(items: seq<seq<Block>>)
    requires forall i | 0 <= i < |items| :: AllBlocks(items[i])
    ensures AllBlocks(Flatten(items))
  {
    if items != [] {
      AllBlocksOfItems(items[..|items| - 1]);
    }
  }

  lemma SumKeepsBlocks(f: Frame, hpu: Hpu, inputs: seq<seq<Block>>, outputs: seq<seq<Block>>)
    requires f.scalar <= 255 && KeepsShape(hpu, f.metadata) && NativeItems(f, inputs)
    requires Computed(inputs, outputs, f.scalar, hpu.addNative)
    ensures Shaped(outputs, f.metadata.itemCount, f.metadata.radixBlocks) && AllBlocks(Flatten(outputs))
  {
    forall i: nat | i < |inputs|
      ensures |outputs[i]| == f.metadata.radixBlocks && AllBlocks(outputs[i])
    {
      BlocksOfItem(inputs, i);
      assert outputs[i] == hpu.addNative(inputs[i], f.scalar);
    }
    AllBlocksOfItems(outputs);
  }

  method AddOnCpuBatch(f: Frame, hpu: Hpu) returns (words: Option<seq<Word>>)
    requires f.scalar <= 255 && NonEmpty(f.metadata) && |f.words| == f.metadata.wordCount
    ensures words.Some? <==> HasCpuPayload(f.metadata)
    ensures words.Some? ==> CpuSum(f, hpu, words.value)
    ensures words.Some? && KeepsShape(hpu, f.metadata) ==> |words.value| == f.metadata.wordCount
  {
    var m := f.metadata;
    if !HasCpuPayload(m) {
      return None;
    }
    CpuShape(m);
    var inputs := SplitCpu(f.words, m.itemCount, m.radixBlocks * (m.maskDimension + 1));
    var outputs := AddItems(inputs, f.scalar, hpu.addCpu);
    if KeepsShape(hpu, m) {
      FlattenLength(outputs, m.radixBlocks * (m.maskDimension + 1));
    }
    return Some(Flatten(outputs));
  }

  /** Whether the native import of the request succeeds. */
  ghost predicate Importable(f: Frame, g: Geometry) {
    && HasNativePayload(f.metadata) && GeometryFits(g, f.metadata)
    && |f.words| == f.metadata.wordCount == 3072 * Blocks(f.metadata)
    && CleanPadding(f.words, Blocks(f.metadata))
  }

  method ImportRequest(f: Frame, g: Geometry) returns (items: Option<seq<seq<Block>>>)
    ensures items.Some? <==> Importable(f, g)
    ensures items.Some? ==> NativeItems(f, items.value)
  {
    items := Import(f.metadata, f.words, g);
    if items.Some? {
      ExportOfImport(f.words, Blocks(f.metadata));
    }
  }

  method AddToCpu(f: Frame, server: Server) returns (words: Option<seq<Word>>)
    requires f.scalar <= 255
    ensures words.Some? <==> Importable(f, server.geometry)
    ensures words.Some? ==> NativeToCpuSum(f, server.hpu, words.value)
    ensures words.Some? && KeepsShape(server.hpu, f.metadata) ==>
              |words.value| == Blocks(f.metadata) * (f.metadata.maskDimension + 1)
  {
    var items := ImportRequest(f, server.geometry);
    if items.None? {
      return None;
    }
    var outputs := AddItems(items.value, f.scalar, server.hpu.addNativeToCpu);
    if KeepsShape(server.hpu, f.metadata) {
      FlattenLength(outputs, f.metadata.radixBlocks * (f.metadata.maskDimension + 1));
      MulAssoc(f.metadata.itemCount, f.metadata.radixBlocks, f.metadata.maskDimension + 1);
    }
    return Some(Flatten(outputs));
  }

  method AddRoundTrip(f: Frame, server: Server, m: Metadata) returns (words: Option<seq<Word>>)
    requires f.scalar <= 255
    ensures words.Some? ==> Importable(f, server.geometry) && NativeSum(f, server.hpu, words.value)
    ensures words.Some? ==> HasNativePayload(m) && |words.value| == m.wordCount
    ensures KeepsShape(server.hpu, f.metadata) && m == f.metadata ==> (words.Some? <==> Importable(f, server.geometry))
  {
    var items := ImportRequest(f, server.geometry);
    if items.None? {
      return None;
    }
    var outputs := AddItems(items.value, f.scalar, server.hpu.addNative);
    if KeepsShape(server.hpu, f.metadata) {
      SumKeepsBlocks(f, server.hpu, items.value, outputs);
    }
    words := Export(m, outputs);
  }

  // ---------------------------------------------------------------- the request

  ghost predicate Correct(f: Frame, server: Server, words: seq<Word>) {
    && f.scalar <= 255
    && (f.operation == OP_ECHO ==> words == f.words)
    && (f.operation == OP_ADD ==> CpuSum(f, server.hpu, words))
    && (f.operation == OP_ADD_NATIVE ==> NativeToCpuSum(f, server.hpu, words))
    && (f.operation == OP_ADD_ROUNDTRIP ==> NativeSum(f, server.hpu, words))
  }

  /** What the operation asks of the request beyond the common checks. */
  ghost predicate Processable(f: Frame, server: Server) {
    && (f.operation == OP_ADD ==> HasCpuPayload(f.metadata))
    && (f.operation == OP_ADD_NATIVE ==> Importable(f, server.geometry) && ExpectedCpuWords(f.metadata).Some?)
    && (f.operation == OP_ADD_ROUNDTRIP ==> Importable(f, server.geometry))
  }

  /** `process_request`. A request that fits and is processable succeeds, and no other does,
      provided the HPU keeps the shape of its items; an echo needs no HPU. */
  method ProcessRequest(f: Frame, server: Server) returns (p: Option<Processed>)
    requires Configured(server) && (f.kind == REQUEST ==> |f.words| == f.metadata.wordCount)
    ensures p.Some? ==> RequestFits(f, server) && Answers(f, p.value) && Correct(f, server, p.value.words)
    ensures p.Some? ==> Processable(f, server)
    ensures f.operation == OP_ECHO || KeepsShape(server.hpu, f.metadata) ==>
              (p.Some? <==> RequestFits(f, server) && Processable(f, server))
  {
    if !RequestFits(f, server) {
      return None;
    }
    if f.operation == OP_ECHO {
      return Some(Processed(f.metadata, f.words));
    }
    CpuWordsAreExact(f.metadata);
    var count :=
      if f.operation == OP_ADD_ROUNDTRIP then ExpectedNativeWords(f.metadata) else ExpectedCpuWords(f.metadata);
    var words: Option<seq<Word>>;
    if f.operation == OP_ADD_ROUNDTRIP {
      if count.None? {
        return None;
      }
      words := AddRoundTrip(f, server, f.metadata.(wordCount := count.value));
    } else if f.operation == OP_ADD {
      words := AddOnCpuBatch(f, server.hpu);
    } else {
      words := AddToCpu(f, server);
    }
    if words.None? || count.None? || |words.value| != count.value {
      return None;
    }
    return Some(Processed(f.metadata.(wordCount := count.value), words.value));
  }

  // ---------------------------------------------------------------- the connection

  datatype Outcome =
    | NoReply                                // no request, or nothing could be written
    | Refused(request: Frame)                // an error frame
    | Replied(request: Frame, answer: Processed)

  function ResponseFrame(f: Frame, p: Processed): Frame {
    Frame(f.version, RESPONSE, f.requestId, f.operation, 0, f.scalar, p.metadata, p.words, None)
  }

  function Trailer(f: Frame, payloadBytes: Word, durations: Durations): seq<Byte> {
    if f.version == VERSION_TIMING then WordsBytes(TimingWords(f.requestId, durations, payloadBytes)) else []
  }

  /** What the server put on the wire. */
  ghost predicate Reply(before: seq<Byte>, after: seq<Byte>, outcome: Outcome, durations: Durations, text: seq<Byte>)
    requires |text| < 0x1_0000_0000_0000_0000
  {
    match outcome
    case NoReply => after == before
    case Refused(f) => after == before + Encode(ErrorFrame(f.version, f.requestId, f.operation, text))
    case Replied(f, p) =>
      && Writable(ResponseFrame(f, p))
      && after == before + Encode(ResponseFrame(f, p)) + Trailer(f, 8 * |p.words|, durations)
  }

  lemma ResponseIsWritable(f: Frame, p: Processed)
    requires KnownVersion(f.version) && Valid(f.metadata) && |f.words| == f.metadata.wordCount && Answers(f, p)
    ensures Writable(ResponseFrame(f, p)) <==> 8 * |p.words| < 0x1_0000_0000_0000_0000
  {
  }

  /** The answer to a request that was read and processed. */
  method Respond(down: Wire, f: Frame, processed: Option<Processed>, durations: Durations, text: seq<Byte>)
    returns (outcome: Outcome)
    requires |text| < 0x1_0000_0000_0000_0000 && KnownVersion(f.version)
    modifies down
    ensures Reply(old(down.bytes), down.bytes, outcome, durations, text)
    ensures outcome == if processed.None? then Refused(f)
                       else if Writable(ResponseFrame(f, processed.value)) then Replied(f, processed.value)
                       else NoReply
  {
    if processed.None? {
      var _ := WriteErrorFrame(down, f.version, f.requestId, f.operation, text);
      return Refused(f);
    }
    var p := processed.value;
    var written := WriteCiphertextFrame(down, ResponseFrame(f, p));
    if !written {
      return NoReply;
    }
    if f.version == VERSION_TIMING {
      WriteTiming(down, f.requestId, durations, 8 * |p.words|);
    }
    return Replied(f, p);
  }

  /** `handle_connection`; `text` is the message of an error. A request on the wire goes
      unanswered only if the answer cannot be expressed in a frame. */
  method HandleConnection(up: Wire, down: Wire, server: Server, limit: nat, utf8: seq<Byte> -> bool,
                          durations: Durations, text: seq<Byte>) returns (outcome: Outcome)
    requires Configured(server) && up != down && |text| < 0x1_0000_0000_0000_0000
    modifies up, down
    ensures Reply(old(down.bytes), down.bytes, outcome, durations, text)
    ensures !outcome.NoReply? ==> Offers(old(up.bytes), outcome.request, limit, utf8)
    ensures outcome.Replied? ==>
              && RequestFits(outcome.request, server) && Answers(outcome.request, outcome.answer)
              && Correct(outcome.request, server, outcome.answer.words) && Processable(outcome.request, server)
    ensures outcome.Refused?
            && (outcome.request.operation == OP_ECHO || KeepsShape(server.hpu, outcome.request.metadata)) ==>
              !(RequestFits(outcome.request, server) && Processable(outcome.request, server))
    ensures (exists f: Frame :: Offers(old(up.bytes), f, limit, utf8)) && outcome.NoReply? ==>
              exists f: Frame, p: Processed ::
                Offers(old(up.bytes), f, limit, utf8) && Answers(f, p) && 8 * |p.words| >= 0x1_0000_0000_0000_0000
  {
    var request := ReadFrame(up, limit, utf8);
    if request.None? {
      return NoReply;
    }
    var f := request.value;
    assert Offers(old(up.bytes), f, limit, utf8);
    var processed := ProcessRequest(f, server);
    if processed.Some? {
      ResponseIsWritable(f, processed.value);
    }
    outcome := Respond(down, f, processed, durations, text);
  }
}
