/** The C++ client of the remote HPU (`compute_u8`) and whole sessions with the Rust server.
 */
module RemoteSession {
  import opened Numbers
  import opened BatchMetadata
  import opened RemoteProtocol
  import opened RemoteServer

  // ---------------------------------------------------------------- the request

  datatype Call = Call(requestId: Word, operation: Word, scalar: Byte, metadata: Metadata, words: seq<Word>)

  function RequestFrame(call: Call): Frame {
    Frame(VERSION_TIMING, REQUEST, call.requestId, call.operation, 0, call.scalar, call.metadata, call.words, None)
  }

  /** What the client agrees to send. */
  predicate Agreed(call: Call) {
    && ClientAccepts(call.metadata, |call.words|, call.operation) && call.operation <= OP_ADD_ROUNDTRIP
    && 8 * |call.words| < 0x1_0000_0000_0000_0000
  }

  lemma ChunkBytes(words: seq<Word>, offset: nat, count: nat)
    requires offset + count <= |words|
    ensures WordsBytes(words[..offset + count])
         == WordsBytes(words[..offset]) + WordsBytes(words[offset..offset + count])
  {
    WordsBytesConcat(words[..offset], words[offset..offset + count]);
    assert words[..offset] + words[offset..offset + count] == words[..offset + count];
  }

  /** `send_words`: chunks of 8192 words. */
  method SendWords(wire: Wire, words: seq<Word>)
    modifies wire
    ensures wire.bytes == old(wire.bytes) + WordsBytes(words)
  {
    var offset := 0;
    while offset < |words|
      invariant offset <= |words|
      invariant wire.bytes == old(wire.bytes) + WordsBytes(words[..offset])
    {
      var count := if |words| - offset < 8192 then |words| - offset else 8192;
      var chunk := words[offset..offset + count];
      ChunkBytes(words, offset, count);
      Assoc(old(wire.bytes), WordsBytes(words[..offset]), WordsBytes(chunk));
      wire.Write(WordsBytes(chunk));
      offset := offset + count;
    }
    assert words[..offset] == words;
  }

  /** The sending half of `compute_u8`. */
  method SendRequest(up: Wire, call: Call) returns (sent: bool)
    modifies up
    ensures sent <==> Agreed(call)
    ensures up.bytes == if sent then old(up.bytes) + Encode(RequestFrame(call)) else old(up.bytes)
  {
    var valid := ClientValidates(call.metadata, |call.words|, call.operation);
    if !valid || call.operation > OP_ADD_ROUNDTRIP || |call.words| > 0xffff_ffff_ffff_ffff / 8 {
      return false;
    }
    var header := HeaderWords(RequestFrame(call), 8 * |call.words|);
    up.Write(WordsBytes(header));
    SendWords(up, call.words);
    Assoc(old(up.bytes), WordsBytes(header), WordsBytes(call.words));
    return true;
  }

  /** A request on the wire has version 2, kind 1 and status 0. */
  lemma RequestLayout(call: Call)
    requires 8 * |call.words| < 0x1_0000_0000_0000_0000
    ensures var m := call.metadata;
            OnWire(Encode(RequestFrame(call)),
                   [0x3130_4350_5245_574c, 2, 1, call.requestId, call.operation, 0, call.scalar,
                    m.maskDimension, m.itemCount, m.radixBlocks, m.messageWidth, m.carryWidth, m.paddingWidth,
                    m.deltaLog2, m.wordCount, 8 * |call.words|], WordsBytes(call.words))
  {
    FrameLayout(RequestFrame(call));
  }

  // ---------------------------------------------------------------- the response

  /** The metadata the client expects back. */
  function ExpectedMetadata(call: Call): Metadata {
    if call.operation == OP_ADD_NATIVE
    then call.metadata.(wordCount := Wrap(Wrap(call.metadata.itemCount * call.metadata.radixBlocks)
                                          * Wrap(call.metadata.maskDimension + 1)))
    else call.metadata
  }

  /** One chunk of words from the wire, which holds `s` from `8 * |ws|` on. */
  method ReceiveChunk(wire: Wire, count: nat, ws: seq<Word>, ghost s: seq<Byte>) returns (more: Option<seq<Word>>)
    requires 8 * |ws| <= |s| && wire.bytes == s[8 * |ws|..] && WordsBytes(ws) == s[..8 * |ws|]
    modifies wire
    ensures more.Some? <==> 8 * |ws| + 8 * count <= |s|
    ensures more.Some? ==>
              && |more.value| == count && wire.bytes == s[8 * |ws| + 8 * count..]
              && WordsBytes(ws + more.value) == s[..8 * |ws| + 8 * count]
  {
    var chunk := wire.ReadExact(8 * count);
    if chunk.None? {
      return None;
    }
    more := Some(BytesWords(chunk.value));
    BytesOfWordsOfBytes(chunk.value);
    NextChunk(s, ws, more.value);
  }

  /** `receive_words` */
  method ReceiveWords(wire: Wire, n: nat) returns (words: Option<seq<Word>>)
    modifies wire
    ensures words.Some? <==> 8 * n <= |old(wire.bytes)|
    ensures words.Some? ==>
              && |words.value| == n && WordsBytes(words.value) == old(wire.bytes)[..8 * n]
              && wire.bytes == old(wire.bytes)[8 * n..]
  {
    ghost var s := wire.bytes;
    var ws: seq<Word> := [];
    while |ws| < n
      invariant |ws| <= n && 8 * |ws| <= |s| && wire.bytes == s[8 * |ws|..]
      invariant WordsBytes(ws) == s[..8 * |ws|]
    {
      var count := if n - |ws| < 8192 then n - |ws| else 8192;
      var more := ReceiveChunk(wire, count, ws, s);
      if more.None? {
        return None;
      }
      ws := ws + more.value;
    }
    return Some(ws);
  }

  lemma NextChunk(s: seq<Byte>, ws: seq<Word>, more: seq<Word>)
    requires 8 * |ws| + 8 * |more| <= |s| && WordsBytes(ws) == s[..8 * |ws|]
    requires WordsBytes(more) == s[8 * |ws|..][..8 * |more|]
    ensures WordsBytes(ws + more) == s[..8 * |ws| + 8 * |more|]
    ensures s[8 * |ws|..][8 * |more|..] == s[8 * |ws| + 8 * |more|..]
  {
    WordsBytesConcat(ws, more);
    SliceStep(s, 8 * |ws|, 8 * |more|);
  }

  /** The header checks of the client. A vector cannot hold 2^60 words. */
  predicate ResponseChecks(call: Call, h: seq<Word>, limit: nat)
    requires |h| == 16
  {
    && h[1] == VERSION_TIMING && h[15] <= limit && h[2] == RESPONSE
    && h[3] == call.requestId && h[4] == call.operation && h[5] == 0 && h[6] == call.scalar
    && FrameOf(h, [], None).metadata == ExpectedMetadata(call)
    && h[15] == Wrap(8 * (h[14] as nat)) && h[14] < 0x1000_0000_0000_0000
  }

  predicate TimingChecks(call: Call, t: seq<Word>, payloadBytes: Word)
    requires |t| == 16
  {
    t[0] == TIMING_MAGIC && t[1] == 1 && t[2] == call.requestId && t[15] == payloadBytes
  }

  function ExpectedResponse(call: Call, words: seq<Word>): Frame {
    Frame(VERSION_TIMING, RESPONSE, call.requestId, call.operation, 0, call.scalar, ExpectedMetadata(call), words, None)
  }

  /** The stream is a response with these words, its timing trailer, and `tail`. */
  ghost predicate IsAnswer(s: seq<Byte>, call: Call, words: seq<Word>, durations: Durations, tail: seq<Byte>) {
    && |words| == ExpectedMetadata(call).wordCount && |words| < 0x1000_0000_0000_0000
    && s == Encode(ExpectedResponse(call, words))
            + (WordsBytes(TimingWords(call.requestId, durations, 8 * |words|)) + tail)
  }

  /** A response has version 2, kind 2, status 0, and repeats request id, operation and scalar. */
  lemma ResponseLayout(call: Call, words: seq<Word>)
    requires 8 * |words| < 0x1_0000_0000_0000_0000
    ensures var m := ExpectedMetadata(call);
            OnWire(Encode(ExpectedResponse(call, words)),
                   [0x3130_4350_5245_574c, 2, 2, call.requestId, call.operation, 0, call.scalar,
                    m.maskDimension, m.itemCount, m.radixBlocks, m.messageWidth, m.carryWidth, m.paddingWidth,
                    m.deltaLog2, m.wordCount, 8 * |words|], WordsBytes(words))
  {
    FrameLayout(ExpectedResponse(call, words));
  }

  /** Sixteen words under a magic number. */
  method ReceiveHeader(wire: Wire, magic: Word) returns (h: Option<seq<Word>>)
    modifies wire
    ensures h.Some? <==> 128 <= |old(wire.bytes)| && WordAt(old(wire.bytes), 0) == magic
    ensures h.Some? ==>
              && |h.value| == 16 && h.value[0] == magic && WordsBytes(h.value) == old(wire.bytes)[..128]
              && wire.bytes == old(wire.bytes)[128..]
  {
    ghost var s := wire.bytes;
    var data := wire.ReadExact(128);
    if data.None? {
      return None;
    }
    assert data.value[..8] == s[..8] == s[0..8];
    BytesOfWordOfBytes(data.value[..8]);
    if data.value[..8] != WordBytes(magic) {
      return None;
    }
    BytesOfWordsOfBytes(data.value);
    assert data.value[0..8] == data.value[..8];
    return Some(BytesWords(data.value));
  }

  /** Where the parts of an answer stand. */
  ghost predicate Parts(s: seq<Byte>, h: seq<Word>, words: seq<Word>, t: seq<Word>, tail: seq<Byte>) {
    && |h| == 16 && |t| == 16 && |s| >= 128 && WordsBytes(h) == s[..128]
    && var rest := s[128..];
       && 8 * |words| <= |rest| && WordsBytes(words) == rest[..8 * |words|]
       && var trailer := rest[8 * |words|..];
          |trailer| >= 128 && WordsBytes(t) == trailer[..128] && tail == trailer[128..]
  }

  lemma SplitAt(a: seq<Byte>, b: seq<Byte>)
    ensures (a + b)[..|a|] == a && (a + b)[|a|..] == b
  {
  }

  lemma PartsOfConcatenation(h: seq<Word>, words: seq<Word>, t: seq<Word>, tail: seq<Byte>)
    requires |h| == 16 && |t| == 16
    ensures Parts(WordsBytes(h) + WordsBytes(words) + (WordsBytes(t) + tail), h, words, t, tail)
  {
    var trailer := WordsBytes(t) + tail;
    var rest := WordsBytes(words) + trailer;
    Assoc(WordsBytes(h), WordsBytes(words), trailer);
    SplitAt(WordsBytes(h), rest);
    SplitAt(WordsBytes(words), trailer);
    SplitAt(WordsBytes(t), tail);
  }

  lemma ConcatenationOfParts(s: seq<Byte>, h: seq<Word>, words: seq<Word>, t: seq<Word>, tail: seq<Byte>)
    requires Parts(s, h, words, t, tail)
    ensures s == WordsBytes(h) + WordsBytes(words) + (WordsBytes(t) + tail)
  {
    var rest := s[128..];
    var trailer := rest[8 * |words|..];
    assert trailer == trailer[..128] + trailer[128..];
    assert rest == rest[..8 * |words|] + trailer;
    assert s == s[..128] + rest;
    Assoc(WordsBytes(h), WordsBytes(words), trailer);
  }

  /** A stream has only one reading with given lengths. */
  lemma PartsAreUnique(s: seq<Byte>, h: seq<Word>, words: seq<Word>, t: seq<Word>, tail: seq<Byte>,
                       h': seq<Word>, words': seq<Word>, t': seq<Word>, tail': seq<Byte>)
    requires Parts(s, h, words, t, tail) && Parts(s, h', words', t', tail') && |words| == |words'|
    ensures h == h' && words == words' && t == t' && tail == tail'
  {
    WordsBytesIsInjective(h, h');
    WordsBytesIsInjective(words, words');
    WordsBytesIsInjective(t, t');
  }

  lemma AnswerChecks(call: Call, words: seq<Word>, durations: Durations, limit: nat)
    requires |words| == ExpectedMetadata(call).wordCount && |words| < 0x1000_0000_0000_0000 && 8 * |words| <= limit
    ensures ResponseChecks(call, HeaderWords(ExpectedResponse(call, words), 8 * |words|), limit)
    ensures TimingChecks(call, TimingWords(call.requestId, durations, 8 * |words|), 8 * |words|)
  {
    WrapOfWord(8 * |words|);
  }

  lemma ChecksMakeAnswer(call: Call, h: seq<Word>, words: seq<Word>, t: seq<Word>, limit: nat)
    requires |h| == 16 && h[0] == MAGIC && |words| == h[14] && |t| == 16
    requires ResponseChecks(call, h, limit) && TimingChecks(call, t, h[15])
    ensures h == HeaderWords(ExpectedResponse(call, words), 8 * |words|)
    ensures t == TimingWords(call.requestId, t[3..15], 8 * |words|)
    ensures |words| == ExpectedMetadata(call).wordCount && |words| < 0x1000_0000_0000_0000 && 8 * |words| <= limit
  {
    WrapOfWord(8 * |words|);
    HeaderOfFrame(h, words, None);
  }

  lemma AnswerHasParts(s: seq<Byte>, call: Call, words: seq<Word>, durations: Durations, tail: seq<Byte>)
    requires IsAnswer(s, call, words, durations, tail)
    ensures Parts(s, HeaderWords(ExpectedResponse(call, words), 8 * |words|), words,
                  TimingWords(call.requestId, durations, 8 * |words|), tail)
  {
    PartsOfConcatenation(HeaderWords(ExpectedResponse(call, words), 8 * |words|), words,
                         TimingWords(call.requestId, durations, 8 * |words|), tail);
  }

  ghost predicate IsAnswerWithin(s: seq<Byte>, call: Call, words: seq<Word>, durations: Durations, tail: seq<Byte>,
                                 limit: nat) {
    IsAnswer(s, call, words, durations, tail) && 8 * |words| <= limit
  }

  lemma FirstWordOfBytes(s: seq<Byte>, h: seq<Word>)
    requires |s| >= 128 && |h| == 16 && WordsBytes(h) == s[..128]
    ensures WordAt(s, 0) == h[0]
  {
    WordsBytesAt(h, 0);
    assert s[0..8] == s[..128][0..8];
  }

  /** What the client must have read if the stream is an answer. */
  lemma AnswerIsRead(s: seq<Byte>, call: Call, words: seq<Word>, durations: Durations, tail: seq<Byte>, limit: nat)
    requires IsAnswerWithin(s, call, words, durations, tail, limit)
    ensures var h := HeaderWords(ExpectedResponse(call, words), 8 * |words|);
            var t := TimingWords(call.requestId, durations, 8 * |words|);
            && Parts(s, h, words, t, tail) && WordAt(s, 0) == MAGIC && h[14] == |words|
            && WordAt(s[128..][8 * |words|..], 0) == TIMING_MAGIC
            && ResponseChecks(call, h, limit) && TimingChecks(call, t, 8 * |words|)
  {
    var h := HeaderWords(ExpectedResponse(call, words), 8 * |words|);
    var t := TimingWords(call.requestId, durations, 8 * |words|);
    AnswerHasParts(s, call, words, durations, tail);
    AnswerChecks(call, words, durations, limit);
    FirstWordOfBytes(s, h);
    FirstWordOfBytes(s[128..][8 * |words|..], t);
  }

  lemma HeaderIsTheAnswers(s: seq<Byte>, call: Call, h: seq<Word>, words: seq<Word>, durations: Durations,
                           tail: seq<Byte>, limit: nat)
    requires IsAnswerWithin(s, call, words, durations, tail, limit)
    requires |h| == 16 && WordsBytes(h) == s[..128]
    ensures h == HeaderWords(ExpectedResponse(call, words), 8 * |words|)
    ensures ResponseChecks(call, h, limit) && h[14] == |words|
    ensures |s| >= 128 + 8 * |words| + 128 && WordAt(s[128..][8 * |words|..], 0) == TIMING_MAGIC
  {
    AnswerIsRead(s, call, words, durations, tail, limit);
    WordsBytesIsInjective(h, HeaderWords(ExpectedResponse(call, words), 8 * |words|));
  }

  /** Everything the client read fits an answer with `words'`: then it read that answer. */
  lemma ReadingIsTheAnswer(s: seq<Byte>, call: Call, h: seq<Word>, words: seq<Word>, t: seq<Word>, tail: seq<Byte>,
                           words': seq<Word>, durations: Durations, tail': seq<Byte>, limit: nat)
    requires Parts(s, h, words, t, tail) && |words| == h[14] && IsAnswerWithin(s, call, words', durations, tail', limit)
    ensures words == words' && tail == tail' && TimingChecks(call, t, h[15])
  {
    HeaderIsTheAnswers(s, call, h, words', durations, tail', limit);
    AnswerIsRead(s, call, words', durations, tail', limit);
    PartsAreUnique(s, h, words, t, tail, HeaderWords(ExpectedResponse(call, words'), 8 * |words'|), words',
                   TimingWords(call.requestId, durations, 8 * |words'|), tail');
  }

  lemma ReadingMakesAnswer(s: seq<Byte>, call: Call, h: seq<Word>, words: seq<Word>, t: seq<Word>, tail: seq<Byte>,
                           limit: nat)
    requires Parts(s, h, words, t, tail) && h[0] == MAGIC && |words| == h[14]
    requires ResponseChecks(call, h, limit) && TimingChecks(call, t, h[15])
    ensures IsAnswerWithin(s, call, words, t[3..15], tail, limit)
  {
    ChecksMakeAnswer(call, h, words, t, limit);
    ConcatenationOfParts(s, h, words, t, tail);
  }

  /** The receiving half of `compute_u8`: succeeds exactly on an answer to the call, with
      its words, and leaves what follows the timing trailer. */
  method ReceiveResponse(down: Wire, call: Call, limit: nat) returns (result: Option<seq<Word>>)
    modifies down
    ensures result.Some? ==>
              exists durations: Durations ::
                IsAnswerWithin(old(down.bytes), call, result.value, durations, down.bytes, limit)
    ensures forall words: seq<Word>, durations: Durations, tail: seq<Byte>
              | IsAnswerWithin(old(down.bytes), call, words, durations, tail, limit) ::
              result == Some(words) && down.bytes == tail
  {
    ghost var s := down.bytes;
    forall words: seq<Word>, durations: Durations, tail: seq<Byte>
      | IsAnswerWithin(s, call, words, durations, tail, limit)
      ensures |s| >= 128 && WordAt(s, 0) == MAGIC
    {
      AnswerIsRead(s, call, words, durations, tail, limit);
    }
    var header := ReceiveHeader(down, MAGIC);
    if header.None? {
      return None;
    }
    var h := header.value;
    forall words: seq<Word>, durations: Durations, tail: seq<Byte>
      | IsAnswerWithin(s, call, words, durations, tail, limit)
      ensures ResponseChecks(call, h, limit) && h[14] == |words| && |s| >= 128 + 8 * |words| + 128
      ensures WordAt(s[128..][8 * |words|..], 0) == TIMING_MAGIC
    {
      HeaderIsTheAnswers(s, call, h, words, durations, tail, limit);
    }
    if !ResponseChecks(call, h, limit) {
      return None;
    }
    var received := ReceiveWords(down, h[14]);
    if received.None? {
      return None;
    }
    var timing := ReceiveHeader(down, TIMING_MAGIC);
    if timing.None? {
      return None;
    }
    assert Parts(s, h, received.value, timing.value, down.bytes);
    forall words: seq<Word>, durations: Durations, tail: seq<Byte>
      | IsAnswerWithin(s, call, words, durations, tail, limit)
      ensures received.value == words && down.bytes == tail && TimingChecks(call, timing.value, h[15])
    {
      ReadingIsTheAnswer(s, call, h, received.value, timing.value, down.bytes, words, durations, tail, limit);
    }
    if !TimingChecks(call, timing.value, h[15]) {
      return None;
    }
    ReadingMakesAnswer(s, call, h, received.value, timing.value, down.bytes, limit);
    return received;
  }

  // ---------------------------------------------------------------- sessions

  /** Server and client compute the same response metadata. */
  lemma MetadataAgrees(call: Call, p: Processed)
    requires Agreed(call) && Answers(RequestFrame(call), p)
    ensures p.metadata == ExpectedMetadata(call)
  {
    var m := call.metadata;
    CpuWordsAreExact(m);
    CpuWordsAreExact(p.metadata);
    NativeWordsAreExact(m);
    NativeWordsAreExact(p.metadata);
    ProductGrows(m.itemCount, m.radixBlocks);
    ProductGrows(Blocks(m), m.maskDimension + 1);
    WrapOfWord(Blocks(m));
    if call.operation == OP_ADD_NATIVE {
      WrapOfWord(m.maskDimension + 1);
      WrapOfWord(Blocks(m) * (m.maskDimension + 1));
    }
  }

  /** What the server sends for a request the client made is an answer to it. */
  lemma ReplyIsAnswer(call: Call, p: Processed, durations: Durations)
    requires Agreed(call) && Answers(RequestFrame(call), p) && |p.words| < 0x1000_0000_0000_0000
    requires Writable(ResponseFrame(RequestFrame(call), p))
    ensures IsAnswer([] + Encode(ResponseFrame(RequestFrame(call), p))
                     + Trailer(RequestFrame(call), 8 * |p.words|, durations), call, p.words, durations, [])
  {
    MetadataAgrees(call, p);
    NoMore(Encode(ExpectedResponse(call, p.words)), WordsBytes(TimingWords(call.requestId, durations, 8 * |p.words|)));
  }

  lemma NoMore(r: seq<Byte>, t: seq<Byte>)
    ensures [] + r + t == r + (t + [])
  {
  }

  lemma NothingIsNoAnswer(call: Call, words: seq<Word>, durations: Durations, tail: seq<Byte>, limit: nat)
    ensures !IsAnswerWithin([], call, words, durations, tail, limit)
  {
    if IsAnswerWithin([], call, words, durations, tail, limit) {
      AnswerIsRead([], call, words, durations, tail, limit);
    }
  }

  /** An error frame never passes for an answer, whatever follows it. */
  lemma ErrorIsNoAnswer(call: Call, version: Word, requestId: Word, operation: Word, text: seq<Byte>, after: seq<Byte>,
                        words: seq<Word>, durations: Durations, tail: seq<Byte>, limit: nat)
    requires |text| < 0x1_0000_0000_0000_0000
    ensures var stream := Encode(ErrorFrame(version, requestId, operation, text)) + after;
            !IsAnswerWithin(stream, call, words, durations, tail, limit)
  {
    var f := ErrorFrame(version, requestId, operation, text);
    var s := Encode(f) + after;
    var h := HeaderWords(f, |text|);
    if IsAnswerWithin(s, call, words, durations, tail, limit) {
      Assoc(WordsBytes(h), text, after);
      SplitAt(WordsBytes(h), text + after);
      HeaderIsTheAnswers(s, call, h, words, durations, tail, limit);
    }
  }

  /** The server reads exactly the request that was sent, if its payload is within the limit. */
  lemma RequestIsOffered(call: Call, limit: nat, utf8: seq<Byte> -> bool, f: Frame)
    requires Agreed(call)
    ensures Offers([] + Encode(RequestFrame(call)), f, limit, utf8) <==>
            f == RequestFrame(call) && 8 * |call.words| <= limit
  {
    var request := RequestFrame(call);
    assert [] + Encode(request) == Encode(request) + [];
    WritableIsCodable(request);
    OnlyOffer(request, [], f, limit, utf8);
  }

  /** What the server's bytes mean to the client. */
  ghost predicate Served(s: seq<Byte>, call: Call, outcome: Outcome, durations: Durations, limit: nat) {
    && (outcome.Replied? && |outcome.answer.words| < 0x1000_0000_0000_0000 ==>
          IsAnswer(s, call, outcome.answer.words, durations, []))
    && (!outcome.Replied? ==>
          forall words: seq<Word>, d: Durations, tail: seq<Byte> :: !IsAnswerWithin(s, call, words, d, tail, limit))
  }

  lemma ReplyServes(s: seq<Byte>, call: Call, outcome: Outcome, durations: Durations, text: seq<Byte>, limit: nat)
    requires Agreed(call) && |text| < 0x1_0000_0000_0000_0000 && Reply([], s, outcome, durations, text)
    requires !outcome.NoReply? ==> outcome.request == RequestFrame(call)
    requires outcome.Replied? ==> Answers(outcome.request, outcome.answer)
    ensures Served(s, call, outcome, durations, limit)
  {
    if outcome.Replied? {
      if |outcome.answer.words| < 0x1000_0000_0000_0000 {
        ReplyIsAnswer(call, outcome.answer, durations);
      }
    } else {
      forall words: seq<Word>, d: Durations, tail: seq<Byte>
        ensures !IsAnswerWithin(s, call, words, d, tail, limit)
      {
        match outcome
        case NoReply => NothingIsNoAnswer(call, words, d, tail, limit);
        case Refused(f) =>
          ErrorIsNoAnswer(call, f.version, f.requestId, f.operation, text, [], words, d, tail, limit);
          var e := Encode(ErrorFrame(f.version, f.requestId, f.operation, text));
          assert [] + e == e + [];
      }
    }
  }

  /** Whether the server can answer a call: it passes the checks, the operation can be carried
      out on its words, and the answer can be expressed in a frame. */
  ghost predicate Answerable(call: Call, server: Server)
    requires Configured(server)
  {
    && RequestFits(RequestFrame(call), server) && Processable(RequestFrame(call), server)
    && 8 * ExpectedMetadata(call).wordCount < 0x1_0000_0000_0000_0000
  }

  /** The server's part of a session. */
  method Serve(up: Wire, down: Wire, call: Call, server: Server, maxRequest: nat, limit: nat, utf8: seq<Byte> -> bool,
               durations: Durations, text: seq<Byte>) returns (outcome: Outcome)
    requires Configured(server) && |text| < 0x1_0000_0000_0000_0000 && Agreed(call)
    requires up != down && up.bytes == [] + Encode(RequestFrame(call)) && down.bytes == []
    modifies up, down
    ensures Served(down.bytes, call, outcome, durations, limit)
    ensures !outcome.NoReply? ==> outcome.request == RequestFrame(call)
    ensures 8 * |call.words| > maxRequest ==> outcome.NoReply?
    ensures outcome.Replied? ==> Correct(RequestFrame(call), server, outcome.answer.words)
    ensures outcome.Replied? ==> |outcome.answer.words| == ExpectedMetadata(call).wordCount
    ensures 8 * |call.words| <= maxRequest && (call.operation == 0 || KeepsShape(server.hpu, call.metadata)) ==>
              (outcome.Replied? <==> Answerable(call, server))
  {
    forall f: Frame
      ensures Offers(up.bytes, f, maxRequest, utf8) <==> f == RequestFrame(call) && 8 * |call.words| <= maxRequest
    {
      RequestIsOffered(call, maxRequest, utf8, f);
    }
    outcome := HandleConnection(up, down, server, maxRequest, utf8, durations, text);
    ReplyServes(down.bytes, call, outcome, durations, text, limit);
    forall p: Processed | Answers(RequestFrame(call), p)
      ensures |p.words| == ExpectedMetadata(call).wordCount
    {
      MetadataAgrees(call, p);
    }
    assert 8 * |call.words| <= maxRequest ==> Offers(old(up.bytes), RequestFrame(call), maxRequest, utf8);
  }

  /** The client's part after the server is done. */
  method Finish(down: Wire, call: Call, ghost outcome: Outcome, ghost durations: Durations, limit: nat)
    returns (result: Option<seq<Word>>)
    requires Served(down.bytes, call, outcome, durations, limit)
    modifies down
    ensures outcome.Replied? && |outcome.answer.words| < 0x1000_0000_0000_0000
              && 8 * |outcome.answer.words| <= limit ==>
              result == Some(outcome.answer.words) && down.bytes == []
    ensures !outcome.Replied? ==> result.None?
  {
    if outcome.Replied? && 8 * |outcome.answer.words| <= limit && |outcome.answer.words| < 0x1000_0000_0000_0000 {
      assert IsAnswerWithin(down.bytes, call, outcome.answer.words, durations, [], limit);
    }
    result := ReceiveResponse(down, call, limit);
  }

  /** One call over a fresh connection. If the server answers within the client's limits, the
      client accepts, gets the server's words and leaves no byte unread; if the server
      refuses or does not reply, the client fails. */
  method Session(call: Call, server: Server, maxRequest: nat, maxResponse: nat, utf8: seq<Byte> -> bool,
                 durations: Durations, text: seq<Byte>)
    returns (sent: bool, outcome: Outcome, result: Option<seq<Word>>, unread: seq<Byte>)
    requires Configured(server) && |text| < 0x1_0000_0000_0000_0000
    ensures sent <==> Agreed(call)
    ensures sent && !outcome.NoReply? ==> outcome.request == RequestFrame(call)
    ensures sent && 8 * |call.words| > maxRequest ==> outcome.NoReply?
    ensures sent && outcome.Replied? ==> Correct(RequestFrame(call), server, outcome.answer.words)
    ensures sent && outcome.Replied? ==> |outcome.answer.words| == ExpectedMetadata(call).wordCount
    ensures sent && 8 * |call.words| <= maxRequest && (call.operation == 0 || KeepsShape(server.hpu, call.metadata)) ==>
              (outcome.Replied? <==> Answerable(call, server))
    ensures sent && outcome.Replied? && 8 * |outcome.answer.words| <= maxResponse
            && |outcome.answer.words| < 0x1000_0000_0000_0000 ==>
              result == Some(outcome.answer.words) && unread == []
    ensures !sent || !outcome.Replied? ==> result.None?
  {
    var up := new Wire();
    var down := new Wire();
    sent := SendRequest(up, call);
    if !sent {
      return false, NoReply, None, [];
    }
    outcome := Serve(up, down, call, server, maxRequest, maxResponse, utf8, durations, text);
    result := Finish(down, call, outcome, durations, maxResponse);
    unread := down.bytes;
  }
}
