/** The calls that the hosts make: 2048-word masks, four two-bit blocks per byte, two carry
    bits, one padding bit and delta = 2^59. A server with the same parameters answers them.
 */
module RemoteCalls {
  import opened Numbers
  import opened BatchMetadata
  import opened RemoteProtocol
  import opened Bridge
  import opened RemoteServer
  import opened RemoteSession

  /** The metadata of a batch of `n` bytes. */
  function HostMetadata(n: Word, wordCount: Word): Metadata {
    Metadata(2048, n, 4, 2, 2, 1, 59, wordCount)
  }

  /** The HPU parameters `tuniform_64b_pfail128_psi64`. */
  const PSI64: Geometry := Geometry(1, 2048, 2, 32, 2, 11, 64, 64)

  predicate HostServer(server: Server) {
    server.lweDimension == 2048 && server.messageWidth == 2 && server.carryWidth == 2
  }

  lemma Psi64Fits(n: Word, wordCount: Word)
    ensures GeometryFits(PSI64, HostMetadata(n, wordCount))
  {
  }

  /** Which geometries fit: the 2048 coefficients of the reversal by 11 bits, two slots, and
      groups of 16 words per slot, all of 64 bits. */
  lemma GeometryIsExact(g: Geometry, n: Word, wordCount: Word)
    ensures GeometryFits(g, HostMetadata(n, wordCount)) <==>
              && g.glweDimension * g.polynomialSize == 2048 && g.pemPc == 2 && (g.coefNb == 32 || g.coefNb == 33)
              && g.radix == 2 && g.stages == 11 && g.nttWidth == 64 && g.pbsWidth == 64
  {
  }

  /** Both payload layouts of every batch of up to 2^32 - 1 bytes. */
  lemma HostMetadataFits(n: Word, wordCount: Word, server: Server)
    requires HostServer(server) && 0 < n < 0x1_0000_0000 && (wordCount == 12288 * n || wordCount == 8196 * n)
    ensures MetadataFits(HostMetadata(n, wordCount), server)
    ensures HasNativePayload(HostMetadata(n, wordCount)) <==> wordCount == 12288 * n
    ensures HasCpuPayload(HostMetadata(n, wordCount)) <==> wordCount == 8196 * n
  {
    MetadataIsArithmetic(HostMetadata(n, wordCount), server);
    CpuWordsAreExact(HostMetadata(n, wordCount));
    NativeWordsAreExact(HostMetadata(n, wordCount));
  }

  /** A call for `n` bytes as the hosts make it. An addition needs the layout it works on, and
      on native words also clean padding and the geometry of the layout. */
  ghost predicate HostCall(call: Call, n: Word, server: Server) {
    && HostServer(server) && 0 < n < 0x1_0000_0000
    && |call.words| < 0x1_0000_0000_0000_0000 && call.metadata == HostMetadata(n, |call.words|)
    && match call.operation
       case 0 => |call.words| == 8196 * n || |call.words| == 12288 * n
       case 1 => |call.words| == 8196 * n && KeepsShape(server.hpu, call.metadata)
       case 2 => IsNativeCall(call, n, server)
       case 3 => IsNativeCall(call, n, server)
       case _ => false
  }

  ghost predicate IsNativeCall(call: Call, n: Word, server: Server) {
    && |call.words| == 12288 * n && server.geometry == PSI64
    && CleanPadding(call.words, 4 * n) && KeepsShape(server.hpu, call.metadata)
  }

  /** Words of the answer. */
  function AnswerWords(operation: Word, n: Word, words: nat): nat {
    if operation == 0 then words else if operation == 3 then 12288 * n else 8196 * n
  }

  lemma HostCallIsAgreed(call: Call, n: Word, server: Server)
    requires HostCall(call, n, server)
    ensures Agreed(call)
  {
    HostMetadataFits(n, |call.words|, server);
    CpuWordsAreExact(call.metadata);
    NativeWordsAreExact(call.metadata);
  }

  lemma HostAnswerSize(call: Call, n: Word, server: Server)
    requires HostCall(call, n, server)
    ensures ExpectedMetadata(call).wordCount == AnswerWords(call.operation, n, |call.words|) < 0x1_0000_0000_0000
  {
    if call.operation == 2 {
      WrapOfWord(n * 4);
      WrapOfWord(n * 4 * 2049);
    }
  }

  lemma HostCallIsAnswerable(call: Call, n: Word, server: Server)
    requires HostCall(call, n, server)
    ensures Answerable(call, server)
  {
    HostMetadataFits(n, |call.words|, server);
    HostAnswerSize(call, n, server);
    Psi64Fits(n, |call.words|);
    if call.operation == 2 {
      CpuWordsAreExact(call.metadata);
    }
  }

  /** Every call of the hosts succeeds within the limits: the server replies, and the client
      gets the words of the right layout and leaves no byte unread. */
  method CallFromHost(call: Call, n: Word, server: Server, maxRequest: nat, maxResponse: nat,
                      utf8: seq<Byte> -> bool, durations: Durations, text: seq<Byte>)
    returns (words: Option<seq<Word>>, unread: seq<Byte>)
    requires HostCall(call, n, server) && |text| < 0x1_0000_0000_0000_0000
    requires 8 * |call.words| <= maxRequest && 8 * AnswerWords(call.operation, n, |call.words|) <= maxResponse
    ensures words.Some? && unread == []
    ensures |words.value| == AnswerWords(call.operation, n, |call.words|)
    ensures Correct(RequestFrame(call), server, words.value)
  {
    HostCallIsAgreed(call, n, server);
    HostCallIsAnswerable(call, n, server);
    HostAnswerSize(call, n, server);
    var sent, outcome;
    sent, outcome, words, unread := Session(call, server, maxRequest, maxResponse, utf8, durations, text);
  }
}
