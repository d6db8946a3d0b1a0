/** The LWERPC01 frames of the remote protocol, as `protocol.rs` writes and reads them, and
    the LWEBEN01 timing trailer.
 */
module RemoteProtocol {
  import opened Numbers
  import opened BatchMetadata

  /** "LWERPC01" and "LWEBEN01", read as little-endian words. */
  const MAGIC: Word := 0x3130_4350_5245_574c
  const TIMING_MAGIC: Word := 0x3130_4e45_4245_574c

  const REQUEST: Word := 1
  const RESPONSE: Word := 2
  const ERROR: Word := 3
  const VERSION_PLAIN: Word := 1
  const VERSION_TIMING: Word := 2

  datatype Frame = Frame(
    version: Word, kind: Word, requestId: Word, operation: Word, status: Word, scalar: Word,
    metadata: Metadata,
    words: seq<Word>,
    error: Option<seq<Byte>>)

  /** One direction of a connection: writers append, readers take from the front. */
  class Wire {
    var bytes: seq<Byte>

    constructor ()
      ensures bytes == []
    {
      bytes := [];
    }

    method Write(data: seq<Byte>)
      modifies this
      ensures bytes == old(bytes) + data
    {
      bytes := bytes + data;
    }

    /** `read_exact`: on a short stream everything is lost. */
    method ReadExact(n: nat) returns (data: Option<seq<Byte>>)
      modifies this
      ensures data == if n <= |old(bytes)| then Some(old(bytes)[..n]) else None
      ensures bytes == if n <= |old(bytes)| then old(bytes)[n..] else []
    {
      if n <= |bytes| {
        data := Some(bytes[..n]);
        bytes := bytes[n..];
      } else {
        data := None;
        bytes := [];
      }
    }
  }

  // ---------------------------------------------------------------- the format

  predicate KnownVersion(version: Word) {
    version == VERSION_PLAIN || version == VERSION_TIMING
  }

  /** Magic, fourteen fields, payload size. */
  function HeaderWords(f: Frame, payloadBytes: Word): (h: seq<Word>)
    ensures |h| == 16
  {
    [MAGIC, f.version, f.kind, f.requestId, f.operation, f.status, f.scalar,
     f.metadata.maskDimension, f.metadata.itemCount, f.metadata.radixBlocks, f.metadata.messageWidth,
     f.metadata.carryWidth, f.metadata.paddingWidth, f.metadata.deltaLog2, f.metadata.wordCount, payloadBytes]
  }

  function MetadataOf(h: seq<Word>): Metadata
    requires |h| == 16
  {
    Metadata(h[7], h[8], h[9], h[10], h[11], h[12], h[13], h[14])
  }

  function FrameOf(h: seq<Word>, words: seq<Word>, error: Option<seq<Byte>>): Frame
    requires |h| == 16
  {
    Frame(h[1], h[2], h[3], h[4], h[5], h[6], MetadataOf(h), words, error)
  }

  lemma HeaderOfFrame(h: seq<Word>, words: seq<Word>, error: Option<seq<Byte>>)
    requires |h| == 16 && h[0] == MAGIC
    ensures HeaderWords(FrameOf(h, words, error), h[15]) == h
  {
  }

  lemma FrameOfHeader(f: Frame, payloadBytes: Word)
    ensures FrameOf(HeaderWords(f, payloadBytes), f.words, f.error) == f
    ensures HeaderWords(f, payloadBytes)[0] == MAGIC && HeaderWords(f, payloadBytes)[15] == payloadBytes
  {
  }

  /** The payload of a frame: an error text, or the ciphertext words. */
  function Payload(f: Frame): seq<Byte> {
    if f.error.Some? then f.error.value else WordsBytes(f.words)
  }

  predicate Sendable(f: Frame) {
    |Payload(f)| < 0x1_0000_0000_0000_0000
  }

  function Encode(f: Frame): seq<Byte>
    requires Sendable(f)
  {
    WordsBytes(HeaderWords(f, |Payload(f)|)) + Payload(f)
  }

  /** The magic numbers are "LWERPC01" and "LWEBEN01". */
  lemma MagicBytes()
    ensures EightBytes(0x3130_4350_5245_574c) == [76, 87, 69, 82, 80, 67, 48, 49]
  {
    assert 0x3130_4350_5245_574c % 0x100 == 76;
    assert 0x3130_4350_5245_574c / 0x100 % 0x100 == 87;
    assert 0x3130_4350_5245_574c / 0x1_0000 % 0x100 == 69;
    assert 0x3130_4350_5245_574c / 0x100_0000 % 0x100 == 82;
    assert 0x3130_4350_5245_574c / 0x1_0000_0000 % 0x100 == 80;
    assert 0x3130_4350_5245_574c / 0x100_0000_0000 % 0x100 == 67;
    assert 0x3130_4350_5245_574c / 0x1_0000_0000_0000 % 0x100 == 48;
    assert 0x3130_4350_5245_574c / 0x100_0000_0000_0000 % 0x100 == 49;
  }

  lemma TimingMagicBytes()
    ensures EightBytes(0x3130_4e45_4245_574c) == [76, 87, 69, 66, 69, 78, 48, 49]
  {
    assert 0x3130_4e45_4245_574c % 0x100 == 76;
    assert 0x3130_4e45_4245_574c / 0x100 % 0x100 == 87;
    assert 0x3130_4e45_4245_574c / 0x1_0000 % 0x100 == 69;
    assert 0x3130_4e45_4245_574c / 0x100_0000 % 0x100 == 66;
    assert 0x3130_4e45_4245_574c / 0x1_0000_0000 % 0x100 == 69;
    assert 0x3130_4e45_4245_574c / 0x100_0000_0000 % 0x100 == 78;
    assert 0x3130_4e45_4245_574c / 0x1_0000_0000_0000 % 0x100 == 48;
    assert 0x3130_4e45_4245_574c / 0x100_0000_0000_0000 % 0x100 == 49;
  }

  lemma WordOfFront(front: seq<Word>, rest: seq<Byte>, i: nat)
    requires i < |front|
    ensures 8 * i + 8 <= |WordsBytes(front) + rest|
    ensures (WordsBytes(front) + rest)[8 * i..8 * i + 8] == WordBytes(front[i])
  {
    WordsBytesSlice(front, i);
  }

  /** The bytes are these words in little-endian order, and then `rest`. */
  ghost predicate OnWire(b: seq<Byte>, h: seq<Word>, rest: seq<Byte>) {
    |b| == 8 * |h| + |rest| && b[8 * |h|..] == rest && forall i: nat | i < |h| :: WordAt(b, i) == h[i]
  }

  lemma HeaderAt(h: seq<Word>, rest: seq<Byte>)
    requires |h| == 16
    ensures OnWire(WordsBytes(h) + rest, h, rest) && (WordsBytes(h) + rest)[..8] == EightBytes(h[0])
  {
    var b := WordsBytes(h) + rest;
    forall i: nat | i < 16
      ensures WordAt(b, i) == h[i]
    {
      WordOfFront(h, rest, i);
    }
    WordOfFront(h, rest, 0);
    WordBytesAre(h[0]);
  }

  /** Where the fields of a frame stand on the wire. The payload is the text of an error or the
      words of any other frame. */
  lemma FrameLayout(f: Frame)
    requires Sendable(f)
    ensures var m, payload := f.metadata, if f.error.Some? then f.error.value else WordsBytes(f.words);
            OnWire(Encode(f),
                   [0x3130_4350_5245_574c, f.version, f.kind, f.requestId, f.operation, f.status, f.scalar,
                    m.maskDimension, m.itemCount, m.radixBlocks, m.messageWidth, m.carryWidth, m.paddingWidth,
                    m.deltaLog2, m.wordCount, |payload|], payload)
    ensures |Encode(f)| >= 128 && Encode(f)[..8] == [76, 87, 69, 82, 80, 67, 48, 49]
  {
    var h := HeaderWords(f, |Payload(f)|);
    HeaderAt(h, Payload(f));
    MagicBytes();
  }

  /** An error frame is of kind 3, has status 1 and carries no metadata. */
  lemma ErrorFrameLayout(version: Word, requestId: Word, operation: Word, text: seq<Byte>)
    requires |text| < 0x1_0000_0000_0000_0000
    ensures OnWire(Encode(ErrorFrame(version, requestId, operation, text)),
                   [0x3130_4350_5245_574c, version, 3, requestId, operation, 1, 0, 0, 0, 0, 0, 0, 0, 0, 0, |text|],
                   text)
  {
    FrameLayout(ErrorFrame(version, requestId, operation, text));
  }

  /** The timing trailer: magic, version 1, the request, twelve durations, the payload size. */
  lemma TimingLayout(requestId: Word, durations: Durations, payloadBytes: Word)
    ensures OnWire(WordsBytes(TimingWords(requestId, durations, payloadBytes)),
                   [0x3130_4e45_4245_574c, 1, requestId] + durations + [payloadBytes], [])
    ensures WordsBytes(TimingWords(requestId, durations, payloadBytes))[..8] == [76, 87, 69, 66, 69, 78, 48, 49]
  {
    var t := TimingWords(requestId, durations, payloadBytes);
    assert WordsBytes(t) + [] == WordsBytes(t);
    HeaderAt(t, []);
    TimingMagicBytes();
  }

  /** What a reader with the given payload limit accepts. `utf8` decides whether an error
      text is valid. */
  ghost predicate Readable(f: Frame, limit: nat, utf8: seq<Byte> -> bool) {
    && Sendable(f) && KnownVersion(f.version) && |Payload(f)| <= limit
    && if f.kind == ERROR
       then f.words == [] && f.error.Some? && utf8(f.error.value)
       else (f.kind == REQUEST || f.kind == RESPONSE) && Valid(f.metadata)
            && f.error.None? && |f.words| == f.metadata.wordCount
  }

  /** The same in numbers: versions 1 and 2; kind 3 with a text and no words, or kinds 1 and 2
      with the words that the metadata announces. */
  lemma AcceptedFrames(f: Frame, limit: nat, utf8: seq<Byte> -> bool)
    ensures Readable(f, limit, utf8) <==>
              && (f.version == 1 || f.version == 2) && (f.kind == 1 || f.kind == 2 || f.kind == 3)
              && (f.error.Some? <==> f.kind == 3)
              && (f.error.Some? ==> |f.error.value| < 0x1_0000_0000_0000_0000 && |f.error.value| <= limit)
              && (f.error.Some? ==> f.words == [] && utf8(f.error.value))
              && (f.error.None? ==> 8 * |f.words| < 0x1_0000_0000_0000_0000 && 8 * |f.words| <= limit)
              && (f.error.None? ==> Valid(f.metadata) && |f.words| == f.metadata.wordCount)
  {
  }

  /** The stream begins with the encoding of `f`, which the reader accepts. */
  ghost predicate Offers(stream: seq<Byte>, f: Frame, limit: nat, utf8: seq<Byte> -> bool) {
    Readable(f, limit, utf8) && Encode(f) <= stream
  }

  // ---------------------------------------------------------------- writers

  /** Consecutive `write_u64` calls. */
  method WriteWords(wire: Wire, words: seq<Word>)
    modifies wire
    ensures wire.bytes == old(wire.bytes) + WordsBytes(words)
  {
    for i := 0 to |words|
      invariant wire.bytes == old(wire.bytes) + WordsBytes(words[..i])
    {
      WordsBytesUpTo(words, i);
      Assoc(old(wire.bytes), WordsBytes(words[..i]), WordBytes(words[i]));
      wire.Write(WordBytes(words[i]));
    }
    assert words[..|words|] == words;
  }


  /** What `write_ciphertext_frame_version` refuses. */
  predicate Writable(f: Frame) {
    && KnownVersion(f.version) && Valid(f.metadata) && |f.words| == f.metadata.wordCount
    && 8 * |f.words| < 0x1_0000_0000_0000_0000
  }

  /** `write_ciphertext_frame_version`; the status field is always zero. */
  method WriteCiphertextFrame(wire: Wire, f: Frame) returns (ok: bool)
    requires f.status == 0 && f.error.None?
    modifies wire
    ensures ok <==> Writable(f)
    ensures wire.bytes == if ok then old(wire.bytes) + Encode(f) else old(wire.bytes)
  {
    if !KnownVersion(f.version) || !Valid(f.metadata) || |f.words| != f.metadata.wordCount
       || 8 * |f.words| >= 0x1_0000_0000_0000_0000 {
      return false;
    }
    WriteWords(wire, HeaderWords(f, 8 * |f.words|));
    WriteWords(wire, f.words);
    Assoc(old(wire.bytes), WordsBytes(HeaderWords(f, 8 * |f.words|)), WordsBytes(f.words));
    ok := true;
  }

  function ErrorFrame(version: Word, requestId: Word, operation: Word, message: seq<Byte>): Frame {
    Frame(version, ERROR, requestId, operation, 1, 0, Metadata(0, 0, 0, 0, 0, 0, 0, 0), [], Some(message))
  }

  /** `write_error_frame_version` */
  method WriteErrorFrame(wire: Wire, version: Word, requestId: Word, operation: Word, message: seq<Byte>)
    returns (ok: bool)
    requires |message| < 0x1_0000_0000_0000_0000
    modifies wire
    ensures ok <==> KnownVersion(version)
    ensures wire.bytes == if ok then old(wire.bytes) + Encode(ErrorFrame(version, requestId, operation, message))
                          else old(wire.bytes)
  {
    if !KnownVersion(version) {
      return false;
    }
    var f := ErrorFrame(version, requestId, operation, message);
    WriteWords(wire, HeaderWords(f, |message|));
    wire.Write(message);
    Assoc(old(wire.bytes), WordsBytes(HeaderWords(f, |message|)), message);
    ok := true;
  }

  // ---------------------------------------------------------------- the reader

  /** Consecutive `read_u64` calls. */
  method ReadWords(wire: Wire, n: nat) returns (words: Option<seq<Word>>)
    modifies wire
    ensures words.Some? <==> 8 * n <= |old(wire.bytes)|
    ensures words.Some? ==>
              && |words.value| == n && WordsBytes(words.value) == old(wire.bytes)[..8 * n]
              && wire.bytes == old(wire.bytes)[8 * n..]
  {
    var ws: seq<Word> := [];
    ghost var s := wire.bytes;
    for i := 0 to n
      invariant 8 * i <= |s| && wire.bytes == s[8 * i..]
      invariant |ws| == i && WordsBytes(ws) == s[..8 * i]
    {
      var data := wire.ReadExact(8);
      if data.None? {
        return None;
      }
      NextWord(s, i, ws, data.value);
      ws := ws + [BytesWord(data.value)];
    }
    return Some(ws);
  }

  lemma NextWord(s: seq<Byte>, i: nat, ws: seq<Word>, data: seq<Byte>)
    requires 8 * i + 8 <= |s| && WordsBytes(ws) == s[..8 * i] && data == s[8 * i..][..8]
    ensures WordsBytes(ws + [BytesWord(data)]) == s[..8 * i + 8]
    ensures s[8 * i..][8..] == s[8 * i + 8..]
  {
    WordsBytesSnoc(ws, BytesWord(data));
    BytesOfWordOfBytes(data);
    assert s[..8 * i] + data == s[..8 * i + 8];
  }

  /** `h` is the header at the front of the stream. */
  ghost predicate IsHeader(s: seq<Byte>, h: seq<Word>) {
    |s| >= 128 && |h| == 16 && h[0] == MAGIC && WordsBytes(h) == s[..128]
  }

  lemma HeaderParts(s: seq<Byte>, magic: seq<Byte>, rest: seq<Word>)
    requires |s| >= 128 && magic == s[..8] == WordBytes(MAGIC) && |rest| == 15 && WordsBytes(rest) == s[8..][..120]
    ensures IsHeader(s, [MAGIC] + rest)
  {
    WordsBytesConcat([MAGIC], rest);
    assert [MAGIC] == [] + [MAGIC];
    WordsBytesSnoc([], MAGIC);
    assert s[..8] + s[8..][..120] == s[..128];
  }

  lemma NoMagicNoFrame(s: seq<Byte>, f: Frame, limit: nat, utf8: seq<Byte> -> bool)
    requires Offers(s, f, limit, utf8)
    ensures |s| >= 128 && s[..8] == WordBytes(MAGIC)
  {
    var h := HeaderWords(f, |Payload(f)|);
    assert s[..|Encode(f)|] == Encode(f);
    FirstWord(h);
    assert s[..8] == Encode(f)[..8] == WordsBytes(h)[..8];
  }

  lemma FirstWord(h: seq<Word>)
    requires |h| > 0
    ensures WordsBytes(h)[..8] == WordBytes(h[0])
  {
    WordsBytesSlice(h, 0);
  }

  /** The frame that header and rest of the stream hold. */
  ghost predicate Decodes(h: seq<Word>, rest: seq<Byte>, f: Frame, limit: nat, utf8: seq<Byte> -> bool)
    requires |h| == 16
  {
    && Readable(f, limit, utf8) && f == FrameOf(h, f.words, f.error)
    && |Payload(f)| == h[15] <= |rest| && rest[..h[15]] == Payload(f)
  }

  lemma WordsBytesIsInjective(a: seq<Word>, b: seq<Word>)
    requires WordsBytes(a) == WordsBytes(b)
    ensures a == b
  {
    WordsOfBytesOfWords(a);
    WordsOfBytesOfWords(b);
  }

  lemma OffersDecodes(s: seq<Byte>, h: seq<Word>, f: Frame, limit: nat, utf8: seq<Byte> -> bool)
    requires IsHeader(s, h) && Offers(s, f, limit, utf8)
    ensures Decodes(h, s[128..], f, limit, utf8)
  {
    var p := Payload(f);
    var g := HeaderWords(f, |p|);
    PrefixParts(s, WordsBytes(g), p);
    WordsBytesIsInjective(g, h);
    FrameOfHeader(f, |p|);
  }

  lemma PrefixParts(s: seq<Byte>, a: seq<Byte>, b: seq<Byte>)
    requires a + b <= s
    ensures |s| >= |a| + |b| && s[..|a|] == a && s[|a|..][..|b|] == b
  {
    assert s[..|a + b|] == a + b;
    assert s[..|a|] == (a + b)[..|a|];
    assert s[|a|..][..|b|] == (a + b)[|a|..];
  }

  lemma DecodesOffers(s: seq<Byte>, h: seq<Word>, f: Frame, limit: nat, utf8: seq<Byte> -> bool)
    requires IsHeader(s, h) && Decodes(h, s[128..], f, limit, utf8)
    ensures Offers(s, f, limit, utf8) && s == Encode(f) + s[128..][h[15]..]
  {
    HeaderOfFrame(h, f.words, f.error);
    assert s == s[..128] + (s[128..][..h[15]] + s[128..][h[15]..]);
    Assoc(s[..128], Payload(f), s[128..][h[15]..]);
  }

  /** The checks of `read_frame` before it reads the payload. */
  predicate HeaderChecks(h: seq<Word>, limit: nat)
    requires |h| == 16
  {
    && KnownVersion(h[1]) && h[15] <= limit
    && (h[2] != ERROR ==>
          && (h[2] == REQUEST || h[2] == RESPONSE)
          && Valid(MetadataOf(h)) && h[15] == 8 * (h[14] as nat))
  }

  lemma DecodedFrame(h: seq<Word>, rest: seq<Byte>, f: Frame, limit: nat, utf8: seq<Byte> -> bool)
    requires |h| == 16 && Decodes(h, rest, f, limit, utf8)
    ensures HeaderChecks(h, limit) && h[15] <= |rest|
    ensures h[2] == ERROR ==> utf8(rest[..h[15]]) && f == FrameOf(h, [], Some(rest[..h[15]]))
    ensures h[2] != ERROR ==> WordsBytes(f.words) == rest[..h[15]] && f == FrameOf(h, f.words, None)
  {
  }

  lemma ErrorDecodes(h: seq<Word>, rest: seq<Byte>, limit: nat, utf8: seq<Byte> -> bool)
    requires |h| == 16 && HeaderChecks(h, limit) && h[2] == ERROR && h[15] <= |rest| && utf8(rest[..h[15]])
    ensures Decodes(h, rest, FrameOf(h, [], Some(rest[..h[15]])), limit, utf8)
  {
  }

  lemma WordsDecode(h: seq<Word>, rest: seq<Byte>, words: seq<Word>, limit: nat, utf8: seq<Byte> -> bool)
    requires |h| == 16 && HeaderChecks(h, limit) && h[2] != ERROR && h[15] <= |rest|
    requires WordsBytes(words) == rest[..h[15]]
    ensures Decodes(h, rest, FrameOf(h, words, None), limit, utf8)
  {
  }

  /** The only frame that header and rest can hold. */
  lemma DecodedFrameIs(h: seq<Word>, rest: seq<Byte>, words: seq<Word>, f: Frame, limit: nat, utf8: seq<Byte> -> bool)
    requires |h| == 16 && Decodes(h, rest, f, limit, utf8) && h[2] != ERROR && WordsBytes(words) == rest[..h[15]]
    ensures f == FrameOf(h, words, None)
  {
    DecodedFrame(h, rest, f, limit, utf8);
    WordsBytesIsInjective(f.words, words);
  }

  /** `decodes` stands for `Decodes`. */
  ghost predicate Decoder(decodes: Frame -> bool, h: seq<Word>, rest: seq<Byte>, limit: nat, utf8: seq<Byte> -> bool)
    requires |h| == 16
  {
    forall f: Frame {:trigger Decodes(h, rest, f, limit, utf8)} :: decodes(f) <==> Decodes(h, rest, f, limit, utf8)
  }

  ghost predicate Nothing(decodes: Frame -> bool) {
    forall f: Frame :: !decodes(f)
  }

  /** `f` is the one frame that decodes. */
  ghost predicate Only(decodes: Frame -> bool, f: Frame) {
    decodes(f) && forall g: Frame | decodes(g) :: g == f
  }

  /** The reasons to give up. */
  lemma Undecodable(decodes: Frame -> bool, h: seq<Word>, rest: seq<Byte>, limit: nat, utf8: seq<Byte> -> bool)
    requires |h| == 16 && Decoder(decodes, h, rest, limit, utf8)
    requires HeaderChecks(h, limit) && h[15] <= |rest| ==> h[2] == ERROR && !utf8(rest[..h[15]])
    ensures Nothing(decodes)
  {
    forall f: Frame
      ensures !decodes(f)
    {
      if Decodes(h, rest, f, limit, utf8) {
        DecodedFrame(h, rest, f, limit, utf8);
      }
    }
  }

  lemma OnlyError(decodes: Frame -> bool, h: seq<Word>, rest: seq<Byte>, limit: nat, utf8: seq<Byte> -> bool)
    requires |h| == 16 && Decoder(decodes, h, rest, limit, utf8)
    requires HeaderChecks(h, limit) && h[2] == ERROR && h[15] <= |rest| && utf8(rest[..h[15]])
    ensures Only(decodes, FrameOf(h, [], Some(rest[..h[15]])))
  {
    ErrorDecodes(h, rest, limit, utf8);
    forall g: Frame | decodes(g)
      ensures g == FrameOf(h, [], Some(rest[..h[15]]))
    {
      assert Decodes(h, rest, g, limit, utf8);
      DecodedFrame(h, rest, g, limit, utf8);
    }
  }

  lemma OnlyWords(decodes: Frame -> bool, h: seq<Word>, rest: seq<Byte>, words: seq<Word>, limit: nat,
                  utf8: seq<Byte> -> bool)
    requires |h| == 16 && Decoder(decodes, h, rest, limit, utf8)
    requires HeaderChecks(h, limit) && h[2] != ERROR && h[15] <= |rest| && WordsBytes(words) == rest[..h[15]]
    ensures Only(decodes, FrameOf(h, words, None))
  {
    WordsDecode(h, rest, words, limit, utf8);
    forall g: Frame | decodes(g)
      ensures g == FrameOf(h, words, None)
    {
      assert Decodes(h, rest, g, limit, utf8);
      DecodedFrameIs(h, rest, words, g, limit, utf8);
    }
  }

  /** The second half of `read_frame`. */
  method ReadBody(wire: Wire, h: seq<Word>, limit: nat, utf8: seq<Byte> -> bool, ghost decodes: Frame -> bool)
    returns (frame: Option<Frame>)
    requires |h| == 16 && Decoder(decodes, h, wire.bytes, limit, utf8)
    modifies wire
    ensures frame.None? ==> Nothing(decodes)
    ensures frame.Some? ==> Only(decodes, frame.value) && h[15] <= |old(wire.bytes)|
                            && wire.bytes == old(wire.bytes)[h[15]..]
  {
    ghost var rest := wire.bytes;
    if !HeaderChecks(h, limit) {
      Undecodable(decodes, h, rest, limit, utf8);
      return None;
    }
    var payload := wire.ReadExact(h[15]);
    if payload.None? || (h[2] == ERROR && !utf8(payload.value)) {
      Undecodable(decodes, h, rest, limit, utf8);
      return None;
    }
    if h[2] == ERROR {
      OnlyError(decodes, h, rest, limit, utf8);
      return Some(FrameOf(h, [], payload));
    }
    var words := PayloadWords(payload.value, h, limit);
    OnlyWords(decodes, h, rest, words, limit, utf8);
    return Some(FrameOf(h, words, None));
  }

  /** The `chunks_exact(8)` of a payload whose size was checked. */
  method PayloadWords(payload: seq<Byte>, h: seq<Word>, limit: nat) returns (words: seq<Word>)
    requires |h| == 16 && HeaderChecks(h, limit) && h[2] != ERROR && |payload| == h[15]
    ensures WordsBytes(words) == payload
  {
    words := BytesWords(payload);
    BytesOfWordsOfBytes(payload);
  }

  /** `read_frame`: returns exactly the frame that the stream offers, and consumes its
      encoding and nothing else. */
  method ReadFrame(wire: Wire, limit: nat, utf8: seq<Byte> -> bool) returns (frame: Option<Frame>)
    modifies wire
    ensures forall f: Frame :: frame == Some(f) <==> Offers(old(wire.bytes), f, limit, utf8)
    ensures frame.Some? ==> Sendable(frame.value) && old(wire.bytes) == Encode(frame.value) + wire.bytes
  {
    ghost var s := wire.bytes;
    forall f: Frame | Offers(s, f, limit, utf8)
      ensures |s| >= 128 && s[..8] == WordBytes(MAGIC)
    {
      NoMagicNoFrame(s, f, limit, utf8);
    }
    var magic := wire.ReadExact(8);
    if magic.None? || magic.value != WordBytes(MAGIC) {
      return None;
    }
    var fields := ReadWords(wire, 15);
    if fields.None? {
      return None;
    }
    var h := [MAGIC] + fields.value;
    HeaderParts(s, magic.value, fields.value);
    assert wire.bytes == s[8..][120..] == s[128..];
    ghost var decodes := (f: Frame) => Decodes(h, s[128..], f, limit, utf8);
    frame := ReadBody(wire, h, limit, utf8, decodes);
    OfferedFrame(s, h, frame, limit, utf8, decodes);
  }

  lemma OfferedFrame(s: seq<Byte>, h: seq<Word>, frame: Option<Frame>, limit: nat, utf8: seq<Byte> -> bool,
                     decodes: Frame -> bool)
    requires IsHeader(s, h) && Decoder(decodes, h, s[128..], limit, utf8)
    requires frame.None? ==> Nothing(decodes)
    requires frame.Some? ==> Only(decodes, frame.value)
    ensures forall f: Frame :: frame == Some(f) <==> Offers(s, f, limit, utf8)
    ensures frame.Some? ==>
              Sendable(frame.value) && h[15] <= |s[128..]| && s == Encode(frame.value) + s[128..][h[15]..]
  {
    forall f: Frame
      ensures frame == Some(f) <==> Offers(s, f, limit, utf8)
    {
      assert decodes(f) <==> Decodes(h, s[128..], f, limit, utf8);
      OffersIffDecodes(s, h, f, limit, utf8);
    }
    if frame.Some? {
      assert Decodes(h, s[128..], frame.value, limit, utf8);
      DecodesOffers(s, h, frame.value, limit, utf8);
    }
  }

  lemma OffersIffDecodes(s: seq<Byte>, h: seq<Word>, f: Frame, limit: nat, utf8: seq<Byte> -> bool)
    requires IsHeader(s, h)
    ensures Offers(s, f, limit, utf8) <==> Decodes(h, s[128..], f, limit, utf8)
  {
    if Offers(s, f, limit, utf8) {
      OffersDecodes(s, h, f, limit, utf8);
    }
    if Decodes(h, s[128..], f, limit, utf8) {
      DecodesOffers(s, h, f, limit, utf8);
    }
  }

  // ---------------------------------------------------------------- the codec

  /** Reading what was written returns the frame and leaves what follows. */
  lemma EncodingIsOffered(f: Frame, tail: seq<Byte>, limit: nat, utf8: seq<Byte> -> bool)
    requires Readable(f, limit, utf8)
    ensures Offers(Encode(f) + tail, f, limit, utf8)
  {
  }

  /** No stream offers two frames. */
  lemma OfferIsUnique(s: seq<Byte>, f: Frame, g: Frame, limit: nat, utf8: seq<Byte> -> bool)
    requires Offers(s, f, limit, utf8) && Offers(s, g, limit, utf8)
    ensures f == g
  {
    var h := HeaderWords(f, |Payload(f)|);
    PrefixParts(s, WordsBytes(h), Payload(f));
    OffersDecodes(s, h, f, limit, utf8);
    OffersDecodes(s, h, g, limit, utf8);
    DecodedFrame(h, s[128..], f, limit, utf8);
    DecodedFrame(h, s[128..], g, limit, utf8);
    if h[2] != ERROR {
      WordsBytesIsInjective(f.words, g.words);
    }
  }

  predicate AnyText(text: seq<Byte>) {
    true
  }

  /** Some reader accepts the frame. */
  ghost predicate Codable(f: Frame) {
    Readable(f, |Payload(f)|, AnyText)
  }

  /** What a given reader asks of a codable frame. */
  ghost predicate Admits(f: Frame, limit: nat, utf8: seq<Byte> -> bool) {
    |Payload(f)| <= limit && (f.kind == ERROR && f.error.Some? ==> utf8(f.error.value))
  }

  lemma ReadableIffAdmitted(f: Frame, limit: nat, utf8: seq<Byte> -> bool)
    ensures Readable(f, limit, utf8) <==> Codable(f) && Admits(f, limit, utf8)
  {
  }

  lemma OfferToAnyone(s: seq<Byte>, f: Frame, limit: nat, utf8: seq<Byte> -> bool, roomy: nat)
    requires Offers(s, f, limit, utf8) && limit <= roomy
    ensures Offers(s, f, roomy, AnyText)
  {
  }

  /** A codable frame, whatever follows it, is the only frame on offer, and exactly to the
      readers that admit it. */
  lemma OnlyOffer(f: Frame, tail: seq<Byte>, g: Frame, limit: nat, utf8: seq<Byte> -> bool)
    requires Codable(f)
    ensures Offers(Encode(f) + tail, g, limit, utf8) <==> g == f && Admits(f, limit, utf8)
  {
    var s := Encode(f) + tail;
    ReadableIffAdmitted(f, limit, utf8);
    if Offers(s, g, limit, utf8) {
      var roomy := limit + |Payload(f)|;
      OfferToAnyone(s, g, limit, utf8, roomy);
      EncodingIsOffered(f, tail, |Payload(f)|, AnyText);
      OfferToAnyone(s, f, |Payload(f)|, AnyText, roomy);
      OfferIsUnique(s, g, f, roomy, AnyText);
    }
    if Admits(f, limit, utf8) {
      EncodingIsOffered(f, tail, limit, utf8);
    }
  }

  lemma SameTail(a: seq<Byte>, b: seq<Byte>, c: seq<Byte>)
    requires a + b == a + c
    ensures b == c
  {
    assert (a + b)[|a|..] == b && (a + c)[|a|..] == c;
  }

  method ReadWritten(wire: Wire, f: Frame, ghost tail: seq<Byte>, limit: nat, utf8: seq<Byte> -> bool)
    returns (frame: Option<Frame>)
    requires Codable(f) && wire.bytes == Encode(f) + tail
    modifies wire
    ensures frame.Some? <==> Admits(f, limit, utf8)
    ensures frame.Some? ==> frame.value == f && wire.bytes == tail
  {
    OnlyOffer(f, tail, f, limit, utf8);
    frame := ReadFrame(wire, limit, utf8);
    if frame.Some? {
      OnlyOffer(f, tail, frame.value, limit, utf8);
      SameTail(Encode(f), tail, wire.bytes);
    }
  }

  /** Writing a request or response and reading it back returns the frame and leaves what
      followed, exactly if it is valid and its payload is within the reader's limit. */
  method WriteThenRead(f: Frame, tail: seq<Byte>, limit: nat, utf8: seq<Byte> -> bool)
    returns (frame: Option<Frame>, rest: seq<Byte>)
    requires f.status == 0 && f.error.None? && (f.kind == REQUEST || f.kind == RESPONSE)
    ensures frame.Some? <==> Writable(f) && 8 * |f.words| <= limit
    ensures frame.Some? ==> frame.value == f && rest == tail
  {
    var wire := new Wire();
    var written := WriteCiphertextFrame(wire, f);
    if !written {
      return None, [];
    }
    assert wire.bytes == Encode(f);
    wire.Write(tail);
    WritableIsCodable(f);
    frame := ReadWritten(wire, f, tail, limit, utf8);
    rest := wire.bytes;
  }

  lemma WritableIsCodable(f: Frame)
    requires Writable(f) && f.error.None? && (f.kind == REQUEST || f.kind == RESPONSE)
    ensures Codable(f) && |Payload(f)| == 8 * |f.words|
  {
  }

  /** The same for error frames: they come back exactly if the version is known and the text
      is valid and within the limit. */
  method WriteErrorThenRead(version: Word, requestId: Word, operation: Word, message: seq<Byte>, tail: seq<Byte>,
                            limit: nat, utf8: seq<Byte> -> bool) returns (frame: Option<Frame>, rest: seq<Byte>)
    requires |message| < 0x1_0000_0000_0000_0000
    ensures frame.Some? <==> KnownVersion(version) && |message| <= limit && utf8(message)
    ensures frame.Some? ==> frame.value == ErrorFrame(version, requestId, operation, message) && rest == tail
  {
    var wire := new Wire();
    var written := WriteErrorFrame(wire, version, requestId, operation, message);
    if !written {
      return None, [];
    }
    var f := ErrorFrame(version, requestId, operation, message);
    assert wire.bytes == Encode(f);
    wire.Write(tail);
    frame := ReadWritten(wire, f, tail, limit, utf8);
    rest := wire.bytes;
  }

  /** An accepted request or response with status zero is written again as exactly the bytes
      that were read. */
  method ReadThenWrite(source: Wire, target: Wire, limit: nat, utf8: seq<Byte> -> bool) returns (frame: Option<Frame>)
    requires source != target
    modifies source, target
    ensures frame.Some? && frame.value.kind != ERROR && frame.value.status == 0 ==>
              old(target.bytes) <= target.bytes
              && old(source.bytes) == target.bytes[|old(target.bytes)|..] + source.bytes
  {
    frame := ReadFrame(source, limit, utf8);
    if frame.Some? && frame.value.kind != ERROR && frame.value.status == 0 {
      assert Offers(old(source.bytes), frame.value, limit, utf8);
      var written := WriteCiphertextFrame(target, frame.value);
    }
  }

  // ---------------------------------------------------------------- the timing trailer

  type Durations = d: seq<Word> | |d| == 12 witness ZeroWords(12)

  function TimingWords(requestId: Word, durations: Durations, payloadBytes: Word): (t: seq<Word>)
    ensures |t| == 16
  {
    [TIMING_MAGIC, 1, requestId] + durations + [payloadBytes]
  }

  /** `write_server_timing` */
  method WriteTiming(wire: Wire, requestId: Word, durations: Durations, payloadBytes: Word)
    modifies wire
    ensures wire.bytes == old(wire.bytes) + WordsBytes(TimingWords(requestId, durations, payloadBytes))
  {
    WriteWords(wire, TimingWords(requestId, durations, payloadBytes));
  }
}
