/** 512-bit stream packets and the two packers that fill them.

    Beats of ciphertext carry eight 64-bit words; beats of plaintext carry up to 64
    bytes with one TKEEP bit each. A task ends with a separate packet whose TUSER
    has a non-zero high nibble.
 */
module Stream {
  import opened Numbers

  datatype RawPacket = RawPacket(
    data: seq<Byte>,
    keep: seq<bool>,
    strb: seq<bool>,
    user: nat,
    last: bool,
    id: nat,
    dest: nat)

  function Flags(n: nat): (f: seq<bool>)
    requires n <= 64
    ensures |f| == 64 && forall i | 0 <= i < 64 :: f[i] <==> i < n
  {
    seq(64, i => i < n)
  }

  type Packet = p: RawPacket | |p.data| == 64 && |p.keep| == 64 && |p.strb| == 64
    witness RawPacket(Zeros(64), Flags(0), Flags(0), 0, false, 0, 0)

  /** `is_suda_done_packet`: user.range(7, 4) != 0 */
  predicate IsDone(p: Packet) {
    (p.user / 16) % 16 != 0
  }

  /** A payload packet with the first `n` byte lanes valid. */
  function Payload(data: seq<Byte>, n: nat): (p: Packet)
    requires |data| == 64 && n <= 64
    ensures !IsDone(p)
  {
    RawPacket(data, Flags(n), Flags(n), 0, false, 0, 0)
  }

  /** A terminator made by an operator: TUSER = 0xff, TLAST = 1. */
  function Terminator(data: seq<Byte>): (p: Packet)
    requires |data| == 64
    ensures IsDone(p)
  {
    RawPacket(data, Flags(64), Flags(64), 0xff, true, 0, 0)
  }

  /** Bits 63..0 hold a tag, bits 95..64 the error code, the rest is zero. */
  function ErrorByte(tag: Word, code: nat, i: nat): Byte {
    if i < 8 then (tag / Pow256(i)) % 256
    else if i < 12 then (code / Pow256(i - 8)) % 256
    else 0
  }

  function ErrorPacket(tag: Word, code: nat): (p: Packet)
    ensures IsDone(p)
  {
    Terminator(seq(64, i requires 0 <= i < 64 => ErrorByte(tag, code, i)))
  }

  function Lane(p: Packet, lane: nat): (w: Word)
    requires lane < 8
  {
    WordAt(p.data, lane)
  }

  /** An output stream. */
  class OutStream {
    var beats: seq<Packet>

    constructor ()
      ensures beats == []
    {
      beats := [];
    }

    method Write(p: Packet)
      modifies this
      ensures beats == old(beats) + [p]
    {
      beats := beats + [p];
    }
  }

  // ---------------------------------------------------------------- words

  /** Up to eight words followed by zeros. */
  function PadWords(part: seq<Word>): (data: seq<Byte>)
    requires |part| <= 8
    ensures |data| == 64
  {
    WordsBytes(part) + Zeros(64 - 8 * |part|)
  }

  function WordBeat(part: seq<Word>): (p: Packet)
    requires |part| <= 8
  {
    Payload(PadWords(part), 64)
  }

  /** The full beats of a word sequence. */
  function FullBeats(ws: seq<Word>): (beats: seq<Packet>)
    ensures |beats| == |ws| / 8
  {
    seq(|ws| / 8, k requires 0 <= k < |ws| / 8 => WordBeat(ws[8 * k..8 * k + 8]))
  }

  /** The words that do not fill a beat. */
  function Rest(ws: seq<Word>): (part: seq<Word>)
    ensures |part| == |ws| % 8
  {
    ws[|ws| - |ws| % 8..]
  }

  /** All beats of a word sequence, the last one zero filled. */
  function Beats(ws: seq<Word>): (beats: seq<Packet>) {
    FullBeats(ws) + if |ws| % 8 == 0 then [] else [WordBeat(Rest(ws))]
  }

  lemma PadWordsSnoc(part: seq<Word>, w: Word)
    requires |part| < 8
    ensures var c := 8 * |part|;
      PadWords(part)[..c] + WordBytes(w) + PadWords(part)[c + 8..] == PadWords(part + [w])
  {
    WordsBytesSnoc(part, w);
  }

  lemma SlicesOfFront<T>(s: seq<T>, x: T, size: nat)
    requires size > 0
    ensures forall k: nat | size * k + size <= |s| ::
              (s + [x])[size * k..size * k + size] == s[size * k..size * k + size]
  {
  }

  lemma FullBeatsStay(ws: seq<Word>, w: Word)
    requires (|ws| + 1) % 8 != 0
    ensures FullBeats(ws + [w]) == FullBeats(ws) && Rest(ws + [w]) == Rest(ws) + [w]
  {
    SlicesOfFront(ws, w, 8);
    var n := |ws| / 8;
    assert (|ws| + 1) / 8 == n;
    forall k: nat | k < n
      ensures FullBeats(ws + [w])[k] == FullBeats(ws)[k]
    {
    }
  }

  lemma FullBeatsGrow(ws: seq<Word>, w: Word)
    requires (|ws| + 1) % 8 == 0
    ensures FullBeats(ws + [w]) == FullBeats(ws) + [WordBeat(Rest(ws) + [w])]
  {
    SlicesOfFront(ws, w, 8);
    var n := |ws| / 8;
    assert (|ws| + 1) / 8 == n + 1;
    assert (ws + [w])[8 * n..8 * n + 8] == Rest(ws) + [w];
    forall k: nat | k < n
      ensures FullBeats(ws + [w])[k] == FullBeats(ws)[k]
    {
    }
  }

  lemma BeatsSnoc(ws: seq<Word>, w: Word)
    ensures (|ws| + 1) % 8 != 0 ==> FullBeats(ws + [w]) == FullBeats(ws) && Rest(ws + [w]) == Rest(ws) + [w]
    ensures (|ws| + 1) % 8 == 0 ==> FullBeats(ws + [w]) == FullBeats(ws) + [WordBeat(Rest(ws) + [w])]
  {
    if (|ws| + 1) % 8 != 0 {
      FullBeatsStay(ws, w);
    } else {
      FullBeatsGrow(ws, w);
    }
  }

  /** A word that ends the sequence ends its last beat. */
  lemma BeatsEnd(ws: seq<Word>, w: Word)
    ensures Beats(ws + [w]) == FullBeats(ws) + [WordBeat(Rest(ws) + [w])]
  {
    BeatsSnoc(ws, w);
  }

  /** A beat returns the words that were packed into it. */
  lemma BeatLane(ws: seq<Word>, k: nat, lane: nat)
    requires 8 * k + 8 <= |ws| && lane < 8
    ensures Lane(FullBeats(ws)[k], lane) == ws[8 * k + lane]
  {
    var part := ws[8 * k..8 * k + 8];
    assert PadWords(part) == WordsBytes(part);
    WordsBytesAt(part, lane);
  }

  lemma LaneOfBeat(part: seq<Word>, lane: nat)
    requires lane < |part| <= 8
    ensures Lane(WordBeat(part), lane) == part[lane]
  {
    WordsBytesAt(part, lane);
    assert PadWords(part)[8 * lane..8 * lane + 8] == WordsBytes(part)[8 * lane..8 * lane + 8];
  }

  /** The same for a last beat that is not full. */
  lemma BeatsLane(ws: seq<Word>, j: nat)
    requires j < |ws|
    ensures j / 8 < |Beats(ws)| && Lane(Beats(ws)[j / 8], j % 8) == ws[j]
  {
    if j / 8 < |ws| / 8 {
      BeatLane(ws, j / 8, j % 8);
    } else {
      LaneOfBeat(Rest(ws), j % 8);
    }
  }

  lemma OneMoreZero(before: seq<Word>, i: nat)
    ensures before + ZeroWords(i) + [0] == before + ZeroWords(i + 1)
  {
    assert ZeroWords(i) + [0] == ZeroWords(i + 1);
  }

  /** `packet_data` and `packet_word_count` of lwe_encrypt with the functions that
      update them. */
  class WordPacker {
    const out: OutStream
    var data: seq<Byte>
    var count: nat
    ghost const base: seq<Packet>
    ghost var words: seq<Word>

    /** `words` were written since the packet buffer was created, and their full
        beats are in the stream. */
    ghost predicate Valid()
      reads this, out
    {
      && count == |words| % 8
      && data == PadWords(Rest(words))
      && out.beats == base + FullBeats(words)
    }

    constructor (out: OutStream)
      ensures Valid() && words == [] && base == out.beats && this.out == out
    {
      this.out := out;
      base := out.beats;
      data, count, words := Zeros(64), 0, [];
    }

    method Flush()
      requires |data| == 64
      modifies this, out
      ensures out.beats == old(out.beats) + if old(count) == 0 then [] else [Payload(old(data), 64)]
      ensures old(count) == 0 ==> data == old(data)
      ensures old(count) != 0 ==> data == Zeros(64)
      ensures count == 0 && words == old(words)
    {
      if count != 0 {
        out.Write(Payload(data, 64));
        data, count := Zeros(64), 0;
      }
    }

    /** The word goes behind the words that wait for their beat. */
    method Put(w: Word)
      requires Valid()
      modifies this`data, this`count
      ensures data == PadWords(Rest(words) + [w]) && count == old(count) + 1
    {
      PadWordsSnoc(Rest(words), w);
      data := data[..8 * count] + WordBytes(w) + data[8 * count + 8..];
      count := count + 1;
    }

    /** `write_output_word` without a forced flush. */
    method WriteWord(w: Word)
      requires Valid()
      modifies this, out
      ensures Valid() && words == old(words) + [w]
    {
      BeatsSnoc(words, w);
      Put(w);
      words := words + [w];
      if count == 8 {
        Flush();
        assert Zeros(64) == PadWords([]);
        assert Rest(words) == [];
      }
    }

    /** A loop that writes a whole buffer. */
    method WriteArray(a: array<Word>)
      requires Valid()
      modifies this, out
      ensures Valid() && words == old(words) + a[..]
    {
      ghost var before := words;
      var i := 0;
      while i < a.Length
        invariant i <= a.Length && Valid() && words == before + a[..i]
      {
        WriteWord(a[i]);
        i := i + 1;
      }
      assert a[..a.Length] == a[..];
    }

    /** A loop of at most `limit` rounds that stops after `n` zero words. */
    method WriteZeros(n: nat, limit: nat)
      requires Valid() && n <= limit
      modifies this, out
      ensures Valid() && words == old(words) + ZeroWords(n)
    {
      ghost var before := words;
      var i := 0;
      while i < limit
        invariant i <= n && Valid() && words == before + ZeroWords(i)
        decreases limit - i
      {
        if i >= n {
          break;
        }
        WriteWord(0);
        OneMoreZero(before, i);
        i := i + 1;
      }
    }

    /** `write_output_word` with a forced flush. */
    method WriteLastWord(w: Word)
      requires Valid()
      modifies this, out
      ensures words == old(words) + [w] && out.beats == base + Beats(words)
    {
      BeatsEnd(words, w);
      Put(w);
      Assoc(base, FullBeats(words), [WordBeat(Rest(words) + [w])]);
      words := words + [w];
      Flush();
    }
  }

  // ---------------------------------------------------------------- bytes

  function ByteBeat(part: seq<Byte>): (p: Packet)
    requires |part| <= 64
  {
    Payload(part + Zeros(64 - |part|), |part|)
  }

  function FullByteBeats(bs: seq<Byte>): (beats: seq<Packet>)
    ensures |beats| == |bs| / 64
  {
    seq(|bs| / 64, k requires 0 <= k < |bs| / 64 => ByteBeat(bs[64 * k..64 * k + 64]))
  }

  function RestBytes(bs: seq<Byte>): (part: seq<Byte>)
    ensures |part| == |bs| % 64
  {
    bs[|bs| - |bs| % 64..]
  }

  function ByteBeats(bs: seq<Byte>): (beats: seq<Packet>) {
    FullByteBeats(bs) + if |bs| % 64 == 0 then [] else [ByteBeat(RestBytes(bs))]
  }

  lemma ByteBeatsSnoc(bs: seq<Byte>, b: Byte)
    ensures (|bs| + 1) % 64 != 0 ==> FullByteBeats(bs + [b]) == FullByteBeats(bs)
    ensures (|bs| + 1) % 64 != 0 ==> RestBytes(bs + [b]) == RestBytes(bs) + [b]
    ensures (|bs| + 1) % 64 == 0 ==>
              FullByteBeats(bs + [b]) == FullByteBeats(bs) + [ByteBeat(RestBytes(bs) + [b])]
  {
    var all := bs + [b];
    forall k | 0 <= k < |bs| / 64
      ensures all[64 * k..64 * k + 64] == bs[64 * k..64 * k + 64]
    {
    }
    if |all| % 64 == 0 {
      var k := |bs| / 64;
      assert all[64 * k..64 * k + 64] == RestBytes(bs) + [b];
    }
  }

  /** `clear_packet_data` and `clear_packet_byte_count` of lwe_decrypt. */
  class BytePacker {
    const out: OutStream
    var data: seq<Byte>
    var count: nat
    ghost const base: seq<Packet>
    ghost var bytes: seq<Byte>

    ghost predicate Valid()
      reads this, out
    {
      && count == |bytes| % 64
      && data == RestBytes(bytes) + Zeros(64 - count)
      && out.beats == base + FullByteBeats(bytes)
    }

    constructor (out: OutStream)
      ensures Valid() && bytes == [] && base == out.beats && this.out == out
    {
      this.out := out;
      base := out.beats;
      data, count, bytes := Zeros(64), 0, [];
    }

    /** `flush_clear_packet` */
    method Emit()
      requires |data| == 64 && count <= 64
      modifies this, out
      ensures out.beats
           == old(out.beats) + if old(count) == 0 then [] else [Payload(old(data), old(count))]
      ensures old(count) == 0 ==> data == old(data)
      ensures old(count) != 0 ==> data == Zeros(64)
      ensures count == 0 && bytes == old(bytes)
    {
      if count == 0 {
        return;
      }
      var keep := Flags(0);
      for lane := 0 to 64
        invariant |keep| == 64
        invariant forall i | 0 <= i < 64 :: keep[i] <==> i < lane && i < count
      {
        if lane < count {
          keep := keep[lane := true];
        }
      }
      assert keep == Flags(count);
      out.Write(RawPacket(data, keep, keep, 0, false, 0, 0));
      data, count := Zeros(64), 0;
    }

    /** The flush before a finish packet is forwarded. */
    method Flush()
      requires Valid()
      modifies this, out
      ensures out.beats == base + ByteBeats(bytes) && bytes == old(bytes)
    {
      Emit();
    }

    /** `write_clear_byte` */
    method WriteByte(b: Byte)
      requires Valid()
      modifies this, out
      ensures Valid() && bytes == old(bytes) + [b]
    {
      ByteBeatsSnoc(bytes, b);
      data := data[count := b];
      count := count + 1;
      assert data == (RestBytes(bytes) + [b]) + Zeros(64 - count);
      bytes := bytes + [b];
      if count == 64 {
        Emit();
        assert RestBytes(bytes) == [];
      }
    }
  }

  // ---------------------------------------------------------------- valid lanes

  /** The valid bytes among the first `n` lanes of a packet. */
  function ValidLanes(p: Packet, n: nat): (bs: seq<Byte>)
    requires n <= 64
    ensures |bs| <= n
  {
    if n == 0 then []
    else ValidLanes(p, n - 1) + if p.keep[n - 1] then [p.data[n - 1]] else []
  }

  function ValidBytes(packets: seq<Packet>): (bs: seq<Byte>) {
    if packets == [] then []
    else ValidBytes(packets[..|packets| - 1]) + ValidLanes(packets[|packets| - 1], 64)
  }

  lemma ValidBytesSnoc(packets: seq<Packet>, p: Packet)
    ensures ValidBytes(packets + [p]) == ValidBytes(packets) + ValidLanes(p, 64)
  {
    assert (packets + [p])[..|packets|] == packets;
  }

  lemma {:induction false} ByteBeatLanes(part: seq<Byte>, n: nat)
    requires |part| <= 64 && n <= 64
    ensures ValidLanes(ByteBeat(part), n) == part[..if n <= |part| then n else |part|]
  {
    if n > 0 {
      ByteBeatLanes(part, n - 1);
    }
  }

  lemma ByteBeatsStep(bs: seq<Byte>, k: nat)
    requires 64 * k < |bs| <= 64 * k + 64
    ensures ByteBeats(bs) == ByteBeats(bs[..64 * k]) + [ByteBeat(bs[64 * k..])]
  {
    var front := bs[..64 * k];
    forall j | 0 <= j < k
      ensures front[64 * j..64 * j + 64] == bs[64 * j..64 * j + 64]
    {
    }
    if |bs| == 64 * k + 64 {
      assert bs[64 * k..64 * k + 64] == bs[64 * k..];
      assert FullByteBeats(bs) == FullByteBeats(front) + [ByteBeat(bs[64 * k..])];
    } else {
      assert FullByteBeats(bs) == FullByteBeats(front);
    }
  }

  lemma LanesOfBeat(part: seq<Byte>)
    requires |part| <= 64
    ensures ValidLanes(ByteBeat(part), 64) == part
  {
    ByteBeatLanes(part, 64);
    assert part[..|part|] == part;
  }

  lemma BytesOfLastBeat(bs: seq<Byte>, k: nat)
    requires 64 * k < |bs| <= 64 * k + 64
    ensures ValidBytes(ByteBeats(bs)) == ValidBytes(ByteBeats(bs[..64 * k])) + bs[64 * k..]
  {
    ByteBeatsStep(bs, k);
    ValidBytesSnoc(ByteBeats(bs[..64 * k]), ByteBeat(bs[64 * k..]));
    LanesOfBeat(bs[64 * k..]);
  }

  lemma Halves(bs: seq<Byte>, m: nat)
    requires m <= |bs|
    ensures bs[..m] + bs[m..] == bs
  {
  }

  /** The packed beats carry exactly the bytes that were packed. */
  lemma {:induction false} ByteBeatsCarryBytes(bs: seq<Byte>)
    ensures ValidBytes(ByteBeats(bs)) == bs
    decreases |bs|
  {
    if |bs| > 0 {
      var k := (|bs| - 1) / 64;
      ByteBeatsCarryBytes(bs[..64 * k]);
      BytesOfLastBeat(bs, k);
      Halves(bs, 64 * k);
    }
  }
}
