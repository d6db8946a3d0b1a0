/** From the encryption host's output buffer to a dump and back: the native buffer that
    the decryption host rebuilds is the one that was verified.
 */
module DumpRoundTrip {
  import opened Numbers
  import opened NativeLayout
  import opened HostReference
  import opened HostVerifier
  import opened Dump

  lemma SlotIsNativeAtIndex(raw: seq<Byte>, l: nat)
    requires |raw| % 8 == 0 && 24576 * l + 24576 <= |raw|
    ensures SlotOf(raw, l) == NativeAtIndex(raw, l)
  {
  }

  lemma RepackedSlot(native: seq<Byte>, words: seq<Word>, l: nat)
    requires |native| % 8 == 0 && 24576 * l + 24576 <= |native| && 2049 * l + 2049 <= |words|
    requires Repacked(native, words, l)
    ensures ToLogical(NativeAtIndex(native, l)) == LogicalAt(words, l)
  {
    SlotIsNativeAtIndex(native, l);
    LogicalOfNative(LogicalAt(words, l));
  }

  lemma PrefixGrows(words: seq<Word>, l: nat)
    requires 2049 * l + 2049 <= |words|
    ensures words[..2049 * l] + LogicalAt(words, l) == words[..2049 * (l + 1)]
  {
  }

  lemma {:induction false} ConcatenationOfParts(native: seq<Byte>, words: seq<Word>, l: nat)
    requires 24576 * l <= |native| && 2049 * l <= |words|
    requires forall m: nat | m < l :: ToLogical(NativeAtIndex(native, m)) == LogicalAt(words, m)
    ensures LogicalWords(native, l) == words[..2049 * l]
  {
    if l > 0 {
      ConcatenationOfParts(native, words, l - 1);
      PrefixGrows(words, l - 1);
    }
  }

  lemma AllSlotsRepacked(native: seq<Byte>, words: seq<Word>, n: nat)
    requires |native| == 24576 * n && |words| == 2049 * n
    requires forall m: nat | m < n :: Repacked(native, words, m)
    ensures forall m: nat | m < n :: ToLogical(NativeAtIndex(native, m)) == LogicalAt(words, m)
  {
    forall m: nat | m < n
      ensures ToLogical(NativeAtIndex(native, m)) == LogicalAt(words, m)
    {
      RepackedSlot(native, words, m);
    }
  }

  lemma WholeSequence<T>(s: seq<T>, n: nat)
    requires n == |s|
    ensures s[..n] == s
  {
  }

  /** Extraction from a repacked buffer recovers the logical words. */
  lemma ExtractionInvertsRepacking(native: seq<Byte>, words: seq<Word>, n: nat)
    requires |native| == 24576 * n && |words| == 2049 * n
    requires forall m: nat | m < n :: Repacked(native, words, m)
    ensures LogicalWords(native, n) == words
  {
    AllSlotsRepacked(native, words, n);
    assert LogicalWords(native, n) == words[..2049 * n] by {
      ConcatenationOfParts(native, words, n);
    }
    WholeSequence(words, 2049 * n);
  }

  lemma {:induction false} ExtractedWordsAt(raw: seq<Byte>, n: nat, l: nat)
    requires 24576 * n <= |raw| && l < n
    ensures |LogicalWords(raw, n)| == 2049 * n
    ensures LogicalWords(raw, n)[2049 * l..2049 * l + 2049] == ToLogical(NativeAtIndex(raw, l))
  {
    var last := ToLogical(NativeAtIndex(raw, n - 1));
    if l < n - 1 {
      ExtractedWordsAt(raw, n - 1, l);
    } else if n > 1 {
      ExtractedWordsAt(raw, n - 1, 0);
    } else {
      assert LogicalWords(raw, 0) == [];
    }
    var front := LogicalWords(raw, n - 1);
    if l < n - 1 {
      assert (front + last)[2049 * l..2049 * l + 2049] == front[2049 * l..2049 * l + 2049];
    } else {
      assert (front + last)[2049 * l..2049 * l + 2049] == last;
    }
  }

  ghost predicate PaddingZeroUpTo(raw: seq<Byte>, n: nat)
    requires 24576 * n <= |raw|
  {
    forall l: nat | l < n :: PaddingIsZero(NativeAtIndex(raw, l))
  }

  lemma RepackedSlotIsOriginal(raw: seq<Byte>, native: seq<Byte>, n: nat, l: nat)
    requires l < n && 24576 * n <= |raw| && |native| == 24576 * n
    requires PaddingZeroUpTo(raw, n) && |LogicalWords(raw, n)| == 2049 * n && Repacked(native, LogicalWords(raw, n), l)
    ensures NativeAtIndex(native, l) == NativeAtIndex(raw, l)
  {
    ExtractedWordsAt(raw, n, l);
    SlotIsNativeAtIndex(native, l);
    NativeOfLogical(NativeAtIndex(raw, l));
  }

  lemma SameSlotsSameBytes(a: seq<Byte>, b: seq<Byte>, n: nat)
    requires |a| == |b| == 24576 * n
    requires forall l: nat | l < n :: NativeAtIndex(a, l) == NativeAtIndex(b, l)
    ensures a == b
  {
    var x, y := BytesWords(a), BytesWords(b);
    forall j: nat | j < 3072 * n
      ensures x[j] == y[j]
    {
      assert NativeAtIndex(a, j / 3072)[j % 3072] == x[j];
      assert NativeAtIndex(b, j / 3072)[j % 3072] == y[j];
    }
    assert x == y;
    BytesOfWordsOfBytes(a);
    BytesOfWordsOfBytes(b);
  }

  lemma WordOfPrefix(raw: seq<Byte>, m: nat, k: nat)
    requires 8 * k + 8 <= m <= |raw|
    ensures WordAt(raw[..m], k) == WordAt(raw, k)
  {
    assert raw[..m][8 * k..8 * k + 8] == raw[8 * k..8 * k + 8];
  }

  lemma PrefixOfBuffer(raw: seq<Byte>, n: nat, l: nat)
    requires l < n && 24576 * n <= |raw|
    ensures NativeAtIndex(raw[..24576 * n], l) == NativeAtIndex(raw, l)
  {
    var cut := raw[..24576 * n];
    var a, b := NativeAtIndex(cut, l), NativeAtIndex(raw, l);
    forall j: nat | j < 3072
      ensures a[j] == b[j]
    {
      WordOfPrefix(raw, 24576 * n, 3072 * l + j);
    }
  }

  lemma RepackingRestoresBuffer(raw: seq<Byte>, native: seq<Byte>, n: nat)
    requires 24576 * n <= |raw| && |native| == 24576 * n
    requires PaddingZeroUpTo(raw, n) && |LogicalWords(raw, n)| == 2049 * n
    requires forall l: nat | l < n :: Repacked(native, LogicalWords(raw, n), l)
    ensures native == raw[..24576 * n]
  {
    forall l: nat | l < n
      ensures NativeAtIndex(native, l) == NativeAtIndex(raw[..24576 * n], l)
    {
      RepackedSlotIsOriginal(raw, native, n, l);
      PrefixOfBuffer(raw, n, l);
    }
    SameSlotsSameBytes(native, raw[..24576 * n], n);
  }

  /** The encryption host verifies its output buffer and writes the dump; the decryption
      host parses it. Within the reader's size limit it rebuilds the verified buffer byte
      for byte and gets the decrypted bytes as its reference. */
  method DumpAndReload(raw: seq<Byte>, n: nat, key: Key, expected: Option<Byte>, zeroNoise: bool)
    returns (verified: bool, input: Option<Input>)
    requires 0 < n && 98304 * n <= 0x7fff_ffff
    ensures verified ==> 98304 * n <= |raw| && input == Some(Input(raw[..98304 * n], HostBytes(key, raw, n)))
  {
    var clears, words;
    verified, clears, words := ExtractAndVerify(raw, n, key, expected, zeroNoise);
    if !verified {
      return false, None;
    }
    ExtractedWordsAt(raw, 4 * n, 0);
    var file := WriteDump(clears, words);
    input := ParseDump(file, 0);
    assert IsFileOf(file, Parsed(clears, words), 0);
    forall l: nat | l < 4 * n
      ensures PaddingIsZero(NativeAtIndex(raw, l))
    {
      assert AcceptedAt(key, raw, l, zeroNoise);
    }
    RepackingRestoresBuffer(raw, input.value.native, 4 * n);
  }
}
