/** The LWEHLS01 dump: `write_dump` of the encryption host and `parse_lwehls01` of the
    decryption host with its repacking into the native layout.
 */
module Dump {
  import opened Numbers
  import opened NativeLayout

  /** "LWEHLS01", read as a little-endian word. */
  const MAGIC: Word := 0x3130_534c_4845_574c

  lemma MagicIsWord(file: seq<Byte>)
    requires |file| >= 8
    ensures file[..8] == WordBytes(MAGIC) <==> WordAt(file, 0) == MAGIC
  {
    BytesOfWordOfBytes(file[..8]);
  }

  function ClearWords(clears: seq<Byte>): (ws: seq<Word>)
    ensures |ws| == |clears| && forall i | 0 <= i < |ws| :: ws[i] == clears[i]
  {
    seq(|clears|, i requires 0 <= i < |clears| => clears[i])
  }

  /** Magic, version, mask dimension, item count, blocks, message, carry and padding
      width, log2 of delta, word count. */
  function Header(items: Word, words: Word): (ws: seq<Word>)
    ensures |ws| == 10
  {
    [MAGIC, 1, 2048, items, 4, 2, 2, 1, 59, words]
  }

  function DumpWords(clears: seq<Byte>, words: seq<Word>): (ws: seq<Word>)
    requires |clears| < TWO64 && |words| < TWO64
  {
    Header(|clears|, |words|) + ClearWords(clears) + words
  }

  // ---------------------------------------------------------------- the writer

  method WriteWords(file: seq<Byte>, words: seq<Word>) returns (file': seq<Byte>)
    ensures file' == file + WordsBytes(words)
  {
    file' := file;
    for i := 0 to |words|
      invariant file' == file + WordsBytes(words[..i])
    {
      WordsBytesUpTo(words, i);
      Assoc(file, WordsBytes(words[..i]), WordBytes(words[i]));
      file' := file' + WordBytes(words[i]);
    }
    assert words[..|words|] == words;
  }

  method WriteParts(header: seq<Word>, clears: seq<Word>, words: seq<Word>) returns (file: seq<Byte>)
    ensures file == WordsBytes(header + clears + words)
  {
    file := WriteWords([], header);
    file := WriteWords(file, clears);
    file := WriteWords(file, words);
    WordsBytesConcat(header, clears);
    WordsBytesConcat(header + clears, words);
  }

  /** `write_dump` */
  method WriteDump(clears: seq<Byte>, words: seq<Word>) returns (file: seq<Byte>)
    requires |clears| < TWO64 && |words| < TWO64
    ensures file == WordsBytes(DumpWords(clears, words))
  {
    file := WriteParts(Header(|clears|, |words|), ClearWords(clears), words);
  }

  // ---------------------------------------------------------------- the parser

  /** The parts the parser keeps. */
  datatype Parsed = Parsed(clears: seq<Byte>, words: seq<Word>)

  ghost predicate HeaderOk(ws: seq<Word>, expectedItems: nat) {
    && |ws| >= 10
    && ws[0] == MAGIC && ws[1] == 1 && ws[2] == 2048
    && ws[4] == 4 && ws[5] == 2 && ws[6] == 2 && ws[7] == 1 && ws[8] == 59
    && ItemsOk(ws[3], ws[9], expectedItems)
  }

  /** Item count, word count and native size; `expectedItems` is zero if none is given. */
  predicate ItemsOk(items: nat, words: nat, expectedItems: nat) {
    && 0 < items <= 0xffff_ffff && (expectedItems == 0 || expectedItems == items)
    && words == items * 8196 && items * 98304 <= 0x7fff_ffff
  }

  predicate AllBytes(ws: seq<Word>) {
    forall i | 0 <= i < |ws| :: ws[i] <= 255
  }

  function ToBytes(ws: seq<Word>): (clears: seq<Byte>)
    requires AllBytes(ws)
    ensures |clears| == |ws| && ClearWords(clears) == ws
  {
    seq<Byte>(|ws|, i requires 0 <= i < |ws| => ws[i])
  }

  predicate ClearsOk(ws: seq<Word>, items: nat) {
    |ws| >= 10 + items && AllBytes(ws[10..10 + items])
  }

  /** What `parse_lwehls01` demands of the words of a file. */
  ghost predicate IsDump(ws: seq<Word>, expectedItems: nat) {
    HeaderOk(ws, expectedItems) && ClearsOk(ws, ws[3]) && |ws| == 10 + 8197 * (ws[3] as nat)
  }

  /** Files that `write_dump` writes and that fit the limits of the reader. */
  ghost predicate FitsReader(clears: seq<Byte>, words: seq<Word>, expectedItems: nat) {
    && 0 < |clears| && |clears| * 98304 <= 0x7fff_ffff && |words| == |clears| * 8196
    && (expectedItems == 0 || expectedItems == |clears|)
  }

  lemma DumpAt(clears: seq<Byte>, words: seq<Word>)
    requires |clears| < TWO64 && |words| < TWO64
    ensures var ws := DumpWords(clears, words);
            && |ws| == 10 + |clears| + |words|
            && ws[..10] == Header(|clears|, |words|)
            && ws[10..10 + |clears|] == ClearWords(clears)
            && ws[10 + |clears|..] == words
  {
  }

  lemma HeaderFields(ws: seq<Word>, items: Word, words: Word)
    requires |ws| >= 10 && ws[..10] == Header(items, words)
    ensures ws[3] == items && ws[9] == words
    ensures forall expected: nat :: HeaderOk(ws, expected) <==> ItemsOk(items, words, expected)
  {
    assert forall i | 0 <= i < 10 :: ws[i] == ws[..10][i];
  }

  lemma MagicBytes()
    ensures EightBytes(0x3130_534c_4845_574c) == [76, 87, 69, 72, 76, 83, 48, 49]
  {
    assert 0x3130_534c_4845_574c % 0x100 == 76;
    assert 0x3130_534c_4845_574c / 0x100 % 0x100 == 87;
    assert 0x3130_534c_4845_574c / 0x1_0000 % 0x100 == 69;
    assert 0x3130_534c_4845_574c / 0x100_0000 % 0x100 == 72;
    assert 0x3130_534c_4845_574c / 0x1_0000_0000 % 0x100 == 76;
    assert 0x3130_534c_4845_574c / 0x100_0000_0000 % 0x100 == 83;
    assert 0x3130_534c_4845_574c / 0x1_0000_0000_0000 % 0x100 == 48;
    assert 0x3130_534c_4845_574c / 0x100_0000_0000_0000 % 0x100 == 49;
  }

  lemma FileWord(ws: seq<Word>, file: seq<Byte>, i: nat)
    requires file == WordsBytes(ws) && i < |ws|
    ensures WordAt(file, i) == ws[i]
  {
    WordsBytesAt(ws, i);
  }

  lemma FirstBytes(ws: seq<Word>, file: seq<Byte>)
    requires file == WordsBytes(ws) && |ws| > 0
    ensures file[..8] == EightBytes(ws[0])
  {
    WordsBytesSlice(ws, 0);
    WordBytesAre(ws[0]);
  }

  /** What is where in a written file: the magic "LWEHLS01", nine words of parameters, one word
      for each plaintext byte, and the ciphertext words. */
  lemma DumpLayout(clears: seq<Byte>, words: seq<Word>, file: seq<Byte>, i: nat)
    requires |clears| < TWO64 && |words| < TWO64 && file == WordsBytes(DumpWords(clears, words))
    requires i < 10 + |clears| + |words|
    ensures |file| == 8 * (10 + |clears| + |words|) && file[..8] == [76, 87, 69, 72, 76, 83, 48, 49]
    ensures WordAt(file, i) ==
            if i < 10 then [0x3130_534c_4845_574c, 1, 2048, |clears|, 4, 2, 2, 1, 59, |words|][i]
            else if i < 10 + |clears| then clears[i - 10] else words[i - 10 - |clears|]
  {
    var ws := DumpWords(clears, words);
    FileWord(ws, file, i);
    FirstBytes(ws, file);
    MagicBytes();
  }

  /** The parser accepts what the writer writes, within the reader's limits. */
  lemma WriterWritesDumps(clears: seq<Byte>, words: seq<Word>, expectedItems: nat)
    requires |clears| < TWO64 && |words| < TWO64
    ensures IsDump(DumpWords(clears, words), expectedItems) <==> FitsReader(clears, words, expectedItems)
  {
    DumpAt(clears, words);
    HeaderFields(DumpWords(clears, words), |clears|, |words|);
  }

  function PartsOf(ws: seq<Word>, items: nat): (p: Parsed)
    requires ClearsOk(ws, items)
  {
    Parsed(ToBytes(ws[10..10 + items]), ws[10 + items..])
  }

  /** The parser accepts nothing else: what it accepts is what the writer writes for the
      parts it returns. */
  lemma DumpsAreWritten(ws: seq<Word>, expectedItems: nat)
    requires IsDump(ws, expectedItems)
    ensures FitsReader(PartsOf(ws, ws[3]).clears, PartsOf(ws, ws[3]).words, expectedItems)
    ensures DumpWords(PartsOf(ws, ws[3]).clears, PartsOf(ws, ws[3]).words) == ws
  {
    var Parsed(clears, words) := PartsOf(ws, ws[3]);
    assert Header(|clears|, |words|) == ws[..10];
    assert ws == ws[..10] + ws[10..10 + |clears|] + ws[10 + |clears|..];
  }

  lemma PartsOfDump(clears: seq<Byte>, words: seq<Word>, expectedItems: nat)
    requires FitsReader(clears, words, expectedItems)
    ensures IsDump(DumpWords(clears, words), expectedItems)
    ensures PartsOf(DumpWords(clears, words), |clears|) == Parsed(clears, words)
  {
    WriterWritesDumps(clears, words, expectedItems);
    DumpAt(clears, words);
    assert ToBytes(ClearWords(clears)) == clears;
  }

  /** `read_le64` at a cursor that stands on word `k`. */
  method ReadWord(file: seq<Byte>, k: nat) returns (word: Option<Word>)
    ensures word == if 8 * k + 8 <= |file| then Some(WordAt(file, k)) else None
  {
    if 8 * k > |file| || |file| - 8 * k < 8 {
      return None;
    }
    var parsed: nat := 0;
    for i := 0 to 8
      invariant parsed == FromLE(file[8 * k..8 * k + i])
    {
      LeSnoc(file[8 * k..8 * k + i], file[8 * k + i]);
      SliceSnoc(file, 8 * k, 8 * k + i);
      parsed := parsed + file[8 * k + i] * Pow256(i);
    }
    assert parsed == WordAt(file, k);
    return Some(parsed);
  }

  lemma {:induction false} LeSnoc(s: seq<Byte>, b: Byte)
    ensures FromLE(s + [b]) == FromLE(s) + b * Pow256(|s|)
  {
    if s != [] {
      var t := s[1..];
      LeSnoc(t, b);
      assert (s + [b])[1..] == t + [b];
      assert 256 * (b * Pow256(|t|)) == b * Pow256(|s|);
    } else {
      assert s + [b] == [b] && [b][1..] == [];
    }
  }

  /** The words of a file from word `k` on. */
  function WordsAt(file: seq<Byte>, k: nat, n: nat): (ws: seq<Word>)
    requires 8 * (k + n) <= |file|
    ensures |ws| == n
  {
    seq<Word>(n, i requires 0 <= i < n => WordAt(file, k + i))
  }

  /** Consecutive calls of `read_le64`. */
  method ReadWords(file: seq<Byte>, k: nat, n: nat) returns (words: Option<seq<Word>>)
    ensures words == if 8 * (k + n) <= |file| then Some(WordsAt(file, k, n)) else None
  {
    var ws: seq<Word> := [];
    for i := 0 to n
      invariant 8 * (k + i) <= |file| || i == 0
      invariant |ws| == i && forall j | 0 <= j < i :: ws[j] == WordAt(file, k + j)
    {
      var word := ReadWord(file, k + i);
      if word.None? {
        return None;
      }
      ws := ws + [word.value];
    }
    if 8 * (k + n) > |file| {
      return None;
    }
    assert ws == WordsAt(file, k, n);
    return Some(ws);
  }

  /** The clear references: each must fit a byte. */
  method ReadClears(file: seq<Byte>, k: nat, n: nat) returns (clears: Option<seq<Byte>>)
    ensures clears.Some? <==> (8 * (k + n) <= |file| || n == 0) && forall i | k <= i < k + n :: WordAt(file, i) <= 255
    ensures clears.Some? && n > 0 ==> ClearWords(clears.value) == WordsAt(file, k, n)
  {
    var cs: seq<Byte> := [];
    for i := 0 to n
      invariant 8 * (k + i) <= |file| || i == 0
      invariant |cs| == i && forall j | k <= j < k + i :: WordAt(file, j) <= 255 && cs[j - k] == WordAt(file, j)
    {
      var word := ReadWord(file, k + i);
      if word.None? || word.value > 255 {
        return None;
      }
      cs := cs + [word.value];
    }
    return Some(cs);
  }

  /** The header behind its magic number. */
  predicate FieldsOk(h: seq<Word>, expectedItems: nat)
    requires |h| == 9
  {
    && h[0] == 1 && h[1] == 2048 && h[3] == 4 && h[4] == 2 && h[5] == 2 && h[6] == 1 && h[7] == 59
    && ItemsOk(h[2], h[8], expectedItems)
  }

  method CheckFields(h: seq<Word>, expectedItems: nat) returns (ok: bool)
    requires |h| == 9
    ensures ok <==> FieldsOk(h, expectedItems)
  {
    if h[0] != 1 || h[1] != 2048 || h[3] != 4 || h[4] != 2 || h[5] != 2 || h[6] != 1 || h[7] != 59
       || h[2] == 0 || h[2] > 0xffff_ffff {
      return false;
    }
    if expectedItems != 0 && expectedItems != h[2] {
      return false;
    }
    if h[8] != h[2] * 4 * 2049 || h[2] * 98304 > 0x7fff_ffff {
      return false;
    }
    return true;
  }

  lemma HeaderParts(file: seq<Byte>, h: seq<Word>, expectedItems: nat)
    requires |file| >= 80 && file[..8] == WordBytes(MAGIC) && h == WordsAt(file, 1, 9)
    ensures h[2] == WordAt(file, 3)
    ensures HeaderOk(WordsAt(file, 0, 10), expectedItems) <==> FieldsOk(h, expectedItems)
  {
    MagicIsWord(file);
    var ws := WordsAt(file, 0, 10);
    assert forall i | 0 <= i < 9 :: ws[i + 1] == h[i];
  }

  lemma NoMagicNoHeader(file: seq<Byte>, expectedItems: nat)
    requires |file| >= 80 && file[..8] != WordBytes(MAGIC)
    ensures !HeaderOk(WordsAt(file, 0, 10), expectedItems)
  {
    MagicIsWord(file);
  }

  /** The header reads of `parse_lwehls01` and all its checks. */
  method ReadHeader(file: seq<Byte>, expectedItems: nat) returns (items: Option<nat>)
    ensures items.Some? <==> |file| >= 80 && HeaderOk(WordsAt(file, 0, 10), expectedItems)
    ensures items.Some? ==> items.value == WordAt(file, 3)
  {
    if |file| < 8 || file[..8] != WordBytes(MAGIC) {
      if |file| >= 80 {
        NoMagicNoHeader(file, expectedItems);
      }
      return None;
    }
    var fields := ReadWords(file, 1, 9);
    if fields.None? {
      return None;
    }
    var h := fields.value;
    HeaderParts(file, h, expectedItems);
    var ok := CheckFields(h, expectedItems);
    return if ok then Some(h[2]) else None;
  }

  /** The file is what the writer writes for these parts, within the reader's limits. */
  ghost predicate IsFileOf(file: seq<Byte>, p: Parsed, expectedItems: nat) {
    && FitsReader(p.clears, p.words, expectedItems)
    && file == WordsBytes(DumpWords(p.clears, p.words))
  }

  ghost predicate IsDumpFile(file: seq<Byte>, expectedItems: nat) {
    |file| % 8 == 0 && IsDump(BytesWords(file), expectedItems)
  }

  ghost function FileParts(file: seq<Byte>, expectedItems: nat): (p: Parsed)
    requires IsDumpFile(file, expectedItems)
  {
    PartsOf(BytesWords(file), BytesWords(file)[3])
  }

  lemma DumpFileHasParts(file: seq<Byte>, expectedItems: nat)
    requires IsDumpFile(file, expectedItems)
    ensures IsFileOf(file, FileParts(file, expectedItems), expectedItems)
  {
    DumpsAreWritten(BytesWords(file), expectedItems);
    BytesOfWordsOfBytes(file);
  }

  lemma PartsAreUnique(file: seq<Byte>, p: Parsed, expectedItems: nat)
    requires IsFileOf(file, p, expectedItems)
    ensures IsDumpFile(file, expectedItems) && p == FileParts(file, expectedItems)
  {
    var ws := DumpWords(p.clears, p.words);
    PartsOfDump(p.clears, p.words, expectedItems);
    WordsOfBytesOfWords(ws);
    DumpAt(p.clears, p.words);
    HeaderFields(ws, |p.clears|, |p.words|);
  }

  /** Both directions at once. */
  lemma FileDeterminesParts(file: seq<Byte>, p: Parsed, expectedItems: nat)
    ensures IsFileOf(file, p, expectedItems) <==>
            IsDumpFile(file, expectedItems) && p == FileParts(file, expectedItems)
  {
    if IsFileOf(file, p, expectedItems) {
      PartsAreUnique(file, p, expectedItems);
    }
    if IsDumpFile(file, expectedItems) {
      DumpFileHasParts(file, expectedItems);
    }
  }

  lemma HeaderOfFile(file: seq<Byte>, expectedItems: nat)
    requires |file| % 8 == 0 && |file| >= 80
    ensures HeaderOk(BytesWords(file), expectedItems) <==> HeaderOk(WordsAt(file, 0, 10), expectedItems)
  {
    assert BytesWords(file)[..10] == WordsAt(file, 0, 10);
    assert forall i | 0 <= i < 10 :: BytesWords(file)[i] == WordsAt(file, 0, 10)[i];
  }

  lemma SliceOfFile(file: seq<Byte>, k: nat, n: nat)
    requires |file| % 8 == 0 && 8 * (k + n) <= |file|
    ensures BytesWords(file)[k..k + n] == WordsAt(file, k, n)
  {
  }

  /** A dump has ten header words, its clear references and its ciphertext words. */
  lemma DumpLength(file: seq<Byte>, expectedItems: nat)
    requires IsDumpFile(file, expectedItems)
    ensures |file| >= 80 && |file| == 8 * (10 + 8197 * (WordAt(file, 3) as nat))
    ensures HeaderOk(WordsAt(file, 0, 10), expectedItems)
  {
    HeaderOfFile(file, expectedItems);
  }

  lemma DumpClears(file: seq<Byte>, expectedItems: nat, n: nat)
    requires IsDumpFile(file, expectedItems) && |file| >= 80 && n == WordAt(file, 3)
    ensures 8 * (10 + n) <= |file| && forall i | 10 <= i < 10 + n :: WordAt(file, i) <= 255
  {
    var ws := BytesWords(file);
    forall i | 10 <= i < 10 + n
      ensures WordAt(file, i) <= 255
    {
      assert ws[10..10 + n][i - 10] == ws[i];
    }
  }

  /** What was read makes a dump. */
  lemma PartsMakeDump(file: seq<Byte>, expectedItems: nat, n: nat, clears: seq<Byte>, words: seq<Word>)
    requires |file| == 8 * (10 + 8197 * n) && n == WordAt(file, 3) && HeaderOk(WordsAt(file, 0, 10), expectedItems)
    requires ClearWords(clears) == WordsAt(file, 10, n) && words == WordsAt(file, 10 + n, 8196 * n)
    ensures IsDumpFile(file, expectedItems) && FileParts(file, expectedItems) == Parsed(clears, words)
  {
    HeaderOfFile(file, expectedItems);
    SliceOfFile(file, 10, n);
    SliceOfFile(file, 10 + n, 8196 * n);
    WordsMakeDump(BytesWords(file), expectedItems, n, clears, words);
  }

  lemma WordsMakeDump(ws: seq<Word>, expectedItems: nat, n: nat, clears: seq<Byte>, words: seq<Word>)
    requires |ws| == 10 + 8197 * n && n == ws[3] && HeaderOk(ws, expectedItems)
    requires ClearWords(clears) == ws[10..10 + n] && words == ws[10 + n..10 + n + 8196 * n]
    ensures IsDump(ws, expectedItems) && PartsOf(ws, ws[3]) == Parsed(clears, words)
  {
    BytesOfClearWords(clears);
    assert ws[10 + n..] == ws[10 + n..10 + n + 8196 * n];
  }

  lemma BytesOfClearWords(clears: seq<Byte>)
    ensures AllBytes(ClearWords(clears)) && ToBytes(ClearWords(clears)) == clears
  {
  }

  /** What the reads of `parse_lwehls01` find, before the repacking. */
  method ReadParts(file: seq<Byte>, expectedItems: nat) returns (parts: Option<Parsed>)
    ensures parts.Some? <==> IsDumpFile(file, expectedItems)
    ensures parts.Some? ==> parts.value == FileParts(file, expectedItems)
  {
    if IsDumpFile(file, expectedItems) {
      DumpLength(file, expectedItems);
      DumpClears(file, expectedItems, WordAt(file, 3));
    }
    var items := ReadHeader(file, expectedItems);
    if items.None? {
      return None;
    }
    var n := items.value;
    var clears := ReadClears(file, 10, n);
    if clears.None? {
      return None;
    }
    var words := ReadWords(file, 10 + n, 8196 * n);
    if words.None? || 8 * (10 + 8197 * n) != |file| {
      return None;
    }
    PartsMakeDump(file, expectedItems, n, clears.value, words.value);
    return Some(Parsed(clears.value, words.value));
  }

  /** The reader accepts exactly the files that the writer writes within its limits, and
      returns what was written. */
  method ReadDump(file: seq<Byte>, expectedItems: nat) returns (parts: Option<Parsed>)
    ensures forall p: Parsed :: parts == Some(p) <==> IsFileOf(file, p, expectedItems)
  {
    parts := ReadParts(file, expectedItems);
    forall p: Parsed
      ensures parts == Some(p) <==> IsFileOf(file, p, expectedItems)
    {
      FileDeterminesParts(file, p, expectedItems);
    }
  }

  // ---------------------------------------------------------------- repacking

  lemma StoredWord(before: seq<Byte>, after: seq<Byte>, index: nat, value: Word, j: nat)
    requires |before| == |after| && 8 * index + 8 <= |before| && 8 * j + 8 <= |before|
    requires after == before[..8 * index] + WordBytes(value) + before[8 * index + 8..]
    ensures WordAt(after, j) == if j == index then value else WordAt(before, j)
  {
    if j == index {
      assert after[8 * j..8 * j + 8] == WordBytes(value);
    } else {
      assert after[8 * j..8 * j + 8] == before[8 * j..8 * j + 8];
    }
  }

  /** `static_cast<uint8_t>(value >> (i * 8))` */
  function ByteOf(value: Word, i: nat): Byte {
    (value / Pow256(i)) % 256
  }

  lemma BytesOfWord(value: Word, data: seq<Byte>)
    requires data == WordBytes(value)
    ensures forall i: nat | i < 8 :: data[i] == ByteOf(value, i)
  {
    forall i: nat | i < 8
      ensures data[i] == ByteOf(value, i)
    {
      LeByteIsShift(value, 8, i);
    }
  }

  /** Eight byte stores. */
  method StoreBytes(bytes: array<Byte>, offset: nat, value: Word, ghost data: seq<Byte>)
    requires offset + 8 <= bytes.Length && |data| == 8 && forall i: nat | i < 8 :: data[i] == ByteOf(value, i)
    modifies bytes
    ensures bytes[..] == old(bytes[..offset]) + data + old(bytes[offset + 8..])
  {
    for i := 0 to 8
      invariant forall t | 0 <= t < bytes.Length ::
        bytes[t] == if offset <= t < offset + i then data[t - offset] else old(bytes[t])
    {
      bytes[offset + i] := ByteOf(value, i);
    }
  }

  lemma WordsAfterStore(before: seq<Byte>, after: seq<Byte>, index: nat, value: Word)
    requires |before| == |after| && |before| % 8 == 0 && 8 * index + 8 <= |before|
    requires after == before[..8 * index] + WordBytes(value) + before[8 * index + 8..]
    ensures BytesWords(after) == BytesWords(before)[index := value]
  {
    forall j: nat | j < |before| / 8
      ensures WordAt(after, j) == if j == index then value else WordAt(before, j)
    {
      StoredWord(before, after, index, value, j);
    }
  }

  /** `store_le64` */
  method StoreWord(bytes: array<Byte>, index: nat, value: Word)
    requires bytes.Length % 8 == 0 && 8 * index + 8 <= bytes.Length
    modifies bytes
    ensures BytesWords(bytes[..]) == old(BytesWords(bytes[..]))[index := value]
  {
    ghost var before := bytes[..];
    assert before[..8 * index] == bytes[..8 * index] && before[8 * index + 8..] == bytes[8 * index + 8..];
    BytesOfWord(value, WordBytes(value));
    StoreBytes(bytes, 8 * index, value, WordBytes(value));
    WordsAfterStore(before, bytes[..], index, value);
  }

  /** Logical ciphertext `l` of a word vector. */
  function LogicalAt(words: seq<Word>, l: nat): (logical: Logical)
    requires 2049 * l + 2049 <= |words|
  {
    words[2049 * l..2049 * l + 2049]
  }

  /** Slot `l` of the native words holds the first `i` mask words of `logical` over zeros. */
  ghost predicate SlotHolds(ws: seq<Word>, l: nat, logical: Logical, i: nat)
    requires 3072 * l + 3072 <= |ws|
  {
    forall pc: nat, offset: nat | pc < 2 && offset < PC_SLOT_WORDS ::
      ws[3072 * l + Position(pc, offset)] == Scattered(logical, i, pc, offset)
  }

  lemma ScatterOne(ws: seq<Word>, ws': seq<Word>, l: nat, logical: Logical, i: nat)
    requires 3072 * l + 3072 <= |ws| && i < MASK_DIMENSION && SlotHolds(ws, l, logical, i)
    requires ws' == ws[3072 * l + MaskPosition(i) := logical[i]]
    ensures SlotHolds(ws', l, logical, i + 1)
  {
    forall pc: nat, offset: nat | pc < 2 && offset < PC_SLOT_WORDS
      ensures ws'[3072 * l + Position(pc, offset)] == Scattered(logical, i + 1, pc, offset)
    {
      MaskPositionIsBijective(i, pc, offset);
      assert ws[3072 * l + Position(pc, offset)] == Scattered(logical, i, pc, offset);
    }
  }

  lemma BodyCompletes(ws: seq<Word>, l: nat, logical: Logical)
    requires 3072 * l + 3072 <= |ws| && SlotHolds(ws, l, logical, MASK_DIMENSION)
    ensures ws[3072 * l + 1024 := logical[2048]][3072 * l..3072 * l + 3072] == ToNative(logical)
  {
    var ws' := ws[3072 * l + 1024 := logical[2048]];
    var slot: Native := ws'[3072 * l..3072 * l + 3072];
    forall pc: nat, offset: nat | pc < 2 && offset < PC_SLOT_WORDS
      ensures slot[Position(pc, offset)] == ToNative(logical)[Position(pc, offset)]
    {
      NativeAt(logical, pc, offset);
      assert ws[3072 * l + Position(pc, offset)] == Scattered(logical, 2048, pc, offset);
    }
    NativeExtensional(slot, ToNative(logical));
  }

  /** Only slot `l` differs. */
  ghost predicate SameElsewhere(a: seq<Word>, b: seq<Word>, l: nat) {
    && |a| == |b|
    && forall t: nat | t < |a| && !(3072 * l <= t < 3072 * l + 3072) :: a[t] == b[t]
  }

  lemma ZeroSlot(ws: seq<Word>, l: nat, logical: Logical)
    requires 3072 * l + 3072 <= |ws| && forall t | 3072 * l <= t < 3072 * l + 3072 :: ws[t] == 0
    ensures SlotHolds(ws, l, logical, 0)
  {
  }

  /** One round of the inner loop. */
  method RepackWord(bytes: array<Byte>, words: seq<Word>, l: nat, i: nat, ghost logical: Logical)
    requires bytes.Length % 8 == 0 && 24576 * l + 24576 <= bytes.Length && 2049 * l + 2049 <= |words|
    requires i < MASK_DIMENSION && logical == LogicalAt(words, l)
    modifies bytes
    ensures BytesWords(bytes[..]) == old(BytesWords(bytes[..]))[3072 * l + MaskPosition(i) := logical[i]]
  {
    var pc, offset := ComputeHostPlace(i);
    PositionOfPlace(i);
    StoreWord(bytes, 3072 * l + pc * 1536 + offset, words[2049 * l + i]);
  }

  /** The inner loop and the body store for one ciphertext. */
  method RepackOne(bytes: array<Byte>, words: seq<Word>, l: nat)
    requires bytes.Length % 8 == 0 && 24576 * l + 24576 <= bytes.Length && 2049 * l + 2049 <= |words|
    requires forall t | 3072 * l <= t < 3072 * l + 3072 :: BytesWords(bytes[..])[t] == 0
    modifies bytes
    ensures BytesWords(bytes[..])[3072 * l..3072 * l + 3072] == ToNative(LogicalAt(words, l))
    ensures SameElsewhere(BytesWords(bytes[..]), old(BytesWords(bytes[..])), l)
  {
    ghost var logical := LogicalAt(words, l);
    ghost var before := BytesWords(bytes[..]);
    ZeroSlot(before, l, logical);
    for i := 0 to 2048
      invariant SlotHolds(BytesWords(bytes[..]), l, logical, i)
      invariant SameElsewhere(BytesWords(bytes[..]), before, l)
    {
      ghost var ws := BytesWords(bytes[..]);
      RepackWord(bytes, words, l, i, logical);
      ScatterOne(ws, BytesWords(bytes[..]), l, logical, i);
    }
    BodyCompletes(BytesWords(bytes[..]), l, logical);
    StoreWord(bytes, 3072 * l + 1024, words[2049 * l + 2048]);
  }

  /** Slot `l` of a native buffer. */
  ghost function SlotOf(native: seq<Byte>, l: nat): (slot: seq<Word>)
    requires |native| % 8 == 0 && 24576 * l + 24576 <= |native|
  {
    BytesWords(native)[3072 * l..3072 * l + 3072]
  }

  ghost predicate Repacked(native: seq<Byte>, words: seq<Word>, l: nat)
    requires |native| % 8 == 0 && 24576 * l + 24576 <= |native| && 2049 * l + 2049 <= |words|
  {
    SlotOf(native, l) == ToNative(LogicalAt(words, l))
  }

  lemma OtherWordsKept(before: seq<Word>, after: seq<Word>, l: nat, m: nat)
    requires |before| == |after| && m < l && 3072 * l + 3072 <= |after| && SameElsewhere(after, before, l)
    ensures after[3072 * m..3072 * m + 3072] == before[3072 * m..3072 * m + 3072]
  {
  }

  lemma OtherSlotKept(before: seq<Byte>, after: seq<Byte>, words: seq<Word>, l: nat, m: nat)
    requires |before| == |after| && |after| % 8 == 0 && m < l && 24576 * l + 24576 <= |after|
    requires SameElsewhere(BytesWords(after), BytesWords(before), l)
    requires 2049 * l + 2049 <= |words| && Repacked(before, words, m)
    ensures Repacked(after, words, m)
  {
    OtherWordsKept(BytesWords(before), BytesWords(after), l, m);
    assert SlotOf(after, m) == SlotOf(before, m);
  }

  /** From slot `l` on the buffer is still zero. */
  ghost predicate ZeroFromSlot(native: seq<Byte>, l: nat)
    requires |native| % 8 == 0
  {
    forall t | 3072 * l <= t < |native| / 8 :: BytesWords(native)[t] == 0
  }

  ghost predicate RepackedUpTo(native: seq<Byte>, words: seq<Word>, n: nat)
    requires |native| % 8 == 0 && 24576 * n <= |native| && 2049 * n <= |words|
  {
    forall l: nat | l < n :: Repacked(native, words, l)
  }

  lemma SlotsKept(before: seq<Byte>, after: seq<Byte>, words: seq<Word>, l: nat)
    requires |before| == |after| && |after| % 8 == 0 && 24576 * l + 24576 <= |after| && 2049 * l + 2049 <= |words|
    requires SameElsewhere(BytesWords(after), BytesWords(before), l)
    requires RepackedUpTo(before, words, l) && Repacked(after, words, l) && ZeroFromSlot(before, l)
    ensures RepackedUpTo(after, words, l + 1) && ZeroFromSlot(after, l + 1)
  {
    forall m: nat | m < l + 1
      ensures Repacked(after, words, m)
    {
      if m < l {
        OtherSlotKept(before, after, words, l, m);
      }
    }
    forall t | 3072 * (l + 1) <= t < |after| / 8
      ensures BytesWords(after)[t] == 0
    {
      assert BytesWords(after)[t] == BytesWords(before)[t];
    }
  }

  method RepackNext(bytes: array<Byte>, words: seq<Word>, l: nat)
    requires bytes.Length % 8 == 0 && 24576 * l + 24576 <= bytes.Length && 2049 * l + 2049 <= |words|
    requires ZeroFromSlot(bytes[..], l) && RepackedUpTo(bytes[..], words, l)
    modifies bytes
    ensures ZeroFromSlot(bytes[..], l + 1) && RepackedUpTo(bytes[..], words, l + 1)
  {
    ghost var before := bytes[..];
    RepackOne(bytes, words, l);
    SlotsKept(before, bytes[..], words, l);
  }

  lemma ZeroBytesAreZeroWords(bytes: seq<Byte>)
    requires |bytes| % 8 == 0 && forall i | 0 <= i < |bytes| :: bytes[i] == 0
    ensures forall t | 0 <= t < |bytes| / 8 :: BytesWords(bytes)[t] == 0
  {
    forall t: nat | t < |bytes| / 8
      ensures WordAt(bytes, t) == 0
    {
      ZerosDecode(bytes[8 * t..8 * t + 8]);
    }
  }

  lemma {:induction false} ZerosDecode(s: seq<Byte>)
    requires forall i | 0 <= i < |s| :: s[i] == 0
    ensures FromLE(s) == 0
  {
    if s != [] {
      ZerosDecode(s[1..]);
    }
  }

  /** The buffer after `l` rounds of the repacking loop. */
  ghost predicate Progress(native: seq<Byte>, words: seq<Word>, n: nat, l: nat) {
    && |native| == 24576 * n && |words| == 2049 * n && l <= n
    && ZeroFromSlot(native, l) && RepackedUpTo(native, words, l)
  }

  /** `good` stands for `Progress`. */
  ghost predicate Tracks(good: (seq<Byte>, nat) -> bool, words: seq<Word>, n: nat) {
    forall native: seq<Byte>, l: nat {:trigger Progress(native, words, n, l)} ::
      good(native, l) <==> Progress(native, words, n, l)
  }

  method RepackRound(bytes: array<Byte>, words: seq<Word>, n: nat, l: nat, ghost good: (seq<Byte>, nat) -> bool)
    requires Tracks(good, words, n) && l < n && good(bytes[..], l)
    modifies bytes
    ensures good(bytes[..], l + 1)
  {
    assert Progress(bytes[..], words, n, l);
    RepackNext(bytes, words, l);
    assert Progress(bytes[..], words, n, l + 1);
  }

  /** The repacking loop. */
  method RepackAll(bytes: array<Byte>, words: seq<Word>, n: nat, ghost good: (seq<Byte>, nat) -> bool)
    requires Tracks(good, words, n) && good(bytes[..], 0)
    modifies bytes
    ensures good(bytes[..], n)
  {
    for l := 0 to n
      invariant good(bytes[..], l)
    {
      RepackRound(bytes, words, n, l, good);
    }
  }

  /** A zeroed buffer that receives every ciphertext. */
  method Repack(words: seq<Word>, n: nat) returns (native: seq<Byte>)
    requires |words| == 8196 * n
    ensures |native| == 98304 * n
    ensures forall l: nat | l < 4 * n :: Repacked(native, words, l)
  {
    var bytes := new Byte[98304 * n](_ => 0);
    ZeroBytesAreZeroWords(bytes[..]);
    ghost var good := (b: seq<Byte>, l: nat) => Progress(b, words, 4 * n, l);
    assert Progress(bytes[..], words, 4 * n, 0);
    RepackAll(bytes, words, 4 * n, good);
    assert Progress(bytes[..], words, 4 * n, 4 * n);
    native := bytes[..];
  }

  datatype Input = Input(native: seq<Byte>, expected: seq<Byte>)

  /** `parse_lwehls01`: exactly the writer's files within the reader's limits are accepted,
      the clear references come back, and every ciphertext is repacked. */
  method ParseDump(file: seq<Byte>, expectedItems: nat) returns (input: Option<Input>)
    ensures input.Some? <==> exists p: Parsed :: IsFileOf(file, p, expectedItems)
    ensures forall p: Parsed | IsFileOf(file, p, expectedItems) ::
              && input.Some? && input.value.expected == p.clears
              && |input.value.native| == 98304 * |p.clears|
              && forall l: nat | l < 4 * |p.clears| :: Repacked(input.value.native, p.words, l)
  {
    var parts := ReadDump(file, expectedItems);
    if parts.None? {
      return None;
    }
    assert IsFileOf(file, parts.value, expectedItems);
    var native := Repack(parts.value.words, |parts.value.clears|);
    input := Some(Input(native, parts.value.clears));
    forall p: Parsed | IsFileOf(file, p, expectedItems)
      ensures p == parts.value
    {
    }
  }
}
