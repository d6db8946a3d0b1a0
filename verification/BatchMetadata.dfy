/** The shape checks of a ciphertext batch, in Rust (`BatchMetadata`) with checked
    arithmetic and in C++ (`validate_metadata`) with divisions.
 */
module BatchMetadata {
  import opened Numbers

  datatype Metadata = Metadata(
    maskDimension: Word,
    itemCount: Word,
    radixBlocks: Word,
    messageWidth: Word,
    carryWidth: Word,
    paddingWidth: Word,
    deltaLog2: Word,
    wordCount: Word)

  function CheckedMul(a: Word, b: Word): Option<Word> {
    if a * b < 0x1_0000_0000_0000_0000 then Some(a * b) else None
  }

  function CheckedAdd(a: Word, b: Word): Option<Word> {
    if a + b < 0x1_0000_0000_0000_0000 then Some(a + b) else None
  }

  function ExpectedCpuWords(m: Metadata): Option<Word> {
    match CheckedMul(m.itemCount, m.radixBlocks)
    case None => None
    case Some(count) =>
      match CheckedAdd(m.maskDimension, 1)
      case None => None
      case Some(perLwe) => CheckedMul(count, perLwe)
  }

  function ExpectedNativeWords(m: Metadata): Option<Word> {
    match CheckedMul(m.itemCount, m.radixBlocks)
    case None => None
    case Some(count) => CheckedMul(count, 3072)
  }

  predicate HasCpuPayload(m: Metadata) {
    ExpectedCpuWords(m) == Some(m.wordCount)
  }

  predicate HasNativePayload(m: Metadata) {
    ExpectedNativeWords(m) == Some(m.wordCount)
  }

  predicate NonEmpty(m: Metadata) {
    m.itemCount > 0 && m.radixBlocks > 0 && m.maskDimension > 0
  }

  /** `BatchMetadata::validate` */
  predicate Valid(m: Metadata) {
    NonEmpty(m) && (HasCpuPayload(m) || HasNativePayload(m))
  }

  // ---------------------------------------------------------------- what the counts mean

  ghost function Blocks(m: Metadata): nat {
    m.itemCount * m.radixBlocks
  }

  lemma ProductGrows(a: nat, b: nat)
    requires a > 0 && b > 0
    ensures a * b >= a && a * b >= b
  {
    MulGap(a, 0, b);
    MulGap(b, 0, a);
  }

  /** The checked chain fails exactly when the whole product overflows, not earlier. */
  lemma CpuWordsAreExact(m: Metadata)
    requires NonEmpty(m)
    ensures var product := Blocks(m) * (m.maskDimension + 1);
            ExpectedCpuWords(m) == if product < 0x1_0000_0000_0000_0000 then Some(product) else None
  {
    ProductGrows(m.itemCount, m.radixBlocks);
    ProductGrows(Blocks(m), m.maskDimension + 1);
  }

  lemma NativeWordsAreExact(m: Metadata)
    ensures var product := Blocks(m) * 3072;
            ExpectedNativeWords(m) == if product < 0x1_0000_0000_0000_0000 then Some(product) else None
  {
  }

  /** A word count fits both layouts only when a CPU ciphertext is as long as a native one;
      with mask dimension 2048 it never does. */
  lemma LayoutsAreDistinct(m: Metadata)
    requires NonEmpty(m)
    ensures HasCpuPayload(m) && HasNativePayload(m) <==> HasCpuPayload(m) && m.maskDimension == 3071
  {
    CpuWordsAreExact(m);
    NativeWordsAreExact(m);
    ProductGrows(m.itemCount, m.radixBlocks);
    var perLwe := m.maskDimension + 1;
    if perLwe < 3072 {
      MulGap(Blocks(m), perLwe, 3072);
    } else if perLwe > 3072 {
      MulGap(Blocks(m), 3072, perLwe);
    }
  }

  // ---------------------------------------------------------------- the client's checks

  const MAX: Word := 0xffff_ffff_ffff_ffff

  lemma DivisionDetectsOverflow(a: nat, b: nat)
    requires b > 0
    ensures a > 0xffff_ffff_ffff_ffff / b <==> a * b > 0xffff_ffff_ffff_ffff
  {
    var q := 0xffff_ffff_ffff_ffff / b;
    assert b * q <= 0xffff_ffff_ffff_ffff < b * q + b;
    if a > q {
      MulGap(b, q, a);
    } else if a < q {
      MulGap(b, a, q);
    }
  }

  /** `validate_metadata` of the C++ client. */
  method ClientValidates(m: Metadata, payloadWords: nat, operation: Word) returns (ok: bool)
    ensures ok <==> ClientAccepts(m, payloadWords, operation)
  {
    if m.maskDimension == 0 || m.itemCount == 0 || m.radixBlocks == 0 {
      return false;
    }
    DivisionDetectsOverflow(m.itemCount, m.radixBlocks);
    if m.itemCount > MAX / m.radixBlocks {
      return false;
    }
    var blockCount: Word := m.itemCount * m.radixBlocks;
    if m.maskDimension == MAX {
      CpuWordsAreExact(m);
      ProductGrows(Blocks(m), m.maskDimension + 1);
      return false;
    }
    DivisionDetectsOverflow(blockCount, m.maskDimension + 1);
    if blockCount > MAX / (m.maskDimension + 1) {
      return false;
    }
    var cpuWords: Word := blockCount * (m.maskDimension + 1);
    if blockCount > MAX / 3072 {
      return false;
    }
    var nativeWords: Word := blockCount * 3072;
    var expected := cpuWords;
    if operation == OP_ADD_NATIVE || operation == OP_ADD_ROUNDTRIP {
      expected := nativeWords;
    } else if operation == OP_ECHO && m.wordCount == nativeWords {
      expected := nativeWords;
    }
    ok := m.wordCount == expected && m.wordCount == payloadWords;
  }

  const OP_ECHO: Word := 0
  const OP_ADD: Word := 1
  const OP_ADD_NATIVE: Word := 2
  const OP_ADD_ROUNDTRIP: Word := 3

  /** The same in terms of the server's counts: both layouts must be expressible, and the
      word count must be the one of the operation. */
  predicate ClientAccepts(m: Metadata, payloadWords: nat, operation: Word) {
    && NonEmpty(m) && ExpectedCpuWords(m).Some? && ExpectedNativeWords(m).Some?
    && (operation == OP_ADD_NATIVE || operation == OP_ADD_ROUNDTRIP ==> HasNativePayload(m))
    && (operation == OP_ECHO ==> HasCpuPayload(m) || HasNativePayload(m))
    && (operation != OP_ADD_NATIVE && operation != OP_ADD_ROUNDTRIP && operation != OP_ECHO ==> HasCpuPayload(m))
    && m.wordCount == payloadWords
  }
}
