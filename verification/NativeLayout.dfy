/** The HPU-native psi64/V80 slot layout of one Big-LWE ciphertext.

    A logical ciphertext is 2048 mask words followed by the body. In the native
    layout it fills two processing-cluster (PC) slots of 1536 words: the mask is
    bit-reversed and dealt to the two slots in groups of 16 words, the body
    follows the mask in PC0, and the rest of both slots is zero.
 */
module NativeLayout {
  import opened Numbers
  import opened BitReversal

  const MASK_DIMENSION: nat := 2048
  const LOGICAL_WORDS: nat := 2049
  const PC_DATA_WORDS: nat := 1024
  const PC_SLOT_WORDS: nat := 1536
  const NATIVE_WORDS: nat := 3072

  type Logical = s: seq<Word> | |s| == 2049 witness ZeroWords(2049)
  type Native = s: seq<Word> | |s| == 3072 witness ZeroWords(3072)
  type Key = s: seq<bool> | |s| == 2048 witness seq(2048, _ => false)

  datatype Place = Place(pc: nat, offset: nat)

  /** Groups of 16 words go to the two slots in turn. */
  function Deal(hpuIndex: nat): (p: Place)
    requires hpuIndex < MASK_DIMENSION
    ensures p.pc < 2 && p.offset < PC_DATA_WORDS
  {
    var group := hpuIndex / 16;
    Place(group % 2, (group / 2) * 16 + hpuIndex % 16)
  }

  function Collect(p: Place): (hpuIndex: nat)
    requires p.pc < 2 && p.offset < PC_DATA_WORDS
    ensures hpuIndex < MASK_DIMENSION && Deal(hpuIndex) == p
  {
    ((p.offset / 16) * 2 + p.pc) * 16 + p.offset % 16
  }

  lemma CollectInvertsDeal(hpuIndex: nat)
    requires hpuIndex < MASK_DIMENSION
    ensures Collect(Deal(hpuIndex)) == hpuIndex
  {
    var half, pc, lane := hpuIndex / 32, hpuIndex / 16 % 2, hpuIndex % 16;
    assert hpuIndex == 32 * half + 16 * pc + lane;
    assert Deal(hpuIndex) == Place(pc, 16 * half + lane);
    assert (16 * half + lane) / 16 == half && (16 * half + lane) % 16 == lane;
  }

  function Rev11(x: nat): (r: nat)
    requires x < MASK_DIMENSION
    ensures r < MASK_DIMENSION
  {
    Pow2Of11();
    Rev(PSI64_STAGES, x)
  }

  lemma Rev11IsInvolution(x: nat)
    requires x < MASK_DIMENSION
    ensures Rev11(Rev11(x)) == x
  {
    Pow2Of11();
    RevIsInvolution(PSI64_STAGES, x);
  }

  /** Where the mask word with natural index `i` is stored. */
  function PlaceOf(i: nat): (p: Place)
    requires i < MASK_DIMENSION
    ensures p.pc < 2 && p.offset < PC_DATA_WORDS
  {
    Deal(Rev11(i))
  }

  lemma {:induction false} BitOfJoin(a: nat, b: nat, n: nat, t: nat)
    requires b < Pow2(n)
    ensures Bit(Pow2(n) * a + b, t) == if t < n then Bit(b, t) else Bit(a, t - n)
  {
    if n > 0 {
      var x := Pow2(n) * a + b;
      assert x == 2 * (Pow2(n - 1) * a + b / 2) + b % 2;
      if t > 0 {
        BitOfJoin(a, b / 2, n - 1, t - 1);
      }
    }
  }

  /** Dealing takes bit 4 of the index for the slot and closes the gap. */
  lemma DealBits(hpuIndex: nat, t: nat)
    requires hpuIndex < MASK_DIMENSION && t < 10
    ensures Deal(hpuIndex).pc == Bit(hpuIndex, 4)
    ensures Bit(Deal(hpuIndex).offset, t) == Bit(hpuIndex, if t < 4 then t else t + 1)
  {
    var group, lane := hpuIndex / 16, hpuIndex % 16;
    assert Pow2(4) == 16 && Pow2(1) == 2;
    BitOfJoin(group, lane, 4, if t < 4 then t else t + 1);
    BitOfJoin(group, lane, 4, 4);
    BitOfJoin(group / 2, lane, 4, t);
  }

  /** The layout bit by bit: bit 6 of the natural index selects the slot; bits 10 to 7, in
      reverse order, are the low bits of the offset, and bits 5 to 0 its high bits. */
  lemma PlaceBits(i: nat, t: nat)
    requires i < MASK_DIMENSION && t < 10
    ensures PlaceOf(i).pc == Bit(i, 6)
    ensures Bit(PlaceOf(i).offset, t) == Bit(i, if t < 4 then 10 - t else 9 - t)
  {
    Pow2Of11();
    DealBits(Rev11(i), t);
    RevBits(11, i, 4);
    RevBits(11, i, if t < 4 then t else t + 1);
  }

  /** Which mask word is stored at an offset of a PC slot (lwe_decrypt.cpp). */
  function NaturalIndex(pc: nat, offset: nat): (i: nat)
    requires pc < 2 && offset < PC_DATA_WORDS
    ensures i < MASK_DIMENSION
  {
    Rev11(Collect(Place(pc, offset)))
  }

  lemma PlaceInvertsNaturalIndex(pc: nat, offset: nat)
    requires pc < 2 && offset < PC_DATA_WORDS
    ensures PlaceOf(NaturalIndex(pc, offset)) == Place(pc, offset)
  {
    Rev11IsInvolution(Collect(Place(pc, offset)));
  }

  lemma NaturalIndexInvertsPlace(i: nat)
    requires i < MASK_DIMENSION
    ensures NaturalIndex(PlaceOf(i).pc, PlaceOf(i).offset) == i
  {
    Rev11IsInvolution(i);
    CollectInvertsDeal(Rev11(i));
  }

  /** Position of a slot offset in the 3072-word native form. */
  function Position(pc: nat, offset: nat): (j: nat)
    requires pc < 2 && offset < PC_SLOT_WORDS
    ensures j < NATIVE_WORDS
  {
    if pc == 0 then offset else PC_SLOT_WORDS + offset
  }

  /** Position of mask word `i` in the native form. */
  function MaskPosition(i: nat): (j: nat)
    requires i < MASK_DIMENSION
    ensures j < NATIVE_WORDS
  {
    Position(PlaceOf(i).pc, PlaceOf(i).offset)
  }

  predicate IsPadding(pc: nat, offset: nat) {
    pc < 2 && PC_DATA_WORDS <= offset < PC_SLOT_WORDS && (pc, offset) != (0, PC_DATA_WORDS)
  }

  lemma PlaceIsBijective(i: nat, pc: nat, offset: nat)
    requires i < MASK_DIMENSION && pc < 2 && offset < PC_DATA_WORDS
    ensures PlaceOf(i) == Place(pc, offset) <==> i == NaturalIndex(pc, offset)
  {
    NaturalIndexInvertsPlace(i);
    PlaceInvertsNaturalIndex(pc, offset);
  }

  /** The index map is a bijection onto the mask area, so it is injective and never
      hits the body word or the padding. */
  lemma MaskPositionIsBijective(i: nat, pc: nat, offset: nat)
    requires i < MASK_DIMENSION && pc < 2 && offset < PC_SLOT_WORDS
    ensures MaskPosition(i) == Position(pc, offset) <==>
            offset < PC_DATA_WORDS && i == NaturalIndex(pc, offset)
  {
    if offset < PC_DATA_WORDS {
      PlaceIsBijective(i, pc, offset);
    }
  }

  // ---------------------------------------------------------------- both forms

  function SlotWord(logical: Logical, pc: nat, offset: nat): (w: Word)
    requires pc < 2 && offset < PC_SLOT_WORDS
  {
    if offset < PC_DATA_WORDS then logical[NaturalIndex(pc, offset)]
    else if pc == 0 && offset == PC_DATA_WORDS then logical[MASK_DIMENSION]
    else 0
  }

  function Slot(logical: Logical, pc: nat): (slot: seq<Word>)
    requires pc < 2
    ensures |slot| == PC_SLOT_WORDS
  {
    seq(1536, offset requires 0 <= offset < 1536 => SlotWord(logical, pc, offset))
  }

  function ToNative(logical: Logical): (native: Native)
  {
    Slot(logical, 0) + Slot(logical, 1)
  }

  lemma NativeAt(logical: Logical, pc: nat, offset: nat)
    requires pc < 2 && offset < PC_SLOT_WORDS
    ensures ToNative(logical)[Position(pc, offset)] == SlotWord(logical, pc, offset)
  {
  }

  function LogicalWord(native: Native, i: nat): (w: Word)
    requires i < LOGICAL_WORDS
  {
    if i < MASK_DIMENSION then native[MaskPosition(i)] else native[PC_DATA_WORDS]
  }

  function ToLogical(native: Native): (logical: Logical) {
    seq(2049, i requires 0 <= i < 2049 => LogicalWord(native, i))
  }

  ghost predicate PaddingIsZero(native: Native) {
    forall pc: nat, offset: nat | IsPadding(pc, offset) :: native[Position(pc, offset)] == 0
  }

  lemma LogicalWordOfNative(logical: Logical, i: nat)
    requires i < LOGICAL_WORDS
    ensures LogicalWord(ToNative(logical), i) == logical[i]
  {
    if i < MASK_DIMENSION {
      NaturalIndexInvertsPlace(i);
      NativeAt(logical, PlaceOf(i).pc, PlaceOf(i).offset);
    } else {
      NativeAt(logical, 0, PC_DATA_WORDS);
    }
  }

  lemma LogicalOfNative(logical: Logical)
    ensures ToLogical(ToNative(logical)) == logical
    ensures PaddingIsZero(ToNative(logical))
  {
    forall i | 0 <= i < LOGICAL_WORDS
      ensures LogicalWord(ToNative(logical), i) == logical[i]
    {
      LogicalWordOfNative(logical, i);
    }
    forall pc: nat, offset: nat | IsPadding(pc, offset)
      ensures ToNative(logical)[Position(pc, offset)] == 0
    {
      NativeAt(logical, pc, offset);
    }
  }

  /** Where everything is: mask word `i` in the slot and at the offset of its bits, the body
      behind the mask of the first slot, zeros everywhere else. */
  lemma NativeForm(logical: Logical, i: nat, j: nat)
    requires i < 2048 && j < 3072
    ensures Bit(i, 6) == 0 ==> PlaceOf(i).offset < 1024 && ToNative(logical)[PlaceOf(i).offset] == logical[i]
    ensures Bit(i, 6) == 1 ==> ToNative(logical)[1536 + PlaceOf(i).offset] == logical[i]
    ensures ToNative(logical)[1024] == logical[2048]
    ensures 1025 <= j < 1536 || 2560 <= j ==> ToNative(logical)[j] == 0
  {
    PlaceBits(i, 0);
    LogicalWordOfNative(logical, i);
    LogicalWordOfNative(logical, 2048);
    NativeAt(logical, if j < 1536 then 0 else 1, if j < 1536 then j else j - 1536);
  }

  lemma SlotWordOfLogical(native: Native, pc: nat, offset: nat)
    requires pc < 2 && offset < PC_SLOT_WORDS
    ensures SlotWord(ToLogical(native), pc, offset)
         == if IsPadding(pc, offset) then 0 else native[Position(pc, offset)]
  {
    if offset < PC_DATA_WORDS {
      PlaceInvertsNaturalIndex(pc, offset);
    }
  }

  lemma NativeExtensional(a: Native, b: Native)
    requires forall pc: nat, offset: nat | pc < 2 && offset < PC_SLOT_WORDS ::
      a[Position(pc, offset)] == b[Position(pc, offset)]
    ensures a == b
  {
    forall j: nat | j < NATIVE_WORDS
      ensures a[j] == b[j]
    {
      assert j == Position(if j < 1536 then 0 else 1, if j < 1536 then j else j - 1536);
    }
  }

  /** The native form is the image of a logical one exactly if its padding is zero. */
  lemma NativeOfLogical(native: Native)
    ensures ToNative(ToLogical(native)) == native <==> PaddingIsZero(native)
  {
    var back := ToNative(ToLogical(native));
    forall pc: nat, offset: nat | pc < 2 && offset < PC_SLOT_WORDS
      ensures back[Position(pc, offset)]
           == if IsPadding(pc, offset) then 0 else native[Position(pc, offset)]
    {
      NativeAt(ToLogical(native), pc, offset);
      SlotWordOfLogical(native, pc, offset);
    }
    if PaddingIsZero(native) {
      NativeExtensional(back, native);
    }
  }

  // ---------------------------------------------------------------- dot products

  /** The selected mask words in natural order, as the hosts add them. */
  ghost function NaturalTerms(key: Key, logical: Logical): (t: seq<int>)
    ensures |t| == MASK_DIMENSION
  {
    seq(2048, i requires 0 <= i < 2048 => if key[i] then logical[i] as int else 0)
  }

  /** The `m`-th mask word of the stream: PC0 first, then PC1. */
  function StreamNatural(m: nat): (i: nat)
    requires m < MASK_DIMENSION
    ensures i < MASK_DIMENSION
  {
    NaturalIndex(m / PC_DATA_WORDS, m % PC_DATA_WORDS)
  }

  function StreamPosition(m: nat): (j: nat)
    requires m < MASK_DIMENSION
    ensures j < NATIVE_WORDS
  {
    Position(m / PC_DATA_WORDS, m % PC_DATA_WORDS)
  }

  function StreamRank(i: nat): (m: nat)
    requires i < MASK_DIMENSION
    ensures m < MASK_DIMENSION
  {
    PlaceOf(i).pc * PC_DATA_WORDS + PlaceOf(i).offset
  }

  lemma RankInvertsNatural(m: nat)
    requires m < MASK_DIMENSION
    ensures StreamRank(StreamNatural(m)) == m
    ensures MaskPosition(StreamNatural(m)) == StreamPosition(m)
  {
    PlaceInvertsNaturalIndex(m / PC_DATA_WORDS, m % PC_DATA_WORDS);
  }

  lemma NaturalInvertsRank(i: nat)
    requires i < MASK_DIMENSION
    ensures StreamNatural(StreamRank(i)) == i
  {
    NaturalIndexInvertsPlace(i);
    var place := PlaceOf(i);
    assert StreamRank(i) / PC_DATA_WORDS == place.pc;
    assert StreamRank(i) % PC_DATA_WORDS == place.offset;
  }

  /** The key in the order of the stream. */
  function StreamKey(key: Key): (selected: Key) {
    seq(2048, m requires 0 <= m < 2048 => key[StreamNatural(m)])
  }

  /** The selected mask words in the order of the stream, as lwe_decrypt adds them. */
  ghost function StreamTerms(selected: Key, native: Native): (t: seq<int>)
    ensures |t| == MASK_DIMENSION
  {
    seq(2048, m requires 0 <= m < 2048 =>
      if selected[m] then native[StreamPosition(m)] as int else 0)
  }

  lemma StreamTermIsNaturalTerm(key: Key, native: Native, m: nat)
    requires m < MASK_DIMENSION
    ensures StreamTerms(StreamKey(key), native)[m]
         == NaturalTerms(key, ToLogical(native))[StreamNatural(m)]
  {
    RankInvertsNatural(m);
    assert ToLogical(native)[StreamNatural(m)] == LogicalWord(native, StreamNatural(m));
  }

  lemma StreamOrderIsPermutation() returns (p: seq<nat>, q: seq<nat>)
    ensures |p| == MASK_DIMENSION && Inverse(p, q)
    ensures forall m | 0 <= m < MASK_DIMENSION :: p[m] == StreamNatural(m)
  {
    p := seq(2048, m requires 0 <= m < 2048 => StreamNatural(m));
    q := seq(2048, i requires 0 <= i < 2048 => StreamRank(i));
    forall m | 0 <= m < 2048
      ensures p[m] < 2048 && q[p[m]] == m
    {
      RankInvertsNatural(m);
    }
    forall i | 0 <= i < 2048
      ensures q[i] < 2048 && p[q[i]] == i
    {
      NaturalInvertsRank(i);
    }
  }

  lemma StreamOrderDoesNotMatter(key: Key, native: Native)
    ensures Sum(StreamTerms(StreamKey(key), native)) == Sum(NaturalTerms(key, ToLogical(native)))
  {
    var p, q := StreamOrderIsPermutation();
    var a, b := NaturalTerms(key, ToLogical(native)), StreamTerms(StreamKey(key), native);
    forall m | 0 <= m < |b|
      ensures b[m] == a[p[m]]
    {
      StreamTermIsNaturalTerm(key, native, m);
    }
    SumUnderBijection(a, b, p, q);
  }

  // ---------------------------------------------------------------- the Rust packer

  /** The index arithmetic of the Rust benchmark. */
  method ComputePlace(i: nat) returns (pc: nat, offset: nat)
    requires i < MASK_DIMENSION
    ensures Place(pc, offset) == PlaceOf(i)
  {
    var hpuIndex := ReverseByConsuming(i);
    var group := hpuIndex / 16;
    var lane := hpuIndex % 16;
    pc := group % 2;
    offset := (group / 2) * 16 + lane;
  }

  /** The same arithmetic on the C++ hosts, over their own bit reversal. */
  method ComputeHostPlace(i: nat) returns (pc: nat, offset: nat)
    requires i < MASK_DIMENSION
    ensures Place(pc, offset) == PlaceOf(i)
  {
    var hpuIndex := ReverseByShiftedReads(i);
    pc := hpuIndex / 16 % 2;
    offset := (hpuIndex / 16 / 2) * 16 + hpuIndex % 16;
  }

  /** A slot while the first `i` mask words have been scattered over zeros. */
  ghost function Scattered(logical: Logical, i: nat, pc: nat, offset: nat): (w: Word)
    requires pc < 2 && offset < PC_SLOT_WORDS
  {
    if offset < PC_DATA_WORDS && NaturalIndex(pc, offset) < i
    then logical[NaturalIndex(pc, offset)] else 0
  }

  ghost predicate HoldsFirst(native: Native, logical: Logical, i: nat) {
    forall pc: nat, offset: nat | pc < 2 && offset < PC_SLOT_WORDS ::
      native[Position(pc, offset)] == Scattered(logical, i, pc, offset)
  }

  lemma ScatterStep(native: Native, logical: Logical, i: nat)
    requires i < MASK_DIMENSION && HoldsFirst(native, logical, i)
    ensures HoldsFirst(native[MaskPosition(i) := logical[i]], logical, i + 1)
  {
    var native' := native[MaskPosition(i) := logical[i]];
    forall pc: nat, offset: nat | pc < 2 && offset < PC_SLOT_WORDS
      ensures native'[Position(pc, offset)] == Scattered(logical, i + 1, pc, offset)
    {
      MaskPositionIsBijective(i, pc, offset);
      assert native[Position(pc, offset)] == Scattered(logical, i, pc, offset);
    }
  }

  lemma BodyStep(native: Native, logical: Logical)
    requires HoldsFirst(native, logical, MASK_DIMENSION)
    ensures native[PC_DATA_WORDS := logical[MASK_DIMENSION]] == ToNative(logical)
  {
    var native' := native[PC_DATA_WORDS := logical[MASK_DIMENSION]];
    forall pc: nat, offset: nat | pc < 2 && offset < PC_SLOT_WORDS
      ensures native'[Position(pc, offset)] == ToNative(logical)[Position(pc, offset)]
    {
      NativeAt(logical, pc, offset);
      assert native[Position(pc, offset)] == Scattered(logical, MASK_DIMENSION, pc, offset);
    }
    NativeExtensional(native', ToNative(logical));
  }

  lemma PositionOfPlace(i: nat)
    requires i < MASK_DIMENSION
    ensures MaskPosition(i) == PlaceOf(i).pc * 1536 + PlaceOf(i).offset
  {
  }

  method FillZero(native: array<Word>)
    modifies native
    ensures forall t | 0 <= t < native.Length :: native[t] == 0
  {
    for j := 0 to native.Length
      invariant forall t | 0 <= t < j :: native[t] == 0
    {
      native[j] := 0;
    }
  }

  /** `pack_lwe_hpu_native`: zero the slice, scatter the mask, store the body. */
  method PackNative(logical: Logical, native: array<Word>)
    requires native.Length == 3072
    modifies native
    ensures native[..] == ToNative(logical)
  {
    FillZero(native);
    for i := 0 to 2048
      invariant HoldsFirst(native[..], logical, i)
    {
      var pc, offset := ComputePlace(i);
      PositionOfPlace(i);
      ScatterStep(native[..], logical, i);
      ghost var before := native[..];
      native[pc * PC_SLOT_WORDS + offset] := logical[i];
      assert native[..] == before[MaskPosition(i) := logical[i]];
    }
    BodyStep(native[..], logical);
    ghost var before := native[..];
    native[PC_DATA_WORDS] := logical[MASK_DIMENSION];
    assert native[..] == before[PC_DATA_WORDS := logical[MASK_DIMENSION]];
  }

  method CheckPadding(native: Native) returns (ok: bool)
    ensures ok <==> PaddingIsZero(native)
  {
    for j := 1025 to 1536
      invariant forall t | 1025 <= t < j :: native[t] == 0
    {
      if native[j] != 0 {
        assert IsPadding(0, j) && Position(0, j) == j;
        return false;
      }
    }
    for j := 2560 to 3072
      invariant forall t | 2560 <= t < j :: native[t] == 0
    {
      if native[j] != 0 {
        assert IsPadding(1, j - 1536) && Position(1, j - 1536) == j;
        return false;
      }
    }
    ok := true;
  }

  lemma SameLogical(logical: Logical, native: Native)
    ensures native == ToNative(logical) <==>
            (&& PaddingIsZero(native)
             && forall t | 0 <= t < LOGICAL_WORDS :: LogicalWord(native, t) == logical[t])
  {
    LogicalOfNative(logical);
    NativeOfLogical(native);
    if native == ToNative(logical) {
      forall t | 0 <= t < LOGICAL_WORDS
        ensures LogicalWord(native, t) == logical[t]
      {
        LogicalWordOfNative(logical, t);
      }
    } else if forall t | 0 <= t < LOGICAL_WORDS :: LogicalWord(native, t) == logical[t] {
      assert ToLogical(native) == logical;
    }
  }

  /** Some mask or body word differs. */
  ghost predicate Differs(logical: Logical, native: Native) {
    exists t | 0 <= t < LOGICAL_WORDS :: LogicalWord(native, t) != logical[t]
  }

  /** The comparison of the mask words and the body. */
  method CompareWords(logical: Logical, native: Native) returns (ok: bool)
    ensures ok <==> !Differs(logical, native)
  {
    for i := 0 to 2048
      invariant forall t | 0 <= t < i :: LogicalWord(native, t) == logical[t]
    {
      var pc, offset := ComputePlace(i);
      PositionOfPlace(i);
      assert LogicalWord(native, i) == native[pc * 1536 + offset];
      if native[pc * PC_SLOT_WORDS + offset] != logical[i] {
        return false;
      }
    }
    assert LogicalWord(native, 2048) == native[1024];
    ok := native[PC_DATA_WORDS] == logical[MASK_DIMENSION];
  }

  /** `verify_hpu_native_batch` for one block: accepts exactly the packed form. */
  method VerifyNative(logical: Logical, native: Native) returns (ok: bool)
    ensures ok <==> native == ToNative(logical)
  {
    SameLogical(logical, native);
    ok := CompareWords(logical, native);
    if ok {
      ok := CheckPadding(native);
    }
  }
}
