/** The operator context: a configuration word and the packed secret key.

    The hosts write a 4096-byte page that the runtime maps to 512-bit context word
    3. The operators see 256 context words; byte `b` of word `w` is byte
    `64 * w + b` here.
 */
module Context {
  import opened Numbers
  import opened BitReversal
  import opened NativeLayout

  type Context = c: seq<Byte> | |c| == 16384 witness Zeros(16384)
  type Page = p: seq<Byte> | |p| == 4096 witness Zeros(4096)

  function U32At(bytes: seq<Byte>, offset: nat): (v: nat)
    requires offset + 4 <= |bytes|
    ensures v < TWO32
  {
    Pow256Of8();
    FromLE(bytes[offset..offset + 4])
  }

  function U64At(bytes: seq<Byte>, offset: nat): (v: Word)
    requires offset + 8 <= |bytes|
  {
    BytesWord(bytes[offset..offset + 8])
  }

  const CONFIG: nat := 192

  /** `secret_key_bit`: bit `index & 511` of context word `4 + (index >> 9)`. */
  predicate SecretKeyBit(context: Context, index: nat) {
    var word := 4 + index / 512;
    word < 256 && Bit(context[64 * word + (index % 512) / 8], (index % 512) % 8) == 1
  }

  ghost predicate Installed(context: Context, page: Page) {
    context[CONFIG..CONFIG + 4096] == page
  }

  lemma InstalledU32(context: Context, page: Page, offset: nat)
    requires Installed(context, page) && offset + 4 <= 64
    ensures U32At(context, CONFIG + offset) == U32At(page, offset)
  {
    SliceOfSlice(context, CONFIG, CONFIG + 4096, offset, offset + 4);
  }

  lemma InstalledU64(context: Context, page: Page, offset: nat)
    requires Installed(context, page) && offset + 8 <= 64
    ensures U64At(context, CONFIG + offset) == U64At(page, offset)
  {
    SliceOfSlice(context, CONFIG, CONFIG + 4096, offset, offset + 8);
  }

  // ---------------------------------------------------------------- the key

  /** One coefficient per bit, starting at page offset 64. */
  ghost predicate HoldsKey(page: Page, key: Key) {
    forall i: nat | i < MASK_DIMENSION :: KeyBitOfPage(page, i) <==> key[i]
  }

  predicate KeyBitOfPage(page: seq<Byte>, i: nat)
    requires |page| == 4096 && i < MASK_DIMENSION
  {
    Bit(page[64 + i / 8], i % 8) == 1
  }

  /** The operators read the key the hosts packed. */
  lemma OperatorReadsPackedKey(context: Context, page: Page, key: Key, i: nat)
    requires Installed(context, page) && HoldsKey(page, key) && i < MASK_DIMENSION
    ensures SecretKeyBit(context, i) <==> key[i]
  {
    var word := 4 + i / 512;
    assert 64 * word + (i % 512) / 8 == CONFIG + (64 + i / 8) && (i % 512) % 8 == i % 8;
    assert context[CONFIG + (64 + i / 8)] == page[64 + i / 8];
    assert KeyBitOfPage(page, i) <==> key[i];
  }

  /** `v | (1 << b)` */
  function SetBit(v: nat, b: nat): (r: nat) {
    if Bit(v, b) == 1 then v else v + Pow2(b)
  }

  lemma {:induction false} BitOfSetBit(v: nat, b: nat, c: nat)
    ensures Bit(SetBit(v, b), c) == 1 <==> b == c || Bit(v, c) == 1
    decreases b + c
  {
    if b > 0 && c > 0 {
      BitOfSetBit(v / 2, b - 1, c - 1);
    } else if c > 0 {
      assert SetBit(v, 0) / 2 == v / 2;
    }
  }

  lemma SetBitStep(v: nat, b: nat)
    requires b > 0
    ensures SetBit(v, b) == 2 * SetBit(v / 2, b - 1) + v % 2
  {
  }

  lemma {:induction false} SetBitFits(v: nat, b: nat, n: nat)
    requires v < Pow2(n) && b < n
    ensures SetBit(v, b) < Pow2(n)
  {
    if b > 0 {
      SetBitStep(v, b);
      assert SetBit(v / 2, b - 1) < Pow2(n - 1) by {
        SetBitFits(v / 2, b - 1, n - 1);
      }
    }
  }

  lemma {:induction false} BitOfZero(c: nat)
    ensures Bit(0, c) == 0
  {
    if c > 0 {
      BitOfZero(c - 1);
    }
  }

  lemma SetKeyBit(before: Page, after: Page, i: nat, t: nat)
    requires i < MASK_DIMENSION && t < MASK_DIMENSION
    requires after == before[64 + i / 8 := SetByteBit(before[64 + i / 8], i % 8)]
    ensures KeyBitOfPage(after, t) <==> t == i || KeyBitOfPage(before, t)
  {
    if t / 8 == i / 8 {
      BitOfSetBit(before[64 + i / 8], i % 8, t % 8);
      assert t % 8 == i % 8 <==> t == i;
    }
  }

  function SetByteBit(v: Byte, b: nat): (r: Byte)
    requires b < 8
  {
    assert Pow2(8) == 256 by {
      assert Pow2(4) == 16;
    }
    SetBitFits(v, b, 8);
    SetBit(v, b)
  }

  // ---------------------------------------------------------------- building pages

  /** `store_u32`, `store_u64`, on a page that is still zero from `offset` on. */
  method Store(page: array<Byte>, offset: nat, v: nat, n: nat, ghost before: seq<Byte>)
    requires offset + n <= page.Length
    requires page[..offset] == before && ZeroFrom(page[..], offset)
    modifies page
    ensures page[..offset + n] == before + ToLE(v, n) && ZeroFrom(page[..], offset + n)
  {
    for i := 0 to n
      invariant page[..offset + i] == before + ToLE(v, n)[..i]
      invariant ZeroFrom(page[..], offset + i)
    {
      LeByteIsShift(v, n, i);
      page[offset + i] := (v / Pow256(i)) % 256;
      assert page[..offset + i + 1] == page[..offset + i] + [page[offset + i]];
    }
  }

  ghost predicate ZeroFrom(bytes: seq<Byte>, offset: nat) {
    forall j | offset <= j < |bytes| :: bytes[j] == 0
  }

  /** The loop of both `build_context` functions that packs the key. */
  method PackKey(page: array<Byte>, key: Key)
    requires page.Length == 4096
    requires ZeroFrom(page[..], 64)
    modifies page
    ensures HoldsKey(page[..], key) && page[..64] == old(page[..64])
  {
    forall t: nat | t < MASK_DIMENSION
      ensures !KeyBitOfPage(page[..], t)
    {
      BitOfZero(t % 8);
    }
    for i := 0 to 2048
      invariant page[..64] == old(page[..64])
      invariant forall t: nat | t < MASK_DIMENSION ::
        KeyBitOfPage(page[..], t) <==> t < i && key[t]
    {
      if key[i] {
        ghost var before := page[..];
        page[64 + i / 8] := SetByteBit(page[64 + i / 8], i % 8);
        forall t: nat | t < MASK_DIMENSION
          ensures KeyBitOfPage(page[..], t) <==> t == i || KeyBitOfPage(before, t)
        {
          SetKeyBit(before, page[..], i, t);
        }
      }
    }
  }

  method Clear(page: array<Byte>)
    modifies page
    ensures page[..] == Zeros(page.Length)
  {
    for i := 0 to page.Length
      invariant forall j | 0 <= j < i :: page[j] == 0
    {
      page[i] := 0;
    }
  }

  /** 32-bit fields one after the other. */
  function U32s(vs: seq<nat>): (bytes: seq<Byte>)
    ensures |bytes| == 4 * |vs|
  {
    if vs == [] then [] else U32s(vs[..|vs| - 1]) + ToLE(vs[|vs| - 1], 4)
  }

  lemma U32sUpTo(vs: seq<nat>, i: nat)
    requires i < |vs|
    ensures U32s(vs[..i + 1]) == U32s(vs[..i]) + ToLE(vs[i], 4)
  {
    U32sSnoc(vs[..i], vs[i]);
    assert vs[..i + 1] == vs[..i] + [vs[i]];
  }

  lemma U32sSnoc(vs: seq<nat>, v: nat)
    ensures U32s(vs + [v]) == U32s(vs) + ToLE(v, 4)
  {
    assert (vs + [v])[..|vs|] == vs;
  }

  lemma {:induction false} U32sSlice(vs: seq<nat>, i: nat)
    requires i < |vs|
    ensures U32s(vs)[4 * i..4 * i + 4] == ToLE(vs[i], 4)
  {
    var n := |vs| - 1;
    if i < n {
      U32sSlice(vs[..n], i);
    }
  }

  ghost function EncryptFields(n: nat, zeroNoise: bool, layout: nat): (vs: seq<nat>)
    ensures |vs| == 6
  {
    [2048, n, 2, if zeroNoise then 2 else 0, 17, layout]
  }

  ghost function EncryptConfig(n: nat, zeroNoise: bool, layout: nat, seed: Word, nonce: Word): (c: seq<Byte>)
    ensures |c| == 64
  {
    U32s(EncryptFields(n, zeroNoise, layout)) + Zeros(8)
    + WordsBytes([0x0800_0000_0000_0000, seed, nonce]) + Zeros(8)
  }

  ghost function DecryptConfig(n: nat): (c: seq<Byte>)
    ensures |c| == 64
  {
    U32s([n, 2048]) + WordsBytes([0x0800_0000_0000_0000]) + U32s([2, 4, 1]) + Zeros(36)
  }

  /** Consecutive `store_u32` calls. */
  method StoreU32s(page: array<Byte>, offset: nat, vs: seq<nat>, ghost before: seq<Byte>)
    requires offset + 4 * |vs| <= page.Length
    requires page[..offset] == before && ZeroFrom(page[..], offset)
    modifies page
    ensures page[..offset + 4 * |vs|] == before + U32s(vs) && ZeroFrom(page[..], offset + 4 * |vs|)
  {
    for i := 0 to |vs|
      invariant page[..offset + 4 * i] == before + U32s(vs[..i])
      invariant ZeroFrom(page[..], offset + 4 * i)
    {
      Store(page, offset + 4 * i, vs[i], 4, before + U32s(vs[..i]));
      U32sUpTo(vs, i);
      Assoc(before, U32s(vs[..i]), ToLE(vs[i], 4));
    }
    assert vs[..|vs|] == vs;
  }

  /** Consecutive `store_u64` calls. */
  method StoreU64s(page: array<Byte>, offset: nat, ws: seq<Word>, ghost before: seq<Byte>)
    requires offset + 8 * |ws| <= page.Length
    requires page[..offset] == before && ZeroFrom(page[..], offset)
    modifies page
    ensures page[..offset + 8 * |ws|] == before + WordsBytes(ws) && ZeroFrom(page[..], offset + 8 * |ws|)
  {
    for i := 0 to |ws|
      invariant page[..offset + 8 * i] == before + WordsBytes(ws[..i])
      invariant ZeroFrom(page[..], offset + 8 * i)
    {
      Store(page, offset + 8 * i, ws[i], 8, before + WordsBytes(ws[..i]));
      WordsBytesUpTo(ws, i);
      Assoc(before, WordsBytes(ws[..i]), WordBytes(ws[i]));
    }
    assert ws[..|ws|] == ws;
  }

  /** `build_context` of the encryption host. */
  method BuildEncryptContext(page: array<Byte>, key: Key, n: nat, zeroNoise: bool, layout: nat,
                             seed: Word, nonce: Word)
    requires page.Length == 4096
    modifies page
    ensures page[..64] == EncryptConfig(n, zeroNoise, layout, seed, nonce)
    ensures HoldsKey(page[..], key)
  {
    Clear(page);
    StoreEncryptFields(page, [2048, n, 2, if zeroNoise then 2 else 0, 17, layout],
                       [0x0800_0000_0000_0000, seed, nonce]);
    PackKey(page, key);
  }

  lemma ZeroTail(bytes: seq<Byte>, a: nat, b: nat)
    requires a <= b <= |bytes| && ZeroFrom(bytes, a)
    ensures bytes[..b] == bytes[..a] + Zeros(b - a)
  {
  }

  lemma PrefixOfArray(page: array<Byte>, n: nat)
    requires n <= page.Length
    ensures page[..n] == page[..][..n]
  {
  }

  /** Fields at the start of a page, words from offset 32 on, and zeros up to 64. */
  method StoreEncryptFields(page: array<Byte>, vs: seq<nat>, ws: seq<Word>)
    requires page.Length == 4096 && |vs| == 6 && |ws| == 3 && ZeroFrom(page[..], 0)
    modifies page
    ensures page[..64] == U32s(vs) + Zeros(8) + WordsBytes(ws) + Zeros(8)
    ensures ZeroFrom(page[..], 64)
  {
    StoreU32s(page, 0, vs, []);
    assert [] + U32s(vs) == U32s(vs);
    ZeroTail(page[..], 24, 32);
    PrefixOfArray(page, 24);
    PrefixOfArray(page, 32);
    StoreU64s(page, 32, ws, U32s(vs) + Zeros(8));
    ZeroTail(page[..], 56, 64);
    PrefixOfArray(page, 56);
    PrefixOfArray(page, 64);
  }

  /** `build_context` of the decryption host. */
  method BuildDecryptContext(page: array<Byte>, key: Key, n: nat)
    requires page.Length == 4096
    modifies page
    ensures page[..64] == DecryptConfig(n)
    ensures HoldsKey(page[..], key)
  {
    Clear(page);
    StoreDecryptFields(page, [n, 2048], [0x0800_0000_0000_0000], [2, 4, 1]);
    PackKey(page, key);
  }

  method StoreDecryptFields(page: array<Byte>, vs: seq<nat>, ws: seq<Word>, us: seq<nat>)
    requires page.Length == 4096 && |vs| == 2 && |ws| == 1 && |us| == 3 && ZeroFrom(page[..], 0)
    modifies page
    ensures page[..64] == U32s(vs) + WordsBytes(ws) + U32s(us) + Zeros(36)
    ensures ZeroFrom(page[..], 64)
  {
    StoreU32s(page, 0, vs, []);
    assert [] + U32s(vs) == U32s(vs);
    StoreU64s(page, 8, ws, U32s(vs));
    StoreU32s(page, 16, us, U32s(vs) + WordsBytes(ws));
    ZeroTail(page[..], 28, 64);
    PrefixOfArray(page, 28);
    PrefixOfArray(page, 64);
  }

  // ---------------------------------------------------------------- reading pages

  lemma PageU32(page: Page, before: seq<Byte>, vs: seq<nat>, after: seq<Byte>, i: nat)
    requires page[..64] == before + U32s(vs) + after && i < |vs| && vs[i] < TWO32
    requires |before| + 4 * |vs| + |after| == 64
    ensures U32At(page, |before| + 4 * i) == vs[i]
  {
    SliceOfMiddle(page, 64, before, U32s(vs), after, 4 * i, 4);
    U32sSlice(vs, i);
    var o := |before| + 4 * i;
    assert page[o..o + 4] == ToLE(vs[i], 4);
    Pow256Of8();
    LeDecodesEncoding(vs[i], 4);
  }

  lemma PageU64(page: Page, before: seq<Byte>, ws: seq<Word>, after: seq<Byte>, i: nat)
    requires page[..64] == before + WordsBytes(ws) + after && i < |ws|
    requires |before| + 8 * |ws| + |after| == 64
    ensures U64At(page, |before| + 8 * i) == ws[i]
  {
    SliceOfMiddle(page, 64, before, WordsBytes(ws), after, 8 * i, 8);
    WordsBytesSlice(ws, i);
    var o := |before| + 8 * i;
    assert page[o..o + 8] == WordBytes(ws[i]);
  }
}
