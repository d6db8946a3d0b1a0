/** The xorshift generator of lwe_encrypt and its noise sampler.

    A 64-bit register is a sequence of 64 bits, least significant first, so that
    shifts and exclusive ors are what they are in hardware.
 */
module MaskGenerator {
  import opened Numbers
  import opened BitReversal

  type Bits = s: seq<bool> | |s| == 64 witness seq(64, _ => false)

  function ToBits(v: nat, n: nat): (s: seq<bool>)
    ensures |s| == n
  {
    seq(n, i requires 0 <= i < n => Bit(v, i) == 1)
  }

  function FromBits(s: seq<bool>): (v: nat)
    ensures v < Pow2(|s|)
  {
    if s == [] then 0 else (if s[0] then 1 else 0) + 2 * FromBits(s[1..])
  }

  lemma {:induction false} BitOfValue(s: seq<bool>, i: nat)
    requires i < |s|
    ensures Bit(FromBits(s), i) == 1 <==> s[i]
  {
    if i > 0 {
      BitOfValue(s[1..], i - 1);
    }
  }

  lemma {:induction false} ValueOfBits(v: nat, n: nat)
    requires v < Pow2(n)
    ensures FromBits(ToBits(v, n)) == v
  {
    if n > 0 {
      ValueOfBits(v / 2, n - 1);
      assert ToBits(v, n)[1..] == ToBits(v / 2, n - 1);
    }
  }

  lemma {:induction false} HighBitsAreClear(v: nat, k: nat, i: nat)
    requires v < Pow2(k) && k <= i
    ensures Bit(v, i) == 0
  {
    if i > 0 {
      HighBitsAreClear(v / 2, if k == 0 then 0 else k - 1, i - 1);
    }
  }

  lemma {:induction false} TopBit(v: nat, k: nat)
    requires Pow2(k) <= v < 2 * Pow2(k)
    ensures Bit(v, k) == 1
  {
    if k > 0 {
      TopBit(v / 2, k - 1);
    }
  }

  function WordBits(w: Word): Bits {
    ToBits(w, 64)
  }

  function BitsWord(b: Bits): Word {
    Pow2Of64();
    FromBits(b)
  }

  function Xor(a: Bits, b: Bits): Bits {
    seq(64, i requires 0 <= i < 64 => a[i] != b[i])
  }

  /** `a ^ (a << n)` */
  function XorLeft(a: Bits, n: nat): Bits {
    seq(64, i requires 0 <= i < 64 => a[i] != (i >= n && a[i - n]))
  }

  /** `a ^ (a >> n)` */
  function XorRight(a: Bits, n: nat): Bits {
    seq(64, i requires 0 <= i < 64 => a[i] != (i + n < 64 && a[i + n]))
  }

  // ---------------------------------------------------------------- the generator

  const GOLDEN_WORD: Word := 0x9e37_79b9_7f4a_7c15

  function Zero(): Bits {
    seq(64, _ => false)
  }

  /** Replaces a state of zero. */
  function Golden(): Bits {
    WordBits(GOLDEN_WORD)
  }

  function XorShift(state: Bits): Bits {
    XorLeft(XorRight(XorLeft(state, 13), 7), 17)
  }

  /** `next_random`: the new state is also the value drawn. */
  function NextBits(state: Bits): Bits {
    XorShift(if state == Zero() then Golden() else state)
  }

  function Iterate(step: Bits -> Bits, state: Bits, n: nat): Bits
    decreases n, state
  {
    if n == 0 then state else step(Iterate(step, state, n - 1))
  }

  /** The state after `n` draws. */
  function DrawBits(state: Bits, n: nat): Bits {
    Iterate(NextBits, state, n)
  }

  /** The initial state of one ciphertext. The index is a 32-bit number, but adding
      one to it does not wrap. */
  function SeedBits(seed: Word, nonce: Word, ciphertextIndex: nat): Bits
    requires ciphertextIndex < TWO32
  {
    Xor(Xor(WordBits(seed), WordBits(nonce)), WordBits(ciphertextIndex + 1))
  }

  // ---------------------------------------------------------------- bijection

  /** Bit `i` of the `x` with `a == x ^ (x << n)`. */
  function UnShlBit(a: Bits, n: nat, i: nat): bool
    requires n > 0 && i < 64
  {
    if i < n then a[i] else a[i] != UnShlBit(a, n, i - n)
  }

  function UnShl(a: Bits, n: nat): Bits
    requires n > 0
  {
    seq(64, i requires 0 <= i < 64 => UnShlBit(a, n, i))
  }

  /** Bit `i` of the `x` with `a == x ^ (x >> n)`. */
  function UnShrBit(a: Bits, n: nat, i: nat): bool
    requires n > 0 && i < 64
    decreases 64 - i
  {
    if i + n >= 64 then a[i] else a[i] != UnShrBit(a, n, i + n)
  }

  function UnShr(a: Bits, n: nat): Bits
    requires n > 0
  {
    seq(64, i requires 0 <= i < 64 => UnShrBit(a, n, i))
  }

  lemma {:induction false} UnShlBitCorrect(x: Bits, n: nat, i: nat)
    requires n > 0 && i < 64
    ensures UnShlBit(XorLeft(x, n), n, i) == x[i]
  {
    if i >= n {
      UnShlBitCorrect(x, n, i - n);
    }
  }

  lemma ShlStepIsBijective(x: Bits, n: nat)
    requires n > 0
    ensures UnShl(XorLeft(x, n), n) == x
    ensures XorLeft(UnShl(x, n), n) == x
  {
    forall i | 0 <= i < 64
      ensures UnShlBit(XorLeft(x, n), n, i) == x[i]
    {
      UnShlBitCorrect(x, n, i);
    }
  }

  lemma {:induction false} UnShrBitCorrect(x: Bits, n: nat, i: nat)
    requires n > 0 && i < 64
    ensures UnShrBit(XorRight(x, n), n, i) == x[i]
    decreases 64 - i
  {
    if i + n < 64 {
      UnShrBitCorrect(x, n, i + n);
    }
  }

  lemma ShrStepIsBijective(x: Bits, n: nat)
    requires n > 0
    ensures UnShr(XorRight(x, n), n) == x
    ensures XorRight(UnShr(x, n), n) == x
  {
    forall i | 0 <= i < 64
      ensures UnShrBit(XorRight(x, n), n, i) == x[i]
    {
      UnShrBitCorrect(x, n, i);
    }
  }

  function UnXorShift(state: Bits): Bits {
    UnShl(UnShr(UnShl(state, 17), 7), 13)
  }

  /** The step is a bijection of the 64-bit words, and it fixes 0. */
  lemma XorShiftIsBijective(x: Bits)
    ensures UnXorShift(XorShift(x)) == x
    ensures XorShift(UnXorShift(x)) == x
    ensures XorShift(Zero()) == Zero()
  {
    var a := XorLeft(x, 13);
    var b := XorRight(a, 7);
    ShlStepIsBijective(x, 13);
    ShrStepIsBijective(a, 7);
    ShlStepIsBijective(b, 17);
    var c := UnShl(x, 17);
    var d := UnShr(c, 7);
    ShlStepIsBijective(x, 17);
    ShrStepIsBijective(c, 7);
    ShlStepIsBijective(d, 13);
    assert XorLeft(Zero(), 13) == Zero() == XorRight(Zero(), 7) == XorLeft(Zero(), 17);
  }

  lemma GoldenTopBit()
    ensures Golden()[63]
  {
    Pow2Of64();
    TopBit(GOLDEN_WORD, 63);
  }

  lemma NextIsNotZero(state: Bits)
    ensures NextBits(state) != Zero()
  {
    GoldenTopBit();
    XorShiftIsBijective(if state == Zero() then Golden() else state);
    XorShiftIsBijective(Zero());
  }

  /** The zero guard can fire only on the first draw, and no drawn word is 0. */
  lemma DrawsAreNotZero(state: Bits, n: nat)
    requires n > 0
    ensures DrawBits(state, n) != Zero()
    ensures DrawBits(state, n + 1) == XorShift(DrawBits(state, n))
  {
    NextIsNotZero(DrawBits(state, n - 1));
  }

  lemma {:induction false} DrawsStayApart(s: Bits, t: Bits, n: nat)
    requires NextBits(s) != NextBits(t)
    ensures DrawBits(s, n + 1) != DrawBits(t, n + 1)
  {
    if n > 0 {
      DrawsStayApart(s, t, n - 1);
      DrawsAreNotZero(s, n);
      DrawsAreNotZero(t, n);
      XorShiftIsBijective(DrawBits(s, n));
      XorShiftIsBijective(DrawBits(t, n));
    } else {
      assert DrawBits(s, 0) == s && DrawBits(t, 0) == t;
    }
  }

  lemma WordBitsInjective(a: Word, b: Word)
    requires a != b
    ensures WordBits(a) != WordBits(b)
  {
    Pow2Of64();
    ValueOfBits(a, 64);
    ValueOfBits(b, 64);
  }

  /** Ciphertext indices touch the low 33 bits only, and the replacement for a zero
      state has its top bit set. */
  lemma SeedsStayApart(base: Bits, a: nat, b: nat)
    requires a <= TWO32 && b <= TWO32 && a != b
    ensures Xor(base, WordBits(a)) != Xor(base, WordBits(b))
    ensures Xor(base, WordBits(a)) == Zero() ==> Xor(base, WordBits(b)) != Golden()
  {
    WordBitsInjective(a, b);
    var x, y := WordBits(a), WordBits(b);
    var i :| 0 <= i < 64 && x[i] != y[i];
    assert Xor(base, x)[i] != Xor(base, y)[i];
    Pow2Of64();
    HighBitsAreClear(a, 33, 63);
    HighBitsAreClear(b, 33, 63);
    GoldenTopBit();
    if Xor(base, x) == Zero() {
      assert Xor(base, x)[63] == base[63] == Xor(base, y)[63];
    }
  }

  lemma XorShiftIsInjective(x: Bits, y: Bits)
    requires x != y
    ensures XorShift(x) != XorShift(y)
  {
    XorShiftIsBijective(x);
    XorShiftIsBijective(y);
  }

  /** Two initial states whose sequences never meet. */
  ghost predicate Apart(s: Bits, t: Bits) {
    && s != t
    && (s == Zero() ==> t != Golden())
    && (t == Zero() ==> s != Golden())
  }

  lemma DrawsDiffer(s: Bits, t: Bits, i: nat)
    requires Apart(s, t)
    ensures DrawBits(s, i + 1) != DrawBits(t, i + 1)
  {
    XorShiftIsInjective(if s == Zero() then Golden() else s, if t == Zero() then Golden() else t);
    DrawsStayApart(s, t, i);
  }

  lemma SeedsAreApart(seed: Word, nonce: Word, c: nat, d: nat)
    requires c < TWO32 && d < TWO32 && c != d
    ensures Apart(SeedBits(seed, nonce, c), SeedBits(seed, nonce, d))
  {
    var base := Xor(WordBits(seed), WordBits(nonce));
    SeedsStayApart(base, c + 1, d + 1);
    SeedsStayApart(base, d + 1, c + 1);
  }

  lemma BitsWordInjective(a: Bits, b: Bits)
    requires a != b
    ensures BitsWord(a) != BitsWord(b)
  {
    var i :| 0 <= i < 64 && a[i] != b[i];
    BitOfValue(a, i);
    BitOfValue(b, i);
  }

  // ---------------------------------------------------------------- words

  /** A source of mask words: an initial state for every ciphertext index, and a
      step whose result is both the new state and the word drawn. */
  datatype Generator = Generator(seed: nat -> Word, next: Word -> Word)

  /** The state after `n` draws. */
  function Draw(g: Generator, state: Word, n: nat): Word
    decreases n, state
  {
    if n == 0 then state else g.next(Draw(g, state, n - 1))
  }

  /** `next_random` */
  function Next(state: Word): Word {
    BitsWord(NextBits(WordBits(state)))
  }

  function Seed(seed: Word, nonce: Word, ciphertextIndex: nat): Word {
    if ciphertextIndex < TWO32 then BitsWord(SeedBits(seed, nonce, ciphertextIndex)) else 0
  }

  /** The generator of lwe_encrypt. */
  function Xorshift(seed: Word, nonce: Word): Generator {
    Generator(c => Seed(seed, nonce, c), Next)
  }

  lemma WordBitsOfBits(b: Bits)
    ensures WordBits(BitsWord(b)) == b
  {
    forall i | 0 <= i < 64
      ensures WordBits(BitsWord(b))[i] == b[i]
    {
      BitOfValue(b, i);
    }
  }

  lemma NextOfBits(b: Bits)
    ensures Next(BitsWord(b)) == BitsWord(NextBits(b))
  {
    WordBitsOfBits(b);
  }

  lemma {:induction false} DrawsCommute(g: Generator, step: Bits -> Bits, word: Bits -> Word, b: Bits, n: nat)
    requires forall x: Bits :: g.next(word(x)) == word(step(x))
    ensures Draw(g, word(b), n) == word(Iterate(step, b, n))
  {
    if n > 0 {
      DrawsCommute(g, step, word, b, n - 1);
    }
  }

  lemma DrawsAreDrawBits(g: Generator, b: Bits, n: nat)
    requires g.next == Next
    ensures Draw(g, BitsWord(b), n) == BitsWord(DrawBits(b, n))
  {
    forall x: Bits
      ensures g.next(BitsWord(x)) == BitsWord(NextBits(x))
    {
      NextOfBits(x);
    }
    DrawsCommute(g, NextBits, BitsWord, b, n);
  }

  lemma {:induction false} ClearBitsAreZero(s: seq<bool>)
    requires forall i | 0 <= i < |s| :: !s[i]
    ensures FromBits(s) == 0
  {
    if s != [] {
      ClearBitsAreZero(s[1..]);
    }
  }

  lemma ZeroWord()
    ensures BitsWord(Zero()) == 0
  {
    ClearBitsAreZero(Zero());
  }

  lemma DrawsOfSeed(seed: Word, nonce: Word, c: nat, n: nat)
    requires c < TWO32
    ensures var g := Xorshift(seed, nonce);
      Draw(g, g.seed(c), n) == BitsWord(DrawBits(SeedBits(seed, nonce, c), n))
  {
    DrawsAreDrawBits(Xorshift(seed, nonce), SeedBits(seed, nonce, c), n);
  }

  /** No mask word is 0, and the zero guard can fire only on the first draw. */
  lemma MaskWordsAreNotZero(seed: Word, nonce: Word, c: nat, i: nat)
    requires c < TWO32
    ensures var g := Xorshift(seed, nonce); Draw(g, g.seed(c), i + 1) != 0
  {
    DrawsOfSeed(seed, nonce, c, i + 1);
    DrawsAreNotZero(SeedBits(seed, nonce, c), i + 1);
    ZeroWord();
    BitsWordInjective(DrawBits(SeedBits(seed, nonce, c), i + 1), Zero());
  }

  lemma WordsDiffer(s: Bits, t: Bits, i: nat)
    requires Apart(s, t)
    ensures BitsWord(DrawBits(s, i + 1)) != BitsWord(DrawBits(t, i + 1))
  {
    DrawsDiffer(s, t, i);
    BitsWordInjective(DrawBits(s, i + 1), DrawBits(t, i + 1));
  }

  /** Within one run two ciphertexts never have equal mask words at the same
      position, even when the initial state of one of them is 0. */
  lemma MasksDiffer(seed: Word, nonce: Word, c: nat, d: nat, i: nat)
    requires c < TWO32 && d < TWO32 && c != d
    ensures var g := Xorshift(seed, nonce);
      Draw(g, g.seed(c), i + 1) != Draw(g, g.seed(d), i + 1)
  {
    SeedsAreApart(seed, nonce, c, d);
    WordsDiffer(SeedBits(seed, nonce, c), SeedBits(seed, nonce, d), i);
    DrawsOfSeed(seed, nonce, c, i + 1);
    DrawsOfSeed(seed, nonce, d, i + 1);
  }

  // ---------------------------------------------------------------- constants

  lemma {:induction false} BitOfOne(i: nat)
    ensures Bit(1, i) == 1 <==> i == 0
  {
    if i > 0 {
      HighBitsAreClear(0, 0, i - 1);
    }
  }

  /** The shift distances: state 1 is followed by 2^0 + 2^6 + 2^13 + 2^17 + 2^23 + 2^30. */
  lemma SuccessorOfOne(i: nat)
    requires i < 64
    ensures NextBits(WordBits(1))[i] <==> i in {0, 6, 13, 17, 23, 30}
  {
    var one := WordBits(1);
    forall j: nat | j < 64
      ensures one[j] <==> j == 0
    {
      BitOfOne(j);
    }
    assert one[0] && !Zero()[0];
    var a := XorLeft(one, 13);
    assert forall j: nat | j < 64 :: a[j] <==> j == 0 || j == 13;
    var b := XorRight(a, 7);
    assert forall j: nat | j < 64 :: b[j] <==> j == 0 || j == 6 || j == 13;
    assert NextBits(one) == XorLeft(b, 17);
  }

  lemma XorRegroups(a: Bits, b: Bits, c: Bits)
    ensures Xor(Xor(Xor(a, b), c), Xor(a, b)) == c
  {
  }

  /** The initial state of ciphertext `c` differs from `seed ^ nonce` by exactly `c + 1`. */
  lemma SeedOfCiphertext(seed: Word, nonce: Word, c: nat)
    requires c < TWO32
    ensures Xor(WordBits(Seed(seed, nonce, c)), Xor(WordBits(seed), WordBits(nonce))) == WordBits(c + 1)
  {
    WordBitsOfBits(SeedBits(seed, nonce, c));
    XorRegroups(WordBits(seed), WordBits(nonce), WordBits(c + 1));
  }

  /** A state of zero goes on as if it were the golden ratio constant. */
  lemma ZeroGuard()
    ensures Next(0) == Next(0x9e37_79b9_7f4a_7c15)
  {
    ZeroWord();
    WordBitsOfBits(Zero());
    GoldenTopBit();
    assert !Zero()[63];
    assert WordBits(0) == Zero() && WordBits(0x9e37_79b9_7f4a_7c15) == Golden() != Zero();
  }

  // ---------------------------------------------------------------- noise

  function And(a: Bits, b: Bits): Bits {
    seq(64, i requires 0 <= i < 64 => a[i] && b[i])
  }

  /** `(1 << n) - 1`, or all ones when the shift would leave the register. */
  function MagnitudeMask(n: nat): Bits {
    if n < 64 then ToBits(Pow2(n) - 1, 64) else seq(64, _ => true)
  }

  lemma {:induction false} BitOfMask(n: nat, i: nat)
    ensures Bit(Pow2(n) - 1, i) == 1 <==> i < n
  {
    if n == 0 {
      HighBitsAreClear(0, 0, i);
    } else if i > 0 {
      assert (Pow2(n) - 1) / 2 == Pow2(n - 1) - 1;
      BitOfMask(n - 1, i - 1);
    }
  }

  /** The first `n` bits, the others cleared. */
  function KeepLow(s: seq<bool>, n: nat): (t: seq<bool>)
    ensures |t| == |s|
  {
    seq(|s|, i requires 0 <= i < |s| => i < n && s[i])
  }

  lemma TwicePow2(n: nat, q: nat)
    requires n > 0
    ensures Pow2(n) * q == 2 * (Pow2(n - 1) * q)
  {
  }

  /** Clearing the bits from `n` on takes the remainder modulo 2^n. */
  lemma {:induction false} ValueOfLowBits(s: seq<bool>, n: nat) returns (q: nat)
    ensures FromBits(s) == Pow2(n) * q + FromBits(KeepLow(s, n))
    ensures FromBits(KeepLow(s, n)) < Pow2(n)
    decreases n
  {
    if n == 0 || s == [] {
      ClearBitsAreZero(KeepLow(s, n));
      q := if s == [] then 0 else FromBits(s);
    } else {
      q := ValueOfLowBits(s[1..], n - 1);
      assert KeepLow(s, n)[1..] == KeepLow(s[1..], n - 1);
      TwicePow2(n, q);
    }
  }

  lemma MaskKeepsLow(a: Bits, n: nat)
    ensures And(a, MagnitudeMask(n)) == KeepLow(a, n)
  {
    forall i | 0 <= i < 64
      ensures And(a, MagnitudeMask(n))[i] == KeepLow(a, n)[i]
    {
      BitOfMask(n, i);
    }
  }

  lemma RemainderOfLowBits(s: seq<bool>, n: nat)
    ensures FromBits(KeepLow(s, n)) == FromBits(s) % Pow2(n)
  {
    var q := ValueOfLowBits(s, n);
    DivUnique(FromBits(s), Pow2(n), q, FromBits(KeepLow(s, n)));
  }

  lemma KeepAll(s: seq<bool>, n: nat)
    requires n >= |s|
    ensures KeepLow(s, n) == s
  {
  }

  lemma SmallRemainder(r: nat, p: nat)
    requires r < p
    ensures r % p == r
  {
  }

  lemma LowBitsOfBits(bits: Bits, r: Word, n: nat)
    requires FromBits(bits) == r
    ensures FromBits(KeepLow(bits, n)) == LowBits(r, n)
  {
    if n >= 64 {
      KeepAll(bits, n);
    } else {
      RemainderOfLowBits(bits, n);
      if r < Pow2(n) {
        SmallRemainder(r, Pow2(n));
      }
    }
  }

  lemma ValueOfWordBits(r: Word)
    ensures FromBits(WordBits(r)) == r
  {
    Pow2Of64();
    ValueOfBits(r, 64);
  }

  lemma MaskedValue(r: Word, n: nat)
    ensures BitsWord(And(WordBits(r), MagnitudeMask(n))) == LowBits(r, n)
  {
    MaskKeepsLow(WordBits(r), n);
    ValueOfWordBits(r);
    LowBitsOfBits(WordBits(r), r, n);
  }

  lemma SignBit(r: Word)
    ensures WordBits(r)[63] <==> r >= TWO63
  {
    Pow2Of64();
    if r >= TWO63 {
      TopBit(r, 63);
    } else {
      HighBitsAreClear(r, 63, 63);
    }
  }

  /** What a mask of `n` ones leaves of a word: its remainder modulo 2^n. */
  function LowBits(r: Word, n: nat): (w: Word)
    ensures n < 64 ==> w < Pow2(n)
  {
    if n >= 64 || r < Pow2(n) then r else r % Pow2(n)
  }

  /** The low bits of a draw, negated if its top bit is set. */
  function Signed(r: Word, boundLog2: nat): (e: int)
    ensures boundLog2 < 64 ==> e < Pow2(boundLog2) && -e < Pow2(boundLog2)
  {
    var magnitude: int := LowBits(r, boundLog2);
    if r >= TWO63 then -magnitude else magnitude
  }

  /** The noise as a signed number: a bound of zero draws nothing. */
  function NoiseValue(g: Generator, state: Word, boundLog2: nat): (e: int)
    ensures boundLog2 < 64 ==> e < Pow2(boundLog2) && -e < Pow2(boundLog2)
  {
    if boundLog2 == 0 then 0 else Signed(g.next(state), boundLog2)
  }

  lemma {:induction false} Pow2Grows(m: nat, n: nat)
    requires m <= n
    ensures Pow2(m) <= Pow2(n)
  {
    if m < n {
      Pow2Grows(m, n - 1);
    }
  }

  lemma Pow2FitsSign(n: nat)
    requires n < 63
    ensures Pow2(n) < TWO63
  {
    Pow2Grows(n, 62);
    Pow2Of64();
    assert Pow2(63) == 2 * Pow2(62);
  }

  /** The masking steps on a drawn word: `r & mask`, negated if bit 63 is set. */
  method MaskAndSign(r: Word, boundLog2: nat) returns (noise: Word)
    ensures noise == Wrap(Signed(r, boundLog2))
  {
    var bits := WordBits(r);
    var magnitude: int := BitsWord(And(bits, MagnitudeMask(boundLog2)));
    MaskedValue(r, boundLog2);
    SignBit(r);
    noise := if bits[63] then Wrap(0 - magnitude) else Wrap(magnitude);
  }

  /** `sample_tuniform_like_noise`: mask and sign bit of a fresh draw. Read in two's
      complement, the noise is the remainder of the draw modulo 2^bound with the sign of
      the draw, so it lies strictly between -2^bound and 2^bound. */
  method SampleTuniform(g: Generator, state: Word, boundLog2: nat) returns (noise: Word, state': Word)
    ensures boundLog2 == 0 ==> noise == 0 && state' == state
    ensures boundLog2 > 0 ==> state' == g.next(state)
    ensures noise == Wrap(NoiseValue(g, state, boundLog2))
    ensures 0 < boundLog2 < 63 ==>
              && AsSigned(noise) < Pow2(boundLog2) && -AsSigned(noise) < Pow2(boundLog2)
              && AsSigned(noise) == if state' >= TWO63 then 0 - LowBits(state', boundLog2)
                                    else LowBits(state', boundLog2)
  {
    if boundLog2 == 0 {
      return 0, state;
    }
    state' := g.next(state);
    noise := MaskAndSign(state', boundLog2);
    if boundLog2 < 63 {
      Pow2FitsSign(boundLog2);
      SignedOfWrap(Signed(state', boundLog2));
    }
  }
}
