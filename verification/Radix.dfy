/** The arithmetic of one radix block: encoding, noise and decoding.

    A byte is four 2-bit blocks, least significant first. A block is encoded as a
    multiple of delta = 2^59 and decoded from the phase `body - dot` by rounding.
 */
module Radix {
  import opened Numbers

  const DELTA: int := 0x0800_0000_0000_0000
  const HALF_DELTA: int := 0x0400_0000_0000_0000

  /** `body - dot` in 64 bits. */
  function Phase(body: Word, dot: Word): (phase: Word) {
    Wrap(body - dot)
  }

  function Encode(block: nat): (encoded: Word)
    requires block < 4
  {
    block * 0x0800_0000_0000_0000
  }

  /** The block nearest to `x`, an unbounded multiple of delta, modulo 4. */
  function Nearest(x: int): (block: nat)
    ensures block < 4
  {
    ((x + 0x0400_0000_0000_0000) / 0x0800_0000_0000_0000) % 4
  }

  /** lwe_decrypt.cpp: the rounding addition is done in 65 bits. */
  function DecodeWide(body: Word, dot: Word): (block: nat)
    ensures block < 4
  {
    ((Phase(body, dot) + 0x0400_0000_0000_0000) / 0x0800_0000_0000_0000) % 4
  }

  /** The C++ hosts: the rounding addition wraps at 64 bits. */
  function DecodeNarrow(phase: Word): (block: nat)
    ensures block < 4
  {
    (Wrap(phase + 0x0400_0000_0000_0000) / 0x0800_0000_0000_0000) % 4
  }

  lemma QuotientOf(q: int, t: int)
    requires 0 <= t < 0x0800_0000_0000_0000
    ensures (0x0800_0000_0000_0000 * q + t) / 0x0800_0000_0000_0000 == q
  {
  }

  lemma Modulo4(p: int, s: int)
    ensures (4 * p + s) % 4 == s % 4
  {
  }

  lemma QuotientOfWrapped(y: int)
    ensures (Wrap(y) / 0x0800_0000_0000_0000) % 4 == (y / 0x0800_0000_0000_0000) % 4
  {
    var q, r := y / 0x1_0000_0000_0000_0000, Wrap(y);
    assert y == 0x1_0000_0000_0000_0000 * q + r;
    var s, t := r / 0x0800_0000_0000_0000, r % 0x0800_0000_0000_0000;
    assert y == 0x0800_0000_0000_0000 * (32 * q + s) + t;
    QuotientOf(32 * q + s, t);
    Modulo4(8 * q, s);
  }

  /** Modulo 4, the rounded quotient does not see the reduction modulo 2^64. */
  lemma DecodeOfWrapped(x: int)
    ensures DecodeNarrow(Wrap(x)) == Nearest(x)
  {
    WrapSum(x, 0x0400_0000_0000_0000);
    QuotientOfWrapped(x + 0x0400_0000_0000_0000);
  }

  lemma RoundingWidthDoesNotMatter(body: Word, dot: Word)
    ensures DecodeWide(body, dot) == DecodeNarrow(Phase(body, dot))
  {
    DecodeOfWrapped(Phase(body, dot));
  }

  lemma NearestOfEncoded(block: nat, e: int)
    requires block < 4
    ensures Nearest(Encode(block) + e) == block <==>
            (e + 0x0400_0000_0000_0000) % 0x2000_0000_0000_0000 < 0x0800_0000_0000_0000
  {
  }

  /** Decoding tolerates an error `e` exactly if `e` lies in [-2^58, 2^58), up to
      multiples of 4 * delta. */
  lemma DecodeIsExact(block: nat, e: int)
    requires block < 4
    ensures DecodeNarrow(Wrap(Encode(block) + e)) == block <==>
            (e + 0x0400_0000_0000_0000) % 0x2000_0000_0000_0000 < 0x0800_0000_0000_0000
  {
    DecodeOfWrapped(Encode(block) + e);
    NearestOfEncoded(block, e);
  }

  lemma SmallErrorsAreTolerated(block: nat, e: int)
    requires block < 4 && -HALF_DELTA <= e < HALF_DELTA
    ensures DecodeNarrow(Wrap(Encode(block) + e)) == block
  {
    DecodeIsExact(block, e);
  }

  /** Just outside the interval the block is misread. */
  lemma LargeErrorsAreNotTolerated(block: nat, e: int)
    requires block < 4 && -2 * DELTA <= e < 2 * DELTA
    requires !(-HALF_DELTA <= e < HALF_DELTA)
    ensures DecodeNarrow(Wrap(Encode(block) + e)) != block
  {
    DecodeIsExact(block, e);
  }

  // ---------------------------------------------------------------- bytes

  /** `(clear >> (2 * k)) & 3` */
  function BlockOf(clear: Byte, k: nat): (block: nat)
    requires k < 4
    ensures block < 4
  {
    if k == 0 then clear % 4
    else if k == 1 then (clear / 4) % 4
    else if k == 2 then (clear / 16) % 4
    else (clear / 64) % 4
  }

  function Weight(k: nat): (w: nat)
    requires k <= 4
  {
    if k == 0 then 1 else 4 * Weight(k - 1)
  }

  /** The byte read from its blocks. Block `k` is or-ed in above the blocks before
      it, so the or is an addition. */
  function Assemble(blocks: seq<nat>): (partial: nat)
    requires |blocks| <= 4 && forall k | 0 <= k < |blocks| :: blocks[k] < 4
    ensures partial < Weight(|blocks|)
  {
    if blocks == [] then 0
    else
      var k := |blocks| - 1;
      Assemble(blocks[..k]) + blocks[k] * Weight(k)
  }

  lemma AssembleUnfolds(a: nat, b: nat, c: nat, d: nat)
    requires a < 4 && b < 4 && c < 4 && d < 4
    ensures Assemble([a]) == a && Assemble([a, b]) == a + 4 * b
    ensures Assemble([a, b, c]) == a + 4 * b + 16 * c
    ensures Assemble([a, b, c, d]) == a + 4 * b + 16 * c + 64 * d
  {
    assert [a, b, c, d][..3] == [a, b, c] && [a, b, c][..2] == [a, b] && [a, b][..1] == [a];
    assert [a][..0] == [];
    assert Weight(1) == 4 && Weight(2) == 16 && Weight(3) == 64;
  }

  lemma BytesAreTheirBlocks(clear: Byte)
    ensures clear == BlockOf(clear, 0) + 4 * BlockOf(clear, 1) + 16 * BlockOf(clear, 2)
                   + 64 * BlockOf(clear, 3)
  {
    var q := clear / 4;
    var r := q / 4;
    assert r == clear / 16 && r / 4 == clear / 64;
  }

  lemma AssembleInvertsBlockOf(clear: Byte)
    ensures Assemble([BlockOf(clear, 0), BlockOf(clear, 1), BlockOf(clear, 2), BlockOf(clear, 3)])
         == clear
  {
    BytesAreTheirBlocks(clear);
    AssembleUnfolds(BlockOf(clear, 0), BlockOf(clear, 1), BlockOf(clear, 2), BlockOf(clear, 3));
  }

  lemma BlocksAreUnique(a: nat, b: nat, c: nat, d: nat, clear: Byte)
    requires a < 4 && b < 4 && c < 4 && d < 4
    ensures a + 4 * b + 16 * c + 64 * d == clear <==>
            a == BlockOf(clear, 0) && b == BlockOf(clear, 1) && c == BlockOf(clear, 2) && d == BlockOf(clear, 3)
  {
    BytesAreTheirBlocks(clear);
  }

  /** A byte is read exactly from its own blocks. */
  lemma AssembleIsInjective(blocks: seq<nat>, clear: Byte)
    requires |blocks| == 4 && forall k | 0 <= k < 4 :: blocks[k] < 4
    ensures Assemble(blocks) == clear <==> forall k: nat | k < 4 :: blocks[k] == BlockOf(clear, k)
  {
    assert blocks == [blocks[0], blocks[1], blocks[2], blocks[3]];
    AssembleUnfolds(blocks[0], blocks[1], blocks[2], blocks[3]);
    BlocksAreUnique(blocks[0], blocks[1], blocks[2], blocks[3], clear);
    assert (forall k: nat | k < 4 :: blocks[k] == BlockOf(clear, k)) <==>
      blocks[0] == BlockOf(clear, 0) && blocks[1] == BlockOf(clear, 1) &&
      blocks[2] == BlockOf(clear, 2) && blocks[3] == BlockOf(clear, 3);
  }
}
