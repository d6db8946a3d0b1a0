/** Reversal of the low `k` bits of an index, for every width `k`.

    The operators, the C++ hosts and the Rust benchmark each have their own
    11-bit reversal loop. The three loops below are proved to compute the same
    function, which is an involution.
 */
module BitReversal {
  import opened Numbers

  function Bit(x: nat, i: nat): (b: nat)
    ensures b < 2
  {
    if i == 0 then x % 2 else Bit(x / 2, i - 1)
  }

  function Rev(k: nat, x: nat): (r: nat)
    ensures r < Pow2(k)
  {
    if k == 0 then 0
    else (if x % 2 == 1 then Pow2(k - 1) else 0) + Rev(k - 1, x / 2)
  }

  /** Reversing one more bit shifts the result left and appends that bit. */
  lemma {:induction false} RevAppend(k: nat, x: nat)
    ensures Rev(k + 1, x) == 2 * Rev(k, x) + Bit(x, k)
  {
    if k > 0 {
      RevAppend(k - 1, x / 2);
    }
  }

  /** The low `k` bits of `x`. */
  function Low(k: nat, x: nat): nat {
    if k == 0 then 0 else x % 2 + 2 * Low(k - 1, x / 2)
  }

  lemma {:induction false} LowIsIdentity(k: nat, x: nat)
    requires x < Pow2(k)
    ensures Low(k, x) == x
  {
    if k > 0 {
      LowIsIdentity(k - 1, x / 2);
    }
  }

  lemma {:induction false} LowAppend(k: nat, x: nat)
    ensures Low(k + 1, x) == Low(k, x) + (if Bit(x, k) == 1 then Pow2(k) else 0)
  {
    if k > 0 {
      LowAppend(k - 1, x / 2);
    }
  }

  lemma {:induction false} RevTwice(k: nat, x: nat)
    ensures Rev(k, Rev(k, x)) == Low(k, x)
  {
    if k > 0 {
      RevAppend(k - 1, x);
      RevTwice(k - 1, x);
      LowAppend(k - 1, x);
    }
  }

  lemma RevIsInvolution(k: nat, x: nat)
    requires x < Pow2(k)
    ensures Rev(k, Rev(k, x)) == x
  {
    RevTwice(k, x);
    LowIsIdentity(k, x);
  }

  /** What reversal means, bit by bit. */
  lemma {:induction false} RevBits(k: nat, x: nat, i: nat)
    requires i < k
    ensures Bit(Rev(k, x), i) == Bit(x, k - 1 - i)
  {
    RevAppend(k - 1, x);
    if i > 0 {
      RevBits(k - 1, x, i - 1);
    }
  }

  // ---------------------------------------------------------------- the source's loops

  const PSI64_STAGES: nat := 11

  lemma Pow2Of11()
    ensures Pow2(11) == 2048
  {
    assert Pow2(4) == 16;
    assert Pow2(8) == 256;
  }

  function Shr(x: nat, n: nat): nat {
    if n == 0 then x else Shr(x / 2, n - 1)
  }

  lemma {:induction false} ShrStep(x: nat, n: nat)
    ensures Shr(x, n) % 2 == Bit(x, n) && Shr(x, n) / 2 == Shr(x, n + 1)
  {
    if n > 0 {
      ShrStep(x / 2, n - 1);
    }
  }

  lemma BitStore(r: nat, b: nat, p: nat)
    requires b < 2
    ensures r * (2 * p) + (if b == 1 then p else 0) == (2 * r + b) * p
  {
  }

  /** lwe_encrypt.cpp, lwe_decrypt.cpp: sets bit `10 - bit` of a zeroed register. */
  method ReverseByBitStores(index: nat) returns (reversed: nat)
    requires index < 2048
    ensures reversed == Rev(PSI64_STAGES, index)
  {
    reversed := 0;
    var bit := 0;
    while bit < 11
      invariant bit <= 11
      invariant reversed == Rev(bit, index) * Pow2(11 - bit)
    {
      RevAppend(bit, index);
      ShrStep(index, bit);
      BitStore(Rev(bit, index), Bit(index, bit), Pow2(10 - bit));
      if Shr(index, bit) % 2 == 1 {
        reversed := reversed + Pow2(10 - bit);
      }
      bit := bit + 1;
    }
  }

  /** The C++ hosts: shift the result left, append bit `bit` of the index. */
  method ReverseByShiftedReads(index: nat) returns (reversed: nat)
    ensures reversed == Rev(PSI64_STAGES, index)
  {
    reversed := 0;
    var bit := 0;
    while bit < 11
      invariant bit <= 11
      invariant reversed == Rev(bit, index)
    {
      RevAppend(bit, index);
      ShrStep(index, bit);
      reversed := 2 * reversed + Shr(index, bit) % 2;
      bit := bit + 1;
    }
  }

  /** The Rust benchmark: shifts the index itself. */
  method ReverseByConsuming(index: nat) returns (reversed: nat)
    ensures reversed == Rev(PSI64_STAGES, index)
  {
    var value := index;
    reversed := 0;
    for step := 0 to 11
      invariant reversed == Rev(step, index) && value == Shr(index, step)
    {
      RevAppend(step, index);
      ShrStep(index, step);
      reversed := 2 * reversed + value % 2;
      value := value / 2;
    }
  }
}
