/** Machine integers, little-endian byte encodings and finite sums.

    The source works on 8-, 32- and 64-bit unsigned integers. Here they are
    mathematical integers in the matching range, and every wrap-around of the
    source is written out as a `%`.
 */
module Numbers {

  const TWO32: nat := 0x1_0000_0000
  const TWO63: nat := 0x8000_0000_0000_0000
  const TWO64: nat := 0x1_0000_0000_0000_0000

  datatype Option<T> = None | Some(value: T)

  type Byte = x: int | 0 <= x < 256
  type Word = x: int | 0 <= x < 0x1_0000_0000_0000_0000

  /** Reduction to 64 bits. */
  function Wrap(x: int): (w: Word) {
    x % 0x1_0000_0000_0000_0000
  }

  /** `static_cast<int64_t>` */
  function AsSigned(w: Word): int {
    if w >= 0x8000_0000_0000_0000 then w - 0x1_0000_0000_0000_0000 else w
  }

  /** Two's complement of a small number reads back as that number. */
  lemma SignedOfWrap(e: int)
    requires -0x8000_0000_0000_0000 <= e < 0x8000_0000_0000_0000
    ensures AsSigned(Wrap(e)) == e
  {
  }

  lemma WrapOfWord(w: Word)
    ensures Wrap(w) == w
  {
  }

  lemma WrapShift(x: int, k: int)
    ensures Wrap(x + 0x1_0000_0000_0000_0000 * k) == Wrap(x)
  {
  }

  lemma WrapSum(a: int, b: int)
    ensures Wrap(Wrap(a) + b) == Wrap(a + b)
    ensures Wrap(b - Wrap(a)) == Wrap(b - a)
  {
    var k := a / 0x1_0000_0000_0000_0000;
    assert a == 0x1_0000_0000_0000_0000 * k + Wrap(a);
    WrapShift(Wrap(a) + b, k);
    WrapShift(b - Wrap(a), -k);
  }

  function Pow2(n: nat): (r: nat)
    ensures r > 0
  {
    if n == 0 then 1 else 2 * Pow2(n - 1)
  }

  lemma Pow2Split(m: nat, n: nat)
    ensures Pow2(m + n) == Pow2(m) * Pow2(n)
    decreases n
  {
    if n > 0 {
      Pow2Split(m, n - 1);
    }
  }

  lemma Pow2Of16()
    ensures Pow2(16) == 0x1_0000
  {
    assert Pow2(4) == 16;
    Pow2Split(4, 4);
    Pow2Split(8, 8);
  }

  lemma Pow2Of32()
    ensures Pow2(32) == TWO32
  {
    Pow2Of16();
    Pow2Split(16, 16);
  }

  lemma Pow2Of64()
    ensures Pow2(64) == TWO64 && Pow2(63) == TWO63 && Pow2(33) == 2 * TWO32
  {
    Pow2Of32();
    Pow2Split(32, 32);
  }

  function Pow256(n: nat): (r: nat)
    ensures r > 0
  {
    if n == 0 then 1 else 256 * Pow256(n - 1)
  }

  // ---------------------------------------------------------------- little endian

  /** The low `n` bytes of `v`, least significant first. */
  function ToLE(v: nat, n: nat): (s: seq<Byte>)
    ensures |s| == n
  {
    if n == 0 then [] else [v % 256] + ToLE(v / 256, n - 1)
  }

  function FromLE(s: seq<Byte>): (v: nat)
    ensures v < Pow256(|s|)
  {
    if s == [] then 0 else s[0] + 256 * FromLE(s[1..])
  }

  lemma {:induction false} LeDecodesEncoding(v: nat, n: nat)
    requires v < Pow256(n)
    ensures FromLE(ToLE(v, n)) == v
  {
    if n > 0 {
      LeDecodesEncoding(v / 256, n - 1);
      assert ToLE(v, n)[1..] == ToLE(v / 256, n - 1);
    }
  }

  lemma {:induction false} LeEncodingIsCanonical(s: seq<Byte>)
    ensures ToLE(FromLE(s), |s|) == s
  {
    if s != [] {
      LeEncodingIsCanonical(s[1..]);
      assert FromLE(s) % 256 == s[0] && FromLE(s) / 256 == FromLE(s[1..]);
    }
  }

  /** Byte `i` of the encoding is the value shifted right by `8 * i` and truncated. */
  lemma {:induction false} LeByteIsShift(v: nat, n: nat, i: nat)
    requires i < n
    ensures ToLE(v, n)[i] == (v / Pow256(i)) % 256
  {
    if i > 0 {
      LeByteIsShift(v / 256, n - 1, i - 1);
      DivTwice(v, Pow256(i - 1));
    }
  }

  lemma DivTwice(v: nat, p: nat)
    requires p > 0
    ensures v / (256 * p) == (v / 256) / p
  {
    var q, r := v / 256, v % 256;
    var q2, r2 := q / p, q % p;
    assert v == 256 * (p * q2 + r2) + r;
    assert v == (256 * p) * q2 + (256 * r2 + r);
    assert r2 <= p - 1;
    DivUnique(v, 256 * p, q2, 256 * r2 + r);
  }

  lemma DivUnique(v: nat, d: nat, q: nat, r: nat)
    requires d > 0 && v == d * q + r && r < d
    ensures v / d == q && v % d == r
  {
    if v / d < q {
      MulGap(d, v / d, q);
    } else if v / d > q {
      MulGap(d, q, v / d);
    }
  }

  lemma MulGap(d: nat, a: nat, b: nat)
    requires a < b
    ensures d * a + d <= d * b
  {
    if a + 1 < b {
      MulGap(d, a, b - 1);
    }
  }

  lemma Pow256Of8()
    ensures Pow256(8) == TWO64 && Pow256(4) == TWO32
  {
    assert Pow256(4) == 256 * 256 * 256 * 256;
    assert Pow256(8) == 256 * (256 * (256 * (256 * Pow256(4))));
  }

  function WordBytes(w: Word): (s: seq<Byte>)
    ensures |s| == 8
    ensures BytesWord(s) == w
  {
    Pow256Of8();
    LeDecodesEncoding(w, 8);
    ToLE(w, 8)
  }

  function BytesWord(s: seq<Byte>): (w: Word)
    requires |s| == 8
  {
    Pow256Of8();
    FromLE(s)
  }

  /** The bytes of a word, least significant first. */
  function EightBytes(w: Word): seq<Byte> {
    [w % 0x100, w / 0x100 % 0x100, w / 0x1_0000 % 0x100, w / 0x100_0000 % 0x100, w / 0x1_0000_0000 % 0x100,
     w / 0x100_0000_0000 % 0x100, w / 0x1_0000_0000_0000 % 0x100, w / 0x100_0000_0000_0000 % 0x100]
  }

  lemma WordBytesAre(w: Word)
    ensures WordBytes(w) == EightBytes(w)
  {
    assert Pow256(1) == 0x100 && Pow256(2) == 0x1_0000 && Pow256(3) == 0x100_0000 && Pow256(4) == 0x1_0000_0000;
    assert Pow256(5) == 0x100_0000_0000 && Pow256(6) == 0x1_0000_0000_0000 && Pow256(7) == 0x100_0000_0000_0000;
    forall i: nat | i < 8
      ensures WordBytes(w)[i] == w / Pow256(i) % 256
    {
      LeByteIsShift(w, 8, i);
    }
  }

  lemma BytesOfWordOfBytes(s: seq<Byte>)
    requires |s| == 8
    ensures WordBytes(BytesWord(s)) == s
  {
    LeEncodingIsCanonical(s);
  }

  /** The `i`-th 64-bit word of a byte buffer. */
  function WordAt(bytes: seq<Byte>, i: nat): (w: Word)
    requires 8 * i + 8 <= |bytes|
  {
    BytesWord(bytes[8 * i..8 * i + 8])
  }

  /** The buffer that holds the given words one after the other. */
  function WordsBytes(ws: seq<Word>): (bytes: seq<Byte>)
    ensures |bytes| == 8 * |ws|
  {
    if ws == [] then []
    else WordsBytes(ws[..|ws| - 1]) + WordBytes(ws[|ws| - 1])
  }

  lemma {:induction false} WordsBytesSlice(ws: seq<Word>, i: nat)
    requires i < |ws|
    ensures WordsBytes(ws)[8 * i..8 * i + 8] == WordBytes(ws[i])
  {
    var n := |ws| - 1;
    if i < n {
      WordsBytesSlice(ws[..n], i);
    }
  }

  lemma WordsBytesAt(ws: seq<Word>, i: nat)
    requires i < |ws|
    ensures WordAt(WordsBytes(ws), i) == ws[i]
  {
    WordsBytesSlice(ws, i);
  }

  function BytesWords(bytes: seq<Byte>): (ws: seq<Word>)
    requires |bytes| % 8 == 0
    ensures |ws| == |bytes| / 8
  {
    seq(|bytes| / 8, i requires 0 <= i < |bytes| / 8 => WordAt(bytes, i))
  }

  lemma WordsOfBytesOfWords(ws: seq<Word>)
    ensures BytesWords(WordsBytes(ws)) == ws
  {
    forall i | 0 <= i < |ws|
      ensures WordAt(WordsBytes(ws), i) == ws[i]
    {
      WordsBytesAt(ws, i);
    }
  }

  lemma WordsBytesSnoc(ws: seq<Word>, w: Word)
    ensures WordsBytes(ws + [w]) == WordsBytes(ws) + WordBytes(w)
  {
    assert (ws + [w])[..|ws|] == ws;
  }

  lemma WordsBytesUpTo(words: seq<Word>, i: nat)
    requires i < |words|
    ensures WordsBytes(words[..i + 1]) == WordsBytes(words[..i]) + WordBytes(words[i])
  {
    WordsBytesSnoc(words[..i], words[i]);
    assert words[..i + 1] == words[..i] + [words[i]];
  }

  lemma BytesWordsSnoc(bytes: seq<Byte>, last: seq<Byte>)
    requires |bytes| % 8 == 0 && |last| == 8
    ensures BytesWords(bytes + last) == BytesWords(bytes) + [BytesWord(last)]
  {
    var all := bytes + last;
    var n := |bytes| / 8;
    assert all[8 * n..8 * n + 8] == last;
    forall i | 0 <= i < n
      ensures WordAt(all, i) == WordAt(bytes, i)
    {
      assert all[8 * i..8 * i + 8] == bytes[8 * i..8 * i + 8];
    }
  }

  lemma {:induction false} BytesOfWordsOfBytes(bytes: seq<Byte>)
    requires |bytes| % 8 == 0
    ensures WordsBytes(BytesWords(bytes)) == bytes
  {
    if bytes != [] {
      var front, last := bytes[..|bytes| - 8], bytes[|bytes| - 8..];
      BytesOfWordsOfBytes(front);
      assert bytes == front + last;
      BytesWordsSnoc(front, last);
      WordsBytesSnoc(BytesWords(front), BytesWord(last));
      BytesOfWordOfBytes(last);
    }
  }

  lemma {:induction false} WordsBytesConcat(a: seq<Word>, b: seq<Word>)
    ensures WordsBytes(a + b) == WordsBytes(a) + WordsBytes(b)
  {
    if b == [] {
      assert a + b == a;
    } else {
      var front, last := b[..|b| - 1], b[|b| - 1];
      assert b == front + [last];
      WordsBytesConcat(a, front);
      WordsBytesSnoc(a + front, last);
      WordsBytesSnoc(front, last);
      Assoc(a, front, [last]);
      Assoc(WordsBytes(a), WordsBytes(front), WordBytes(last));
    }
  }

  // ---------------------------------------------------------------- sums

  ghost function Sum(s: seq<int>): int
  {
    if s == [] then 0 else Sum(s[..|s| - 1]) + s[|s| - 1]
  }

  lemma SumSnoc(s: seq<int>, m: nat)
    requires m < |s|
    ensures Sum(s[..m + 1]) == Sum(s[..m]) + s[m]
  {
    assert s[..m + 1][..m] == s[..m];
  }

  lemma SumOne(x: int)
    ensures Sum([x]) == x
  {
    assert [x][..0] == [];
  }

  lemma SumWhole(s: seq<int>)
    ensures Sum(s[..|s|]) == Sum(s)
  {
    assert s[..|s|] == s;
  }

  lemma {:induction false} SumConcat(a: seq<int>, b: seq<int>)
    ensures Sum(a + b) == Sum(a) + Sum(b)
  {
    if b == [] {
      assert a + b == a;
    } else {
      assert (a + b)[..|a + b| - 1] == a + b[..|b| - 1];
      SumConcat(a, b[..|b| - 1]);
    }
  }

  lemma {:induction false} SumUpdate(s: seq<int>, k: nat, v: int)
    requires k < |s|
    ensures Sum(s[k := v]) == Sum(s) - s[k] + v
  {
    var n := |s| - 1;
    if k == n {
      assert s[k := v][..n] == s[..n];
    } else {
      assert s[k := v][..n] == s[..n][k := v];
      SumUpdate(s[..n], k, v);
    }
  }

  /** `p` and `q` are mutually inverse maps of the indices below their length. */
  ghost predicate Inverse(p: seq<nat>, q: seq<nat>)
  {
    && |p| == |q|
    && (forall i | 0 <= i < |p| :: p[i] < |q| && q[p[i]] == i)
    && (forall j | 0 <= j < |q| :: q[j] < |p| && p[q[j]] == j)
  }

  lemma InverseWithoutLast(p: seq<nat>, q: seq<nat>, p': seq<nat>, q': seq<nat>)
    requires Inverse(p, q) && |p| > 0
    requires p' == p[q[|p| - 1] := p[|p| - 1]][..|p| - 1]
    requires q' == q[p[|p| - 1] := q[|p| - 1]][..|p| - 1]
    ensures Inverse(p', q')
  {
    var n := |p| - 1;
    forall i | 0 <= i < n
      ensures p'[i] < n && q'[p'[i]] == i
    {
      assert q[p[i]] == i && q[p[n]] == n;
    }
    forall j | 0 <= j < n
      ensures q'[j] < n && p'[q'[j]] == j
    {
      assert p[q[j]] == j && p[q[n]] == n;
    }
  }

  /** A sum does not depend on the order of its terms. */
  lemma {:induction false} SumUnderBijection(a: seq<int>, b: seq<int>, p: seq<nat>, q: seq<nat>)
    requires |a| == |b| == |p| && Inverse(p, q)
    requires forall i | 0 <= i < |b| :: b[i] == a[p[i]]
    ensures Sum(b) == Sum(a)
    decreases |a|
  {
    if a != [] {
      // Swap the term that belongs last into the last place, then drop it.
      var n := |a| - 1;
      var k := q[n];
      var p', q' := p[k := p[n]][..n], q[p[n] := k][..n];
      var b' := b[k := b[n]];
      SumUpdate(b, k, b[n]);
      InverseWithoutLast(p, q, p', q');
      SumUnderBijection(a[..n], b'[..n], p', q');
      assert b'[n] == b[n] && b[k] == a[n];
    }
  }

  // ---------------------------------------------------------------- sequences

  lemma Assoc<T>(a: seq<T>, b: seq<T>, c: seq<T>)
    ensures (a + b) + c == a + (b + c)
  {
  }

  lemma SliceSnoc<T>(s: seq<T>, a: nat, b: nat)
    requires a <= b < |s|
    ensures s[a..b] + [s[b]] == s[a..b + 1]
  {
  }

  lemma SliceStep<T>(s: seq<T>, a: nat, n: nat)
    requires a + n <= |s|
    ensures s[..a] + s[a..][..n] == s[..a + n] && s[a..][n..] == s[a + n..]
  {
  }

  lemma SliceOfSlice<T>(s: seq<T>, a: nat, b: nat, c: nat, d: nat)
    requires a <= b <= |s| && c <= d <= b - a
    ensures s[a..b][c..d] == s[a + c..a + d]
  {
    var x, y := s[a..b][c..d], s[a + c..a + d];
    forall i | 0 <= i < |x|
      ensures x[i] == y[i]
    {
      assert x[i] == s[a..b][c + i];
    }
  }

  lemma SliceOfMiddle<T>(s: seq<T>, limit: nat, before: seq<T>, middle: seq<T>, after: seq<T>, x: nat, n: nat)
    requires limit <= |s| && s[..limit] == before + middle + after && x + n <= |middle|
    ensures |before| + x + n <= |s|
    ensures s[|before| + x..|before| + x + n] == middle[x..x + n]
  {
    var o := |before| + x;
    forall i | o <= i < o + n
      ensures s[i] == middle[i - |before|]
    {
      assert s[i] == s[..limit][i] == (before + middle + after)[i];
    }
  }

  /** Ring position `j` places behind `head`. */
  function RingSlot(head: nat, j: nat, size: nat): (i: nat)
    requires head < size && j <= size
    ensures i < size
  {
    if head + j < size then head + j else head + j - size
  }

  /** The numbers `first`, `first + 1`, and so on. */
  function Run(first: nat, n: nat): (r: seq<nat>)
    ensures |r| == n
  {
    seq(n, i requires 0 <= i < n => first + i)
  }

  function Zeros(n: nat): (z: seq<Byte>)
    ensures |z| == n && forall i | 0 <= i < n :: z[i] == 0
  {
    seq(n, _ => 0)
  }

  function ZeroWords(n: nat): (z: seq<Word>)
    ensures |z| == n && forall i | 0 <= i < n :: z[i] == 0
  {
    seq(n, _ => 0)
  }
}
