/** Import and export of HPU-native words (`bridge.rs`). A ciphertext on the HPU is a pair
    of cuts, one per PC; on the wire each cut fills a zero-padded slot.
 */
module Bridge {
  import opened Numbers
  import opened NativeLayout
  import opened BatchMetadata

  /** The container of one HPU ciphertext: its cuts. */
  type Block = seq<seq<Word>>

  /** The parts of the HPU parameters that the import checks. */
  datatype Geometry = Geometry(
    glweDimension: nat, polynomialSize: nat, pemPc: nat, coefNb: nat,
    radix: nat, stages: nat, nttWidth: nat, pbsWidth: nat)

  predicate GeometryFits(g: Geometry, m: Metadata) {
    && m.maskDimension == g.glweDimension * g.polynomialSize
    && g.pemPc == 2 && g.coefNb / g.pemPc == 16
    && g.radix == 2 && g.stages == 11 && g.nttWidth == 64 && g.pbsWidth == 64
  }

  // ---------------------------------------------------------------- one block

  predicate IsBlock(b: Block) {
    |b| == 2 && |b[0]| == 1025 && |b[1]| == 1024
  }

  function ExportBlock(b: Block): (native: Native)
    requires IsBlock(b)
  {
    b[0] + ZeroWords(511) + b[1] + ZeroWords(512)
  }

  function CutsOf(native: Native): (b: Block)
    ensures IsBlock(b)
  {
    [native[..1025], native[1536..2560]]
  }

  lemma CutsOfExport(b: Block)
    requires IsBlock(b)
    ensures CutsOf(ExportBlock(b)) == b && PaddingIsZero(ExportBlock(b))
  {
    var native := ExportBlock(b);
    assert native[..1025] == b[0] && native[1536..2560] == b[1];
    forall pc: nat, offset: nat | IsPadding(pc, offset)
      ensures native[Position(pc, offset)] == 0
    {
    }
  }

  lemma ExportOfCuts(native: Native)
    requires PaddingIsZero(native)
    ensures ExportBlock(CutsOf(native)) == native
  {
    var back := ExportBlock(CutsOf(native));
    forall j: nat | j < 3072
      ensures back[j] == native[j]
    {
      if 1025 <= j < 1536 {
        assert IsPadding(0, j) && Position(0, j) == j;
      } else if 2560 <= j {
        assert IsPadding(1, j - 1536) && Position(1, j - 1536) == j;
      }
    }
  }

  // ---------------------------------------------------------------- a batch

  function Flatten<T>(items: seq<seq<T>>): seq<T> {
    if items == [] then [] else Flatten(items[..|items| - 1]) + items[|items| - 1]
  }

  predicate Shaped<T>(items: seq<seq<T>>, count: nat, blocks: nat) {
    |items| == count && forall i | 0 <= i < count :: |items[i]| == blocks
  }

  lemma {:induction false} FlattenLength<T>(items: seq<seq<T>>, blocks: nat)
    requires Shaped(items, |items|, blocks)
    ensures |Flatten(items)| == |items| * blocks
  {
    if items != [] {
      FlattenLength(items[..|items| - 1], blocks);
      assert |items| * blocks == (|items| - 1) * blocks + blocks;
    }
  }

  /** The shape and the flat sequence determine the nested one. */
  lemma {:induction false} FlattenIsInjective<T>(a: seq<seq<T>>, b: seq<seq<T>>, blocks: nat)
    requires Shaped(a, |a|, blocks) && Shaped(b, |a|, blocks) && Flatten(a) == Flatten(b)
    ensures a == b
  {
    if a != [] {
      var n := |a| - 1;
      var x, y := Flatten(a[..n]), Flatten(b[..n]);
      FlattenLength(a[..n], blocks);
      FlattenLength(b[..n], blocks);
      assert x == Flatten(a)[..|x|] && y == Flatten(b)[..|y|];
      assert a[n] == Flatten(a)[|x|..] && b[n] == Flatten(b)[|y|..];
      FlattenIsInjective(a[..n], b[..n], blocks);
      assert a == a[..n] + [a[n]] && b == b[..n] + [b[n]];
    }
  }

  predicate AllBlocks(bs: seq<Block>) {
    forall l | 0 <= l < |bs| :: IsBlock(bs[l])
  }

  /** The words of all blocks one after the other. */
  function ExportBlocks(bs: seq<Block>): (words: seq<Word>)
    requires AllBlocks(bs)
    ensures |words| == 3072 * |bs|
  {
    if bs == [] then [] else ExportBlocks(bs[..|bs| - 1]) + ExportBlock(bs[|bs| - 1])
  }

  function NativeBlock(words: seq<Word>, l: nat): (native: Native)
    requires 3072 * l + 3072 <= |words|
  {
    words[3072 * l..3072 * l + 3072]
  }

  function ImportBlocks(words: seq<Word>, n: nat): (bs: seq<Block>)
    requires 3072 * n <= |words|
    ensures |bs| == n
  {
    seq(n, l requires 0 <= l < n => CutsOf(NativeBlock(words, l)))
  }

  ghost predicate CleanPadding(words: seq<Word>, n: nat)
    requires 3072 * n <= |words|
  {
    forall l: nat | l < n :: PaddingIsZero(NativeBlock(words, l))
  }

  lemma {:induction false} ExportedBlock(bs: seq<Block>, l: nat)
    requires AllBlocks(bs) && l < |bs|
    ensures NativeBlock(ExportBlocks(bs), l) == ExportBlock(bs[l])
  {
    var n := |bs| - 1;
    var front := ExportBlocks(bs[..n]);
    if l < n {
      ExportedBlock(bs[..n], l);
      assert (front + ExportBlock(bs[n]))[3072 * l..3072 * l + 3072] == front[3072 * l..3072 * l + 3072];
    } else {
      assert (front + ExportBlock(bs[n]))[3072 * n..3072 * n + 3072] == ExportBlock(bs[n]);
    }
  }

  /** Importing an export gives back the blocks, and its padding is clean. */
  lemma ImportOfExport(bs: seq<Block>)
    requires AllBlocks(bs)
    ensures ImportBlocks(ExportBlocks(bs), |bs|) == bs && CleanPadding(ExportBlocks(bs), |bs|)
  {
    var words := ExportBlocks(bs);
    forall l: nat | l < |bs|
      ensures CutsOf(NativeBlock(words, l)) == bs[l] && PaddingIsZero(NativeBlock(words, l))
    {
      ExportedBlock(bs, l);
      CutsOfExport(bs[l]);
    }
  }

  /** Exporting an import gives back the words exactly if all padding is zero. */
  lemma ExportOfImport(words: seq<Word>, n: nat)
    requires |words| == 3072 * n
    ensures ExportBlocks(ImportBlocks(words, n)) == words <==> CleanPadding(words, n)
  {
    var bs := ImportBlocks(words, n);
    ImportOfExport(bs);
    if CleanPadding(words, n) {
      ExportRestores(words, n);
    }
  }

  lemma FrontBlocks(words: seq<Word>, n: nat)
    requires |words| == 3072 * n && n > 0
    ensures ImportBlocks(words, n)[..n - 1] == ImportBlocks(words[..3072 * (n - 1)], n - 1)
    ensures CleanPadding(words, n) ==> CleanPadding(words[..3072 * (n - 1)], n - 1)
  {
    var front := words[..3072 * (n - 1)];
    forall l: nat | l < n - 1
      ensures NativeBlock(front, l) == NativeBlock(words, l)
    {
    }
  }

  lemma {:induction false} ExportRestores(words: seq<Word>, n: nat)
    requires |words| == 3072 * n && CleanPadding(words, n)
    ensures ExportBlocks(ImportBlocks(words, n)) == words
  {
    if n > 0 {
      var front, last := words[..3072 * (n - 1)], NativeBlock(words, n - 1);
      FrontBlocks(words, n);
      ExportRestores(front, n - 1);
      assert ExportBlock(ImportBlocks(words, n)[n - 1]) == last by {
        ExportOfCuts(last);
      }
      assert front + last == words;
    }
  }

  // ---------------------------------------------------------------- import

  function ImportSlice(words: seq<Word>, base: nat, n: nat): (bs: seq<Block>)
    requires 3072 * (base + n) <= |words|
    ensures |bs| == n
  {
    seq(n, b requires 0 <= b < n => CutsOf(NativeBlock(words, base + b)))
  }

  lemma ImportGrows(words: seq<Word>, base: nat, n: nat)
    requires 3072 * (base + n) <= |words|
    ensures ImportBlocks(words, base + n) == ImportBlocks(words, base) + ImportSlice(words, base, n)
  {
  }

  /** The block loop for one item. */
  method ImportItem(words: seq<Word>, base: nat, n: nat) returns (item: Option<seq<Block>>)
    requires 3072 * (base + n) <= |words|
    ensures item.Some? <==> forall l: nat | base <= l < base + n :: PaddingIsZero(NativeBlock(words, l))
    ensures item.Some? ==> item.value == ImportSlice(words, base, n)
  {
    var blocks: seq<Block> := [];
    for b := 0 to n
      invariant blocks == ImportSlice(words, base, b)
      invariant forall l: nat | base <= l < base + b :: PaddingIsZero(NativeBlock(words, l))
    {
      var native := NativeBlock(words, base + b);
      var clean := CheckPadding(native);
      if !clean {
        return None;
      }
      blocks := blocks + [CutsOf(native)];
    }
    return Some(blocks);
  }

  lemma FlattenSnoc<T>(items: seq<seq<T>>, item: seq<T>)
    ensures Flatten(items + [item]) == Flatten(items) + item
  {
    assert (items + [item])[..|items|] == items;
  }

  /** The item loop. */
  method ImportItems(words: seq<Word>, count: nat, blocks: nat) returns (items: Option<seq<seq<Block>>>)
    requires |words| == 3072 * (count * blocks)
    ensures items.Some? <==> CleanPadding(words, count * blocks)
    ensures items.Some? ==>
              Shaped(items.value, count, blocks) && Flatten(items.value) == ImportBlocks(words, count * blocks)
  {
    var acc: seq<seq<Block>> := [];
    var base: nat := 0;
    for i := 0 to count
      invariant base == i * blocks && 3072 * base <= |words|
      invariant Shaped(acc, i, blocks) && Flatten(acc) == ImportBlocks(words, base)
      invariant CleanPadding(words, base)
    {
      MulGap(blocks, i, count);
      var item := ImportItem(words, base, blocks);
      if item.None? {
        return None;
      }
      ImportGrows(words, base, blocks);
      FlattenSnoc(acc, item.value);
      acc := acc + [item.value];
      base := base + blocks;
    }
    return Some(acc);
  }

  /** `hpu_native_words_to_lwe_ciphertexts`: accepted exactly if counts and geometry fit and
      all padding is zero; the cuts come out in order. */
  method Import(m: Metadata, words: seq<Word>, g: Geometry) returns (items: Option<seq<seq<Block>>>)
    ensures items.Some? <==>
              && HasNativePayload(m) && GeometryFits(g, m)
              && |words| == m.wordCount == 3072 * Blocks(m) && CleanPadding(words, Blocks(m))
    ensures items.Some? ==>
              && Shaped(items.value, m.itemCount, m.radixBlocks)
              && Flatten(items.value) == ImportBlocks(words, Blocks(m))
  {
    NativeWordsAreExact(m);
    if !HasNativePayload(m) || !GeometryFits(g, m) || |words| != m.wordCount {
      return None;
    }
    items := ImportItems(words, m.itemCount, m.radixBlocks);
  }

  // ---------------------------------------------------------------- export

  lemma {:induction false} ExportConcat(a: seq<Block>, b: seq<Block>)
    requires AllBlocks(a) && AllBlocks(b)
    ensures AllBlocks(a + b) && ExportBlocks(a + b) == ExportBlocks(a) + ExportBlocks(b)
  {
    if b == [] {
      assert a + b == a;
    } else {
      var n := |b| - 1;
      assert ExportBlocks(a + b[..n]) == ExportBlocks(a) + ExportBlocks(b[..n]) by {
        ExportConcat(a, b[..n]);
      }
      assert (a + b)[..|a + b| - 1] == a + b[..n] && (a + b)[|a + b| - 1] == b[n];
      Assoc(ExportBlocks(a), ExportBlocks(b[..n]), ExportBlock(b[n]));
    }
  }

  lemma ExportUpTo(item: seq<Block>, b: nat)
    requires b < |item| && AllBlocks(item[..b]) && IsBlock(item[b])
    ensures AllBlocks(item[..b + 1]) && ExportBlocks(item[..b + 1]) == ExportBlocks(item[..b]) + ExportBlock(item[b])
  {
    assert item[..b + 1][..b] == item[..b];
  }

  method ExportItem(words: seq<Word>, item: seq<Block>) returns (words': Option<seq<Word>>)
    ensures words'.Some? <==> AllBlocks(item)
    ensures words'.Some? ==> words'.value == words + ExportBlocks(item)
  {
    var out := words;
    for b := 0 to |item|
      invariant AllBlocks(item[..b]) && out == words + ExportBlocks(item[..b])
    {
      var cuts := item[b];
      if |cuts| != 2 || |cuts[0]| != 1025 || |cuts[1]| != 1024 {
        return None;
      }
      ExportUpTo(item, b);
      var slot := cuts[0] + ZeroWords(1536 - |cuts[0]|) + cuts[1] + ZeroWords(1536 - |cuts[1]|);
      assert slot == ExportBlock(cuts);
      Assoc(words, ExportBlocks(item[..b]), slot);
      out := out + slot;
    }
    assert item[..|item|] == item;
    return Some(out);
  }

  lemma BlocksOfPrefix(a: seq<Block>, b: seq<Block>)
    requires a <= b && AllBlocks(b)
    ensures AllBlocks(a)
  {
  }

  lemma BlocksOfSuffix(a: seq<Block>, b: seq<Block>)
    requires AllBlocks(a + b)
    ensures AllBlocks(b)
  {
    forall l | 0 <= l < |b|
      ensures IsBlock(b[l])
    {
      assert b[l] == (a + b)[|a| + l];
    }
  }

  /** The blocks of a batch are the blocks of its items. */
  lemma {:induction false} BlocksOfItem(items: seq<seq<Block>>, i: nat)
    requires i < |items| && AllBlocks(Flatten(items))
    ensures AllBlocks(items[i])
  {
    var front, last := items[..|items| - 1], items[|items| - 1];
    if i < |items| - 1 {
      BlocksOfPrefix(Flatten(front), Flatten(items));
      BlocksOfItem(front, i);
    } else {
      BlocksOfSuffix(Flatten(front), last);
    }
  }

  /** `hpu_lwe_ciphertexts_to_native_words` */
  method Export(m: Metadata, items: seq<seq<Block>>) returns (words: Option<seq<Word>>)
    ensures words.Some? <==>
              HasNativePayload(m) && Shaped(items, m.itemCount, m.radixBlocks) && AllBlocks(Flatten(items))
    ensures words.Some? ==> words.value == ExportBlocks(Flatten(items)) && |words.value| == m.wordCount
  {
    if !HasNativePayload(m) || |items| != m.itemCount {
      return None;
    }
    var out: Option<seq<Word>> := Some([]);
    for i := 0 to |items|
      invariant Shaped(items[..i], i, m.radixBlocks) && AllBlocks(Flatten(items[..i]))
      invariant out == Some(ExportBlocks(Flatten(items[..i])))
    {
      if |items[i]| != m.radixBlocks {
        return None;
      }
      var before := out.value;
      out := ExportItem(before, items[i]);
      if out.None? {
        if AllBlocks(Flatten(items)) {
          BlocksOfItem(items, i);
        }
        return None;
      }
      assert items[..i + 1] == items[..i] + [items[i]];
      FlattenSnoc(items[..i], items[i]);
      ExportConcat(Flatten(items[..i]), items[i]);
    }
    assert items[..|items|] == items;
    FlattenLength(items, m.radixBlocks);
    NativeWordsAreExact(m);
    if |out.value| != m.wordCount {
      return None;
    }
    return out;
  }

  // ---------------------------------------------------------------- both

  /** Exporting an accepted import reproduces the words. */
  method ImportThenExport(m: Metadata, words: seq<Word>, g: Geometry) returns (back: Option<seq<Word>>)
    ensures back.Some? ==> back.value == words
    ensures back.Some? <==>
              && HasNativePayload(m) && GeometryFits(g, m)
              && |words| == m.wordCount == 3072 * Blocks(m) && CleanPadding(words, Blocks(m))
  {
    var items := Import(m, words, g);
    if items.None? {
      return None;
    }
    ExportOfImport(words, Blocks(m));
    back := Export(m, items.value);
  }

  /** Importing an accepted export reproduces the ciphertexts. */
  method ExportThenImport(m: Metadata, items: seq<seq<Block>>, g: Geometry) returns (back: Option<seq<seq<Block>>>)
    requires GeometryFits(g, m)
    ensures back.Some? ==> back.value == items
    ensures back.Some? <==>
              HasNativePayload(m) && Shaped(items, m.itemCount, m.radixBlocks) && AllBlocks(Flatten(items))
  {
    var words := Export(m, items);
    if words.None? {
      return None;
    }
    FlattenLength(items, m.radixBlocks);
    ImportOfExport(Flatten(items));
    back := Import(m, words.value, g);
    FlattenIsInjective(items, back.value, m.radixBlocks);
  }
}
