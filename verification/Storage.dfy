/** The storage path of the full pipeline: the range checks of `parse_options`, the source
    ranges of the SSD copy, `transfer_ssd_blocks`, and the final store of
    `run_decrypt_and_store`.
 */
module Storage {
  import opened Numbers

  datatype Address = Address(nsid: nat, lba: nat)

  type Block = b: seq<Byte> | |b| == 4096 witness Zeros(4096)

  // ---------------------------------------------------------------- options

  datatype Options = Options(
    storageNsid: nat, ssdLba: Word, inputLbas: nat,
    outputNsid: nat, outputLba: Word,
    plaintextBytes: nat, maxResponse: nat)

  /** Blocks that hold `bytes` bytes. */
  function LbasFor(bytes: nat): nat {
    (bytes + 4095) / 4096
  }

  /** It is the least number of blocks that is enough. */
  lemma LbasAreLeast(bytes: nat, n: nat)
    ensures LbasFor(bytes) <= n <==> bytes <= 4096 * n
    ensures bytes > 0 ==> 4096 * (LbasFor(bytes) - 1) < bytes <= 4096 * LbasFor(bytes)
  {
  }

  ghost predicate InSource(o: Options, a: Address) {
    a.nsid == o.storageNsid && o.ssdLba <= a.lba < o.ssdLba + o.inputLbas
  }

  /** The block holds a byte of the plaintext. */
  ghost predicate InDestination(o: Options, a: Address) {
    a.nsid == o.outputNsid && o.outputLba <= a.lba && 4096 * (a.lba - o.outputLba) < o.plaintextBytes
  }

  lemma DestinationIs(o: Options, a: Address)
    ensures InDestination(o, a) <==>
            a.nsid == o.outputNsid && o.outputLba <= a.lba < o.outputLba + LbasFor(o.plaintextBytes)
  {
    if o.outputLba <= a.lba {
      LbasAreLeast(o.plaintextBytes, a.lba - o.outputLba);
    }
  }

  /** Plaintext and ciphertexts fit their buffers, which are whole blocks of less than 2^31 bytes,
      and both ranges end before the last LBA. */
  ghost predicate SizesFit(o: Options) {
    && o.inputLbas * 4096 <= 0x7fff_ffff && o.plaintextBytes <= o.inputLbas * 4096
    && o.plaintextBytes * 98304 + 64 <= 0x7fff_f000
    && o.plaintextBytes * 98304 <= o.maxResponse
    && o.ssdLba + o.inputLbas <= 0xffff_ffff_ffff_ffff
    && o.plaintextBytes <= 4096 * (0xffff_ffff_ffff_ffff - o.outputLba)
  }

  ghost predicate Disjoint(o: Options) {
    forall a: Address :: !(InSource(o, a) && InDestination(o, a))
  }

  /** The checks of `parse_options`; `inputLbas` zero stands for an option that was not given.
      Accepted are exactly the options whose sizes fit and whose ranges share no block. */
  method CheckOptions(given: Options) returns (o: Options, ok: bool)
    requires 0 < given.plaintextBytes <= 0xffff_ffff && given.inputLbas <= 0xffff_ffff
    ensures o == given.(inputLbas := o.inputLbas) && (given.inputLbas != 0 ==> o == given)
    ensures given.inputLbas == 0 ==> 4096 * (o.inputLbas - 1) < o.plaintextBytes <= 4096 * o.inputLbas
    ensures ok <==> SizesFit(o) && Disjoint(o)
  {
    o := given;
    var outputLbas := (o.plaintextBytes + 4095) / 4096;
    if o.inputLbas == 0 {
      o := o.(inputLbas := outputLbas);
    }
    if o.inputLbas * 4096 > 0x7fff_ffff || o.plaintextBytes > o.inputLbas * 4096 {
      return o, false;
    }
    var physical := o.plaintextBytes * 98304;
    if (physical + 64 + 4095) / 4096 * 4096 > 0x7fff_ffff || physical > o.maxResponse {
      return o, false;
    }
    if o.ssdLba > 0xffff_ffff_ffff_ffff - o.inputLbas || o.outputLba > 0xffff_ffff_ffff_ffff - outputLbas {
      return o, false;
    }
    ok := !(o.storageNsid == o.outputNsid && o.ssdLba < o.outputLba + outputLbas
            && o.outputLba < o.ssdLba + o.inputLbas);
    forall a: Address
      ensures InDestination(o, a) <==> a.nsid == o.outputNsid && o.outputLba <= a.lba < o.outputLba + outputLbas
    {
      DestinationIs(o, a);
    }
    if !ok {
      var first := if o.ssdLba < o.outputLba then o.outputLba else o.ssdLba;
      assert InSource(o, Address(o.storageNsid, first)) && InDestination(o, Address(o.storageNsid, first));
    }
  }

  // ---------------------------------------------------------------- source ranges

  /** A copy descriptor; `nlb` is one less than the number of blocks. */
  datatype SourceRange = SourceRange(nsid: nat, slba: nat, nlb: nat)

  /** All blocks that the descriptors name, in order. */
  function Named(ranges: seq<SourceRange>): seq<nat> {
    if ranges == [] then []
    else Named(ranges[..|ranges| - 1]) + Run(ranges[|ranges| - 1].slba, ranges[|ranges| - 1].nlb + 1)
  }

  lemma RunConcat(first: nat, m: nat, n: nat)
    ensures Run(first, m) + Run(first + m, n) == Run(first, m + n)
  {
  }

  lemma NamedSnoc(ranges: seq<SourceRange>, r: SourceRange)
    ensures Named(ranges + [r]) == Named(ranges) + Run(r.slba, r.nlb + 1)
  {
    assert (ranges + [r])[..|ranges|] == ranges;
  }

  /** The descriptors tile exactly the input range, with 1 to 32 blocks each. A batch is
      refused if they exceed one page or their number exceeds 255. */
  method SourceRanges(o: Options, descriptorBytes: nat) returns (ranges: Option<seq<SourceRange>>)
    requires o.inputLbas <= 0xffff_ffff
    ensures ranges.Some? <==> o.inputLbas <= 32 * 255 && ((o.inputLbas + 31) / 32) * descriptorBytes <= 4096
    ensures ranges.Some? ==>
              && Named(ranges.value) == Run(o.ssdLba, o.inputLbas)
              && forall r | r in ranges.value :: r.nsid == o.storageNsid && r.nlb < 32
  {
    var count := (o.inputLbas + 31) / 32;
    if count * descriptorBytes > 4096 || count > 255 {
      return None;
    }
    var acc: seq<SourceRange> := [];
    for i := 0 to count
      invariant Named(acc) == Run(o.ssdLba, if 32 * i < o.inputLbas then 32 * i else o.inputLbas)
      invariant forall r | r in acc :: r.nsid == o.storageNsid && r.nlb < 32
    {
      var remaining := o.inputLbas - 32 * i;
      var lbas := if remaining > 32 then 32 else remaining;
      var r := SourceRange(o.storageNsid, o.ssdLba + 32 * i, lbas - 1);
      NamedSnoc(acc, r);
      RunConcat(o.ssdLba, 32 * i, lbas);
      acc := acc + [r];
    }
    return Some(acc);
  }

  // ---------------------------------------------------------------- transfers

  /** How the device answers one command; a failed write may leave anything in its blocks. */
  datatype Answer = Done | Failed(garbage: nat -> Block)

  class Ssd {
    var blocks: Address -> Block

    constructor (contents: Address -> Block)
      ensures blocks == contents
    {
      blocks := contents;
    }

    /** One write command. The device moves at most 32 blocks per command. */
    method Write(nsid: nat, slba: nat, data: seq<Block>, answer: Answer) returns (ok: bool)
      requires 0 < |data| <= 32
      modifies this
      ensures ok <==> answer.Done?
      ensures forall a: Address :: !(a.nsid == nsid && slba <= a.lba < slba + |data|) ==> blocks(a) == old(blocks)(a)
      ensures ok ==> forall i | 0 <= i < |data| :: blocks(Address(nsid, slba + i)) == data[i]
    {
      var before := blocks;
      if answer.Done? {
        blocks := (a: Address) =>
          if a.nsid == nsid && slba <= a.lba < slba + |data| then data[a.lba - slba] else before(a);
      } else {
        blocks := (a: Address) =>
          if a.nsid == nsid && slba <= a.lba < slba + |data| then answer.garbage(a.lba - slba) else before(a);
      }
      ok := answer.Done?;
    }

    /** One read command of `n` blocks. */
    method Read(nsid: nat, slba: nat, n: nat, answer: bool) returns (ok: bool, data: seq<Byte>)
      requires 0 < n <= 32
      ensures ok <==> answer
      ensures ok ==> |data| == 4096 * n && forall k: nat | k < n :: BlockOf(data, k) == blocks(Address(nsid, slba + k))
    {
      data := [];
      for i := 0 to n
        invariant |data| == 4096 * i
        invariant forall k: nat | k < i :: BlockOf(data, k) == blocks(Address(nsid, slba + k))
      {
        var block := blocks(Address(nsid, slba + i));
        forall k: nat | k < i + 1
          ensures BlockOf(data + block, k) == blocks(Address(nsid, slba + k))
        {
          BlockOfConcatenation(data, block, k);
        }
        data := data + block;
      }
      ok := answer;
    }
  }

  /** Block `k` of a buffer. */
  function BlockOf(buffer: seq<Byte>, k: nat): (b: Block)
    requires 4096 * k + 4096 <= |buffer|
  {
    buffer[4096 * k..4096 * k + 4096]
  }

  function BlocksOf(buffer: seq<Byte>, first: nat, n: nat): (bs: seq<Block>)
    requires 4096 * (first + n) <= |buffer|
    ensures |bs| == n
  {
    seq<Block>(n, i requires 0 <= i < n => BlockOf(buffer, first + i))
  }

  /** The write direction of `transfer_ssd_blocks`: at most 32 blocks per command. Only the
      named range can change; on success it holds the buffer. */
  method WriteBlocks(ssd: Ssd, nsid: nat, first: nat, buffer: seq<Byte>, answers: nat -> Answer) returns (ok: bool)
    requires |buffer| % 4096 == 0
    modifies ssd
    ensures forall a: Address ::
              !(a.nsid == nsid && first <= a.lba < first + |buffer| / 4096) ==> ssd.blocks(a) == old(ssd.blocks)(a)
    ensures ok ==> forall k: nat | k < |buffer| / 4096 :: ssd.blocks(Address(nsid, first + k)) == BlockOf(buffer, k)
    ensures (forall c: nat :: answers(c).Done?) ==> ok
  {
    var total := |buffer| / 4096;
    var offset, command := 0, 0;
    while offset < total
      invariant offset <= total
      invariant forall a: Address ::
        !(a.nsid == nsid && first <= a.lba < first + total) ==> ssd.blocks(a) == old(ssd.blocks)(a)
      invariant forall k: nat | k < offset :: ssd.blocks(Address(nsid, first + k)) == BlockOf(buffer, k)
    {
      var lbas := if total - offset < 32 then total - offset else 32;
      ghost var before := ssd.blocks;
      var data := BlocksOf(buffer, offset, lbas);
      var done := ssd.Write(nsid, first + offset, data, answers(command));
      if !done {
        return false;
      }
      forall k: nat | k < offset + lbas
        ensures ssd.blocks(Address(nsid, first + k)) == BlockOf(buffer, k)
      {
        if k < offset {
          assert ssd.blocks(Address(nsid, first + k)) == before(Address(nsid, first + k));
        } else {
          assert ssd.blocks(Address(nsid, first + offset + (k - offset))) == data[k - offset];
        }
      }
      offset := offset + lbas;
      command := command + 1;
    }
    ok := true;
  }

  lemma BlockOfConcatenation(a: seq<Byte>, b: seq<Byte>, k: nat)
    requires |a| % 4096 == 0 && |b| % 4096 == 0 && 4096 * k < |a| + |b|
    ensures BlockOf(a + b, k) == if 4096 * k < |a| then BlockOf(a, k) else BlockOf(b, k - |a| / 4096)
  {
  }

  /** The read direction of `transfer_ssd_blocks`; `answers(c)` says whether command `c`
      succeeds. */
  method ReadBlocks(ssd: Ssd, nsid: nat, first: nat, total: nat, answers: nat -> bool)
    returns (ok: bool, buffer: seq<Byte>)
    ensures ok ==>
              && |buffer| == 4096 * total
              && forall k: nat | k < total :: BlockOf(buffer, k) == ssd.blocks(Address(nsid, first + k))
    ensures (forall c: nat :: answers(c)) ==> ok
  {
    buffer := [];
    var offset, command := 0, 0;
    while offset < total
      invariant offset <= total && |buffer| == 4096 * offset
      invariant forall k: nat | k < offset :: BlockOf(buffer, k) == ssd.blocks(Address(nsid, first + k))
    {
      var lbas := if total - offset < 32 then total - offset else 32;
      var done, data := ssd.Read(nsid, first + offset, lbas, answers(command));
      if !done {
        return false, buffer;
      }
      forall k: nat | k < offset + lbas
        ensures BlockOf(buffer + data, k) == ssd.blocks(Address(nsid, first + k))
      {
        BlockOfConcatenation(buffer, data, k);
        if k >= offset {
          assert ssd.blocks(Address(nsid, first + offset + (k - offset))) == BlockOf(data, k - offset);
        }
      }
      buffer := buffer + data;
      offset := offset + lbas;
      command := command + 1;
    }
    ok := true;
  }

  lemma SameBlocksSameBytes(a: seq<Byte>, b: seq<Byte>, n: nat)
    requires |a| == |b| == 4096 * n && forall k: nat | k < n :: BlockOf(a, k) == BlockOf(b, k)
    ensures a == b
  {
    forall x: nat | x < |a|
      ensures a[x] == b[x]
    {
      assert BlockOf(a, x / 4096)[x % 4096] == BlockOf(b, x / 4096)[x % 4096];
    }
  }

  /** What the destination holds after a successful store. */
  function Padded(plaintext: seq<Byte>): (r: seq<Byte>)
    ensures |r| == 4096 * LbasFor(|plaintext|)
  {
    plaintext + Zeros(4096 * LbasFor(|plaintext|) - |plaintext|)
  }

  /** Every block of the destination holds its part of the plaintext, and zeros behind it. */
  ghost predicate Stored(blocks: Address -> Block, o: Options, plaintext: seq<Byte>) {
    forall a: Address, x: nat | InDestination(o, a) && x < 4096 ::
      blocks(a)[x] == ByteAt(plaintext, 4096 * (a.lba - o.outputLba) + x)
  }

  /** Byte `i` of a text that goes on with zeros. */
  function ByteAt(text: seq<Byte>, i: nat): Byte {
    if i < |text| then text[i] else 0
  }

  lemma PaddedIsStored(blocks: Address -> Block, o: Options, plaintext: seq<Byte>)
    requires |plaintext| == o.plaintextBytes
    requires forall k: nat | k < LbasFor(o.plaintextBytes) ::
               blocks(Address(o.outputNsid, o.outputLba + k)) == BlockOf(Padded(plaintext), k)
    ensures Stored(blocks, o, plaintext)
  {
    forall a: Address, x: nat | InDestination(o, a) && x < 4096
      ensures blocks(a)[x] == ByteAt(plaintext, 4096 * (a.lba - o.outputLba) + x)
    {
      DestinationIs(o, a);
      var k := a.lba - o.outputLba;
      assert a == Address(o.outputNsid, o.outputLba + k);
      assert BlockOf(Padded(plaintext), k)[x] == Padded(plaintext)[4096 * k + x];
    }
  }

  /** `memset` of the part of the last block behind the plaintext. */
  method ZeroTail(buffer: array<Byte>, from: nat, to: nat)
    requires from <= to <= buffer.Length
    modifies buffer
    ensures buffer[..to] == old(buffer[..from]) + Zeros(to - from) && buffer[to..] == old(buffer[to..])
  {
    for i := from to to
      invariant forall j | 0 <= j < buffer.Length :: buffer[j] == if from <= j < i then 0 else old(buffer[j])
    {
      buffer[i] := 0;
    }
  }

  /** The last part of `run_decrypt_and_store`: take the plaintext from the buffer that the
      FPGA filled, zero the rest of its last block, write, and compare unless told not to.
      Success leaves plaintext and zeros in the destination; no block without a byte of the
      plaintext ever changes. The buffer is whole blocks and has room for the finish packet. */
  method Store(ssd: Ssd, o: Options, buffer: array<Byte>, skipReadback: bool,
               writeAnswers: nat -> Answer, readAnswers: nat -> bool) returns (ok: bool, plaintext: seq<Byte>)
    requires o.plaintextBytes + 64 <= buffer.Length && buffer.Length % 4096 == 0
    modifies ssd, buffer
    ensures plaintext == old(buffer[..o.plaintextBytes])
    ensures ok ==> Stored(ssd.blocks, o, plaintext)
    ensures forall a: Address ::
              !(a.nsid == o.outputNsid && o.outputLba <= a.lba && 4096 * (a.lba - o.outputLba) < o.plaintextBytes) ==>
                ssd.blocks(a) == old(ssd.blocks)(a)
    ensures Disjoint(o) ==> forall a: Address :: InSource(o, a) ==> ssd.blocks(a) == old(ssd.blocks)(a)
    ensures (forall c: nat :: writeAnswers(c).Done?) && (forall c: nat :: readAnswers(c)) ==> ok
  {
    plaintext := buffer[..o.plaintextBytes];
    var lbas := LbasFor(o.plaintextBytes);
    LbasAreLeast(o.plaintextBytes, buffer.Length / 4096);
    ZeroTail(buffer, o.plaintextBytes, 4096 * lbas);
    var data := buffer[..4096 * lbas];
    assert data == Padded(plaintext);
    ok := WriteBlocks(ssd, o.outputNsid, o.outputLba, data, writeAnswers);
    forall a: Address
      ensures InDestination(o, a) <==> a.nsid == o.outputNsid && o.outputLba <= a.lba < o.outputLba + lbas
    {
      DestinationIs(o, a);
    }
    if ok {
      PaddedIsStored(ssd.blocks, o, plaintext);
    }
    if !ok || skipReadback {
      return;
    }
    var back;
    ok, back := ReadBlocks(ssd, o.outputNsid, o.outputLba, lbas, readAnswers);
    if ok {
      SameBlocksSameBytes(back, data, lbas);
      ok := back == data;
    }
  }
}
