/** NVMe PRP construction in the queue driver (`nvme_qdma_setup_prps`).

    A scatter list is flattened into PRP1 and either PRP2 or a PRP list; every entry
    carries a prefix that names function, queue and command. The partner is the reading
    that section 4.3 of the NVM Express Base Specification 1.4 gives to the entries.
 */
module Prp {
  import opened Numbers

  // ---------------------------------------------------------------- bitwise or

  function Or(a: nat, b: nat): nat {
    if a == 0 then b
    else if b == 0 then a
    else 2 * Or(a / 2, b / 2) + (if a % 2 == 1 || b % 2 == 1 then 1 else 0)
  }

  lemma {:induction false} OrOfDisjoint(low: nat, high: nat, k: nat, m: nat)
    requires low < Pow2(k) && high == Pow2(k) * m
    ensures Or(low, high) == Or(high, low) == low + high
    decreases k
  {
    if low != 0 && high != 0 {
      assert high == 2 * (Pow2(k - 1) * m);
      OrOfDisjoint(low / 2, high / 2, k - 1, m);
    }
  }

  lemma {:induction false} OrIsBounded(a: nat, b: nat, k: nat)
    requires a < Pow2(k) && b < Pow2(k)
    ensures Or(a, b) < Pow2(k)
    decreases k
  {
    if a != 0 && b != 0 {
      OrIsBounded(a / 2, b / 2, k - 1);
    }
  }

  lemma OrOfDoubles(a: nat, b: nat)
    ensures Or(2 * a, 2 * b) == 2 * Or(a, b)
  {
  }

  function ShiftLeft(x: nat, k: nat): nat
    decreases k
  {
    if k == 0 then x else 2 * ShiftLeft(x, k - 1)
  }

  lemma {:induction false} ShiftLeftIsProduct(x: nat, k: nat)
    ensures ShiftLeft(x, k) == Pow2(k) * x
  {
    if k > 0 {
      ShiftLeftIsProduct(x, k - 1);
      assert Pow2(k) * x == 2 * (Pow2(k - 1) * x);
    }
  }

  lemma {:induction false} OrOfShifts(a: nat, b: nat, k: nat)
    ensures Or(ShiftLeft(a, k), ShiftLeft(b, k)) == ShiftLeft(Or(a, b), k)
  {
    if k > 0 {
      OrOfShifts(a, b, k - 1);
      OrOfDoubles(ShiftLeft(a, k - 1), ShiftLeft(b, k - 1));
    }
  }

  lemma Pow2Of48()
    ensures Pow2(48) == 0x1_0000_0000_0000
  {
    Pow2Of16();
    Pow2Of32();
    Pow2Split(32, 16);
  }

  /** The bit positions where the prefix fields start. */
  lemma FieldBoundaries()
    ensures Pow2(58) == 0x400_0000_0000_0000 && Pow2(59) == 0x800_0000_0000_0000
    ensures Pow2(61) == 0x2000_0000_0000_0000 && Pow2(63) == 0x8000_0000_0000_0000
  {
    assert Pow2(10) == 0x400 && Pow2(3) == 8 && Pow2(2) == 4;
    Pow2Of48();
    Pow2Split(48, 10);
    Pow2Split(58, 3);
    Pow2Split(61, 2);
  }

  // ---------------------------------------------------------------- the prefix

  /** `nvme_qdma_req_get_addr_prefix`; bits shifted beyond 64 are lost. */
  function AddressPrefix(func: nat, qid: nat, cid: nat): Word {
    Pow2Of64();
    OrIsBounded(0x8000_0000_0000_0000, Wrap(func * 0x2000_0000_0000_0000), 64);
    var a: Word := Or(0x8000_0000_0000_0000, Wrap(func * 0x2000_0000_0000_0000));
    OrIsBounded(a, Wrap(qid * 0x400_0000_0000_0000), 64);
    var b: Word := Or(a, Wrap(qid * 0x400_0000_0000_0000));
    OrIsBounded(b, Wrap(cid * 0x1_0000_0000_0000), 64);
    Or(b, Wrap(cid * 0x1_0000_0000_0000))
  }

  /** `dma_addr | addr_prefix` */
  function Entry(addr: Word, prefix: Word): Word {
    Pow2Of64();
    OrIsBounded(addr, prefix, 64);
    Or(addr, prefix)
  }

  /** The address field of an entry, its low 48 bits. */
  function AddressOf(entry: Word): nat {
    entry % 0x1_0000_0000_0000
  }

  function CommandOf(entry: Word): nat {
    entry / 0x1_0000_0000_0000 % 0x400
  }

  function QueueOf(entry: Word): nat {
    entry / 0x400_0000_0000_0000 % 8
  }

  function FunctionOf(entry: Word): nat {
    entry / 0x2000_0000_0000_0000 % 4
  }

  lemma OrOfFields(one: nat, f: nat, q: nat, c: nat, p: nat, k: nat) returns (m: nat)
    requires p == Pow2(k)
    ensures Or(Or(Or(p * one, p * f), p * q), p * c) == p * m
  {
    var a := OrOfTwo(one, f, p, k);
    var b := OrOfTwo(a, q, p, k);
    m := OrOfTwo(b, c, p, k);
  }

  lemma OrOfTwo(x: nat, y: nat, p: nat, k: nat) returns (z: nat)
    requires p == Pow2(k)
    ensures Or(p * x, p * y) == p * z
  {
    z := Or(x, y);
    assert p * x == ShiftLeft(x, k) by { ShiftLeftIsProduct(x, k); }
    assert p * y == ShiftLeft(y, k) by { ShiftLeftIsProduct(y, k); }
    assert p * z == ShiftLeft(z, k) by { ShiftLeftIsProduct(z, k); }
    OrOfShifts(x, y, k);
  }

  lemma WrappedField(x: nat, m: nat)
    requires x == 0x1_0000_0000_0000 * m
    ensures Wrap(x) == 0x1_0000_0000_0000 * (m % 0x1_0000)
  {
    var q, r := m / 0x1_0000, m % 0x1_0000;
    assert m == 0x1_0000 * q + r;
    WrapShift(0x1_0000_0000_0000 * r, q);
    WrapOfWord(0x1_0000_0000_0000 * r);
  }

  lemma PrefixIsMultiple(func: nat, qid: nat, cid: nat) returns (m: nat)
    ensures AddressPrefix(func, qid, cid) == 0x1_0000_0000_0000 * m
  {
    WrappedField(func * 0x2000_0000_0000_0000, func * 0x2000);
    WrappedField(qid * 0x400_0000_0000_0000, qid * 0x400);
    WrappedField(cid * 0x1_0000_0000_0000, cid);
    Pow2Of48();
    m := OrOfFields(0x8000, func * 0x2000 % 0x1_0000, qid * 0x400 % 0x1_0000, cid % 0x1_0000, 0x1_0000_0000_0000, 48);
  }

  lemma EntryIsSum(addr: Word, prefix: Word, m: nat)
    requires addr < 0x1_0000_0000_0000 && prefix == 0x1_0000_0000_0000 * m
    ensures Entry(addr, prefix) == addr + prefix
  {
    Pow2Of48();
    OrOfDisjoint(addr, prefix, 48, m);
  }

  lemma EntryKeepsAddress(addr: Word, prefix: Word, m: nat)
    requires addr < 0x1_0000_0000_0000 && prefix == 0x1_0000_0000_0000 * m
    ensures AddressOf(Entry(addr, prefix)) == addr
  {
    EntryIsSum(addr, prefix, m);
  }

  /** No prefix, whatever its fields, touches a 48-bit address. */
  lemma PrefixKeepsAddress(addr: Word, func: nat, qid: nat, cid: nat)
    requires addr < 0x1_0000_0000_0000
    ensures AddressOf(Entry(addr, AddressPrefix(func, qid, cid))) == addr
  {
    var m := PrefixIsMultiple(func, qid, cid);
    EntryKeepsAddress(addr, AddressPrefix(func, qid, cid), m);
  }

  lemma FieldsAddUp(one: nat, f: nat, q: nat, c: nat, func: nat, qid: nat, cid: nat)
    requires func < 4 && qid < 8 && cid < 0x400
    requires one == 0x8000_0000_0000_0000 && f == func * 0x2000_0000_0000_0000
    requires q == qid * 0x400_0000_0000_0000 && c == cid * 0x1_0000_0000_0000
    ensures Or(Or(Or(one, f), q), c) == one + f + q + c
  {
    var first, second, third := one + f, one + f + q, one + f + q + c;
    assert Or(one, f) == first by {
      FieldBoundaries();
      OrOfDisjoint(f, one, 63, 1);
    }
    assert Or(first, q) == second by {
      FieldBoundaries();
      OrOfDisjoint(q, first, 61, 4 + func);
    }
    assert Or(second, c) == third by {
      FieldBoundaries();
      OrOfDisjoint(c, second, 58, (4 + func) * 8 + qid);
    }
  }

  lemma PrefixIsSum(func: nat, qid: nat, cid: nat)
    requires func < 4 && qid < 8 && cid < 0x400
    ensures AddressPrefix(func, qid, cid)
            == 0x1_0000_0000_0000 * (0x8000 + func * 0x2000 + qid * 0x400 + cid)
  {
    WrapOfWord(func * 0x2000_0000_0000_0000);
    WrapOfWord(qid * 0x400_0000_0000_0000);
    WrapOfWord(cid * 0x1_0000_0000_0000);
    FieldsAddUp(0x8000_0000_0000_0000, Wrap(func * 0x2000_0000_0000_0000), Wrap(qid * 0x400_0000_0000_0000),
                Wrap(cid * 0x1_0000_0000_0000), func, qid, cid);
  }

  lemma FieldsOfSum(e: Word, addr: nat, func: nat, qid: nat, cid: nat)
    requires addr < 0x1_0000_0000_0000 && func < 4 && qid < 8 && cid < 0x400
    requires e == addr + 0x1_0000_0000_0000 * (0x8000 + func * 0x2000 + qid * 0x400 + cid)
    ensures AddressOf(e) == addr && CommandOf(e) == cid && QueueOf(e) == qid && FunctionOf(e) == func
  {
    assert e / 0x1_0000_0000_0000 == 0x8000 + func * 0x2000 + qid * 0x400 + cid;
    assert e / 0x400_0000_0000_0000 == 0x20 + func * 8 + qid;
    assert e / 0x2000_0000_0000_0000 == 4 + func;
  }

  lemma ReadBack(addr: Word, prefix: Word, func: nat, qid: nat, cid: nat)
    requires addr < 0x1_0000_0000_0000 && func < 4 && qid < 8 && cid < 0x400
    requires prefix == 0x1_0000_0000_0000 * (0x8000 + func * 0x2000 + qid * 0x400 + cid)
    ensures var e := Entry(addr, prefix);
            AddressOf(e) == addr && CommandOf(e) == cid && QueueOf(e) == qid && FunctionOf(e) == func
  {
    EntryIsSum(addr, prefix, 0x8000 + func * 0x2000 + qid * 0x400 + cid);
    FieldsOfSum(Entry(addr, prefix), addr, func, qid, cid);
  }

  lemma FittingEntryIsReadBack(addr: Word, func: nat, qid: nat, cid: nat)
    requires addr < 0x1_0000_0000_0000 && func < 4 && qid < 8 && cid < 0x400
    ensures var e := Entry(addr, AddressPrefix(func, qid, cid));
            AddressOf(e) == addr && CommandOf(e) == cid && QueueOf(e) == qid && FunctionOf(e) == func
  {
    PrefixIsSum(func, qid, cid);
    ReadBack(addr, AddressPrefix(func, qid, cid), func, qid, cid);
  }

  /** Address, command, queue and function can be read back from an entry exactly if each of
      them fits its field. */
  lemma EntryIsReadBack(addr: Word, func: nat, qid: nat, cid: nat)
    ensures var e := Entry(addr, AddressPrefix(func, qid, cid));
            (AddressOf(e) == addr && CommandOf(e) == cid && QueueOf(e) == qid && FunctionOf(e) == func)
            <==> (addr < 0x1_0000_0000_0000 && func < 4 && qid < 8 && cid < 0x400)
  {
    if addr < 0x1_0000_0000_0000 && func < 4 && qid < 8 && cid < 0x400 {
      FittingEntryIsReadBack(addr, func, qid, cid);
    }
  }

  /** Bit by bit, such an entry is the address, ten bits of command, three of queue, two of
      function, and a one. */
  lemma EntryIsFields(addr: Word, func: nat, qid: nat, cid: nat)
    requires addr < 0x1_0000_0000_0000 && func < 4 && qid < 8 && cid < 0x400
    ensures Entry(addr, AddressPrefix(func, qid, cid))
         == addr + 0x1_0000_0000_0000 * (cid + 0x400 * (qid + 8 * (func + 4 * 1)))
  {
    PrefixIsSum(func, qid, cid);
    var m := PrefixIsMultiple(func, qid, cid);
    EntryIsSum(addr, AddressPrefix(func, qid, cid), m);
  }

  lemma OrOfThree(a: nat, b: nat, c: nat, k: nat, m: nat, l: nat, n: nat)
    requires a == Pow2(k) * m && b < Pow2(k) && a + b == Pow2(l) * n && c < Pow2(l)
    ensures Or(Or(a, b), c) == a + b + c
  {
    OrOfDisjoint(b, a, k, m);
    OrOfDisjoint(c, a + b, l, n);
  }

  /** The two halves of the collision: one bit beyond the command field, or the next queue. */
  lemma CarryIntoQueue(a: nat, m: nat, q: nat, next: nat, c: nat, wide: nat, qid: nat, cid: nat)
    requires a == 0x2000_0000_0000_0000 * m && qid < 8 && qid % 2 == 0 && cid < 0x400
    requires q == qid * 0x400_0000_0000_0000 && next == (qid + 1) * 0x400_0000_0000_0000
    requires c == cid * 0x1_0000_0000_0000 && wide == (0x400 + cid) * 0x1_0000_0000_0000
    ensures Or(Or(a, q), wide) == Or(Or(a, next), c)
  {
    FieldBoundaries();
    assert Or(Or(a, next), c) == a + next + c by {
      OrOfThree(a, next, c, 61, m, 58, 8 * m + qid + 1);
    }
    assert Or(Or(a, q), wide) == a + q + wide by {
      OrOfThree(a, q, wide, 61, m, 59, 4 * m + qid / 2);
    }
  }

  /** A command identifier that needs an eleventh bit carries it into the queue field:
      command 1024 + c of an even queue looks like command c of the next queue. */
  lemma WideCommandsCollide(func: nat, qid: nat, cid: nat)
    requires qid < 8 && qid % 2 == 0 && cid < 0x400
    ensures AddressPrefix(func, qid, 0x400 + cid) == AddressPrefix(func, qid + 1, cid)
  {
    var one, f := 0x8000_0000_0000_0000, Wrap(func * 0x2000_0000_0000_0000);
    assert f == 0x2000_0000_0000_0000 * (func % 8) by {
      FunctionField(func);
    }
    FieldBoundaries();
    var m := OrOfTwo(4, func % 8, 0x2000_0000_0000_0000, 61);
    var q, next := qid * 0x400_0000_0000_0000, (qid + 1) * 0x400_0000_0000_0000;
    var c, wide := cid * 0x1_0000_0000_0000, (0x400 + cid) * 0x1_0000_0000_0000;
    WrapOfWord(q);
    WrapOfWord(next);
    WrapOfWord(c);
    WrapOfWord(wide);
    CarryIntoQueue(Or(one, f), m, q, next, c, wide, qid, cid);
  }

  lemma FunctionField(func: nat)
    ensures Wrap(func * 0x2000_0000_0000_0000) == 0x2000_0000_0000_0000 * (func % 8)
  {
    var q, r := func / 8, func % 8;
    assert func == 8 * q + r;
    WrapShift(0x2000_0000_0000_0000 * r, q);
    WrapOfWord(0x2000_0000_0000_0000 * r);
  }

  // ---------------------------------------------------------------- scatter lists

  datatype Segment = Segment(addr: Word, len: nat)

  /** The addresses of all bytes of a scatter list, in order. */
  function Addresses(sgl: seq<Segment>): seq<nat> {
    if sgl == [] then [] else Run(sgl[0].addr, sgl[0].len) + Addresses(sgl[1..])
  }

  /** What the block layer guarantees: no empty segment, addresses in the 48-bit field, and
      every boundary between two segments on a page boundary. */
  ghost predicate PageAligned(sgl: seq<Segment>, page: nat)
    requires page > 0
  {
    && (forall i | 0 <= i < |sgl| :: sgl[i].len > 0 && sgl[i].addr + sgl[i].len <= 0x1_0000_0000_0000)
    && (forall i | 0 < i < |sgl| :: sgl[i].addr % page == 0)
    && (forall i | 0 <= i < |sgl| - 1 :: (sgl[i].addr + sgl[i].len) % page == 0)
  }

  // ---------------------------------------------------------------- how the controller reads PRPs

  /** The pages that the given entries name. */
  function PageAddresses(entries: seq<Word>, page: nat): (r: seq<nat>)
    ensures |r| == page * |entries|
  {
    if entries == [] then []
    else
      var n := |entries| - 1;
      assert page * |entries| == page * n + page;
      PageAddresses(entries[..n], page) + Run(AddressOf(entries[n]), page)
  }

  /** How many pages hold `rest` bytes. */
  function PagesFor(rest: nat, page: nat): (n: nat)
    requires page > 0
  {
    (rest + page - 1) / page
  }

  /** What PRP1 covers: to the end of its page. */
  function FirstPageBytes(addr: nat, page: nat): (n: nat)
    requires page > 0
    ensures 0 < n <= page
  {
    page - addr % page
  }

  /** The entries beyond PRP1 for a transfer of `length` bytes: none, PRP2 itself, or the
      list that PRP2 points to. */
  function OtherEntries(prp1: Word, prp2: Word, list: seq<Word>, length: nat, page: nat): (entries: seq<Word>)
    requires page > 0
  {
    var first := FirstPageBytes(AddressOf(prp1), page);
    if length <= first then []
    else if length - first <= page then [prp2]
    else list
  }

  /** Only PRP1 may have an offset into its page. */
  ghost predicate OnPages(entries: seq<Word>, page: nat)
    requires page > 0
  {
    forall i | 0 <= i < |entries| :: AddressOf(entries[i]) % page == 0
  }

  /** The bytes that the controller transfers, in order. */
  function Transferred(prp1: Word, prp2: Word, list: seq<Word>, length: nat, page: nat): seq<nat>
    requires page > 0
  {
    var first := FirstPageBytes(AddressOf(prp1), page);
    var all := Run(AddressOf(prp1), first) + PageAddresses(OtherEntries(prp1, prp2, list, length, page), page);
    if length <= |all| then all[..length] else all
  }

  // ---------------------------------------------------------------- walking the list

  /** A position in a scatter list: the unread part of segment `cur`. */
  datatype Cursor = Cursor(cur: nat, addr: nat, len: int)

  /** The list's bytes are the ones in `done` followed by the ones from the cursor on. */
  ghost predicate At(sgl: seq<Segment>, done: seq<nat>, c: Cursor) {
    && c.cur < |sgl| && c.len > 0 && c.addr + c.len == sgl[c.cur].addr + sgl[c.cur].len
    && done + (Run(c.addr, c.len) + Addresses(sgl[c.cur + 1..])) == Addresses(sgl)
  }

  lemma AtStart(sgl: seq<Segment>, page: nat)
    requires page > 0 && sgl != [] && PageAligned(sgl, page)
    ensures At(sgl, [], Cursor(0, sgl[0].addr, sgl[0].len))
  {
    assert [] + Addresses(sgl) == Addresses(sgl);
  }

  lemma NextBoundary(addr: nat, len: nat, page: nat)
    requires page > 0 && len > 0 && (addr + len) % page == 0
    ensures len >= FirstPageBytes(addr, page)
  {
    var q, e := addr / page, (addr + len) / page;
    assert addr == page * q + addr % page && addr + len == page * e;
    if e <= q {
      if e < q { MulGap(page, e, q); }
    } else {
      MulGap(page, q, e);
    }
  }

  lemma PageEndIsAligned(addr: nat, page: nat)
    requires page > 0
    ensures (addr + FirstPageBytes(addr, page)) % page == 0
  {
    var q := addr / page;
    assert addr == page * q + addr % page;
    assert page * (q + 1) == page * q + page;
    DivUnique(addr + FirstPageBytes(addr, page), page, q + 1, 0);
  }

  lemma SplitRun(addr: nat, len: nat, n: nat)
    requires n <= len
    ensures Run(addr, len) == Run(addr, n) + Run(addr + n, len - n)
  {
  }

  /** A segment that ends within the page is the last one. */
  lemma ShortSegmentIsLast(sgl: seq<Segment>, page: nat, done: seq<nat>, c: Cursor)
    requires page > 0 && PageAligned(sgl, page) && At(sgl, done, c)
    requires c.len < FirstPageBytes(c.addr, page)
    ensures c.cur + 1 == |sgl| && Addresses(sgl[c.cur + 1..]) == []
  {
    if c.cur + 1 < |sgl| {
      NextBoundary(c.addr, c.len, page);
    }
  }

  /** The step that finishes: the rest of the page covers what is left. */
  lemma LastPage(sgl: seq<Segment>, page: nat, length: nat, done: seq<nat>, c: Cursor)
    requires page > 0 && PageAligned(sgl, page) && At(sgl, done, c)
    requires |done| <= length <= |Addresses(sgl)| && length - |done| <= FirstPageBytes(c.addr, page)
    ensures (done + Run(c.addr, FirstPageBytes(c.addr, page)))[..length] == Addresses(sgl)[..length]
  {
    var n, rest := FirstPageBytes(c.addr, page), Addresses(sgl[c.cur + 1..]);
    if c.len < n {
      ShortSegmentIsLast(sgl, page, done, c);
    }
    var all := done + (Run(c.addr, c.len) + rest);
    forall i | 0 <= i < length
      ensures (done + Run(c.addr, n))[i] == all[i]
    {
    }
  }

  lemma SegmentReachesPageEnd(sgl: seq<Segment>, page: nat, done: seq<nat>, c: Cursor)
    requires page > 0 && PageAligned(sgl, page) && At(sgl, done, c)
    requires |Addresses(sgl)| - |done| > FirstPageBytes(c.addr, page)
    ensures c.len >= FirstPageBytes(c.addr, page)
  {
    if c.len < FirstPageBytes(c.addr, page) {
      ShortSegmentIsLast(sgl, page, done, c);
    }
  }

  /** The next page lies in the same segment. */
  lemma NextPage(sgl: seq<Segment>, page: nat, done: seq<nat>, c: Cursor, n: nat)
    requires page > 0 && At(sgl, done, c) && n == FirstPageBytes(c.addr, page) < c.len
    ensures At(sgl, done + Run(c.addr, n), Cursor(c.cur, c.addr + n, c.len - n))
    ensures (c.addr + n) % page == 0
  {
    var rest := Addresses(sgl[c.cur + 1..]);
    SplitRun(c.addr, c.len, n);
    PageEndIsAligned(c.addr, page);
    Assoc(Run(c.addr, n), Run(c.addr + n, c.len - n), rest);
    Assoc(done, Run(c.addr, n), Run(c.addr + n, c.len - n) + rest);
  }

  /** The next page starts the next segment. */
  lemma NextSegment(sgl: seq<Segment>, page: nat, done: seq<nat>, c: Cursor)
    requires page > 0 && PageAligned(sgl, page) && At(sgl, done, c)
    requires c.cur + 1 < |sgl|
    ensures At(sgl, done + Run(c.addr, c.len), Cursor(c.cur + 1, sgl[c.cur + 1].addr, sgl[c.cur + 1].len))
    ensures sgl[c.cur + 1].addr % page == 0
  {
    var tail := sgl[c.cur + 1..];
    Assoc(done, Run(c.addr, c.len), Addresses(tail));
    assert tail[1..] == sgl[c.cur + 2..];
  }

  lemma PagesBounds(rest: nat, page: nat, n: nat)
    requires page > 0
    ensures PagesFor(rest, page) > n <==> rest > page * n
  {
    var m := PagesFor(rest, page);
    assert rest + page - 1 == page * m + (rest + page - 1) % page;
    if m > n {
      MulGap(page, n, m);
    } else if m < n {
      MulGap(page, m, n);
    }
  }

  // ---------------------------------------------------------------- setup

  datatype Status = Ok | Resource | IoErr | Bug

  /** The command fields that receive the two pointers. */
  datatype Command = Command(prp1: Word, prp2: Word, slba: Word, reftag: Word)

  /** The bytes that PRP1 and the given further entries reach. */
  ghost function Reached(sgl: seq<Segment>, page: nat, entries: seq<Word>): (r: seq<nat>)
    requires page > 0 && sgl != []
    ensures |r| == FirstPageBytes(sgl[0].addr, page) + page * |entries|
  {
    Run(sgl[0].addr, FirstPageBytes(sgl[0].addr, page)) + PageAddresses(entries, page)
  }

  lemma ReachedSnoc(sgl: seq<Segment>, page: nat, entries: seq<Word>, entry: Word)
    requires page > 0 && sgl != []
    ensures Reached(sgl, page, entries + [entry]) == Reached(sgl, page, entries) + Run(AddressOf(entry), page)
  {
    assert (entries + [entry])[..|entries|] == entries;
    var first := FirstPageBytes(sgl[0].addr, page);
    Assoc(Run(sgl[0].addr, first), PageAddresses(entries, page), Run(AddressOf(entry), page));
  }

  /** The entries written so far and the cursor, inside an aligned list. */
  ghost predicate Walked(sgl: seq<Segment>, page: nat, entries: seq<Word>, c: Cursor)
    requires page > 0 && sgl != []
  {
    At(sgl, Reached(sgl, page, entries), c) && c.addr % page == 0 && OnPages(entries, page)
  }

  /** The entries reach the first `length` bytes of the list, in order. */
  ghost predicate Complete(sgl: seq<Segment>, page: nat, entries: seq<Word>, length: nat)
    requires page > 0 && sgl != []
  {
    && length <= |Addresses(sgl)| && length <= |Reached(sgl, page, entries)|
    && Reached(sgl, page, entries)[..length] == Addresses(sgl)[..length]
    && OnPages(entries, page)
  }

  /** `sg_next` has a next segment whenever bytes are left, aligned list or not. */
  ghost predicate InList(sgl: seq<Segment>, c: Cursor, left: int) {
    c.cur < |sgl| && c.len + |Addresses(sgl[c.cur + 1..])| >= left
  }

  lemma MoreSegments(sgl: seq<Segment>, c: Cursor, left: int)
    requires InList(sgl, c, left) && c.len == 0 && left > 0
    ensures c.cur + 1 < |sgl|
    ensures InList(sgl, Cursor(c.cur + 1, sgl[c.cur + 1].addr, sgl[c.cur + 1].len), left)
  {
    var tail := sgl[c.cur + 1..];
    assert tail != [];
    assert tail[1..] == sgl[c.cur + 2..];
  }

  /** The last entry of an aligned list. */
  lemma WalkEnds(sgl: seq<Segment>, page: nat, length: nat, entries: seq<Word>, entry: Word, c: Cursor)
    requires page > 0 && sgl != [] && PageAligned(sgl, page) && Walked(sgl, page, entries, c)
    requires AddressOf(entry) == c.addr && length <= |Addresses(sgl)|
    requires |Reached(sgl, page, entries)| < length <= |Reached(sgl, page, entries)| + page
    ensures Complete(sgl, page, entries + [entry], length)
  {
    ReachedEnds(sgl, page, length, entries, entry, c);
    OneMorePage(entries, entry, page);
  }

  lemma OneMorePage(entries: seq<Word>, entry: Word, page: nat)
    requires page > 0 && OnPages(entries, page) && AddressOf(entry) % page == 0
    ensures OnPages(entries + [entry], page)
  {
  }

  lemma ReachedEnds(sgl: seq<Segment>, page: nat, length: nat, entries: seq<Word>, entry: Word, c: Cursor)
    requires page > 0 && sgl != [] && PageAligned(sgl, page) && At(sgl, Reached(sgl, page, entries), c)
    requires c.addr % page == 0 && AddressOf(entry) == c.addr && length <= |Addresses(sgl)|
    requires |Reached(sgl, page, entries)| < length <= |Reached(sgl, page, entries)| + page
    ensures Reached(sgl, page, entries + [entry])[..length] == Addresses(sgl)[..length]
  {
    LastPage(sgl, page, length, Reached(sgl, page, entries), c);
    ReachedSnoc(sgl, page, entries, entry);
  }

  /** The cursor after the page it stands on: in the same segment, or `sg_next`. */
  function Advance(sgl: seq<Segment>, c: Cursor): Cursor
    requires c.len > 0 || c.cur + 1 < |sgl|
  {
    if c.len > 0 then c else Cursor(c.cur + 1, sgl[c.cur + 1].addr, sgl[c.cur + 1].len)
  }

  lemma WalkStays(sgl: seq<Segment>, page: nat, length: nat, entries: seq<Word>, c: Cursor)
    requires page > 0 && sgl != [] && PageAligned(sgl, page) && Walked(sgl, page, entries, c)
    requires |Reached(sgl, page, entries)| + page < length <= |Addresses(sgl)|
    ensures c.len >= page
  {
    SegmentReachesPageEnd(sgl, page, Reached(sgl, page, entries), c);
  }

  /** Every entry but the last of an aligned list. */
  lemma WalkGoesOn(sgl: seq<Segment>, page: nat, entries: seq<Word>, entry: Word, c: Cursor)
    requires page > 0 && sgl != [] && PageAligned(sgl, page) && Walked(sgl, page, entries, c)
    requires AddressOf(entry) == c.addr && c.len >= page && (c.len == page ==> c.cur + 1 < |sgl|)
    ensures Walked(sgl, page, entries + [entry], Advance(sgl, Cursor(c.cur, c.addr + page, c.len - page)))
  {
    var done := Reached(sgl, page, entries);
    ReachedSnoc(sgl, page, entries, entry);
    OneMorePage(entries, entry, page);
    if c.len > page {
      NextPage(sgl, page, done, c, page);
    } else {
      NextSegment(sgl, page, done, c);
    }
  }

  ghost function Rest(sgl: seq<Segment>, page: nat, length: nat): int
    requires page > 0 && sgl != []
  {
    length - FirstPageBytes(sgl[0].addr, page)
  }

  /** The entry is a 48-bit address with the given prefix. */
  ghost predicate Carries(entry: Word, prefix: Word) {
    entry == Entry(AddressOf(entry), prefix)
  }

  /** The prefix leaves the address bits alone. */
  ghost predicate IsPrefix(prefix: Word) {
    exists func: nat, qid: nat, cid: nat :: prefix == AddressPrefix(func, qid, cid)
  }

  method MakeEntry(addr: nat, prefix: Word) returns (entry: Word)
    requires IsPrefix(prefix)
    ensures addr < 0x1_0000_0000_0000 ==> AddressOf(entry) == addr && Carries(entry, prefix)
  {
    entry := Entry(Wrap(addr), prefix);
    if addr < 0x1_0000_0000_0000 {
      WrapOfWord(addr);
      ghost var func: nat, qid: nat, cid: nat :| prefix == AddressPrefix(func, qid, cid);
      PrefixKeepsAddress(addr, func, qid, cid);
    }
  }

  datatype Outcome = More | Done | BadSgl

  /** What the loop does after it stored an entry. */
  method AfterEntry(sgl: seq<Segment>, page: nat, length: nat, ghost before: seq<Word>, entry: Word,
                    c: Cursor, left: int) returns (outcome: Outcome, c': Cursor)
    requires page > 0 && sgl != [] && length <= |Addresses(sgl)| && left > 0 && InList(sgl, c, left)
    requires |Reached(sgl, page, before)| + left == length
    requires PageAligned(sgl, page) ==> Walked(sgl, page, before, c) && AddressOf(entry) == c.addr
    ensures outcome.Done? <==> left <= page
    ensures outcome.More? ==> InList(sgl, c', left - page)
    ensures PageAligned(sgl, page) && outcome.More? ==> Walked(sgl, page, before + [entry], c')
    ensures PageAligned(sgl, page) && outcome.Done? ==> Complete(sgl, page, before + [entry], length)
    ensures PageAligned(sgl, page) ==> !outcome.BadSgl?
  {
    c' := c.(addr := c.addr + page, len := c.len - page);
    if left - page <= 0 {
      if PageAligned(sgl, page) {
        WalkEnds(sgl, page, length, before, entry, c);
      }
      return Done, c';
    }
    if PageAligned(sgl, page) {
      WalkStays(sgl, page, length, before, c);
    }
    if c'.len < 0 {
      return BadSgl, c';
    }
    if c'.len == 0 {
      MoreSegments(sgl, c', left - page);
    }
    if PageAligned(sgl, page) {
      WalkGoesOn(sgl, page, before, entry, c);
    }
    return More, Advance(sgl, c');
  }

  lemma CursorInField(sgl: seq<Segment>, page: nat, entries: seq<Word>, c: Cursor)
    requires page > 0 && sgl != [] && PageAligned(sgl, page) && Walked(sgl, page, entries, c)
    ensures c.addr < 0x1_0000_0000_0000
  {
  }

  /** Where the loop stands after it stored `entries`. */
  ghost predicate Progress(sgl: seq<Segment>, page: nat, length: nat, prefix: Word, entries: seq<Word>,
                           outcome: Outcome, c: Cursor, left: int)
    requires page > 0 && sgl != []
  {
    && length <= |Addresses(sgl)| && |Reached(sgl, page, entries)| + left == length
    && (outcome.More? ==> left > 0 && InList(sgl, c, left))
    && (outcome.Done? ==> entries != [] && left <= 0 < left + page)
    && (PageAligned(sgl, page) ==>
          && !outcome.BadSgl?
          && (outcome.More? ==> Walked(sgl, page, entries, c))
          && (outcome.Done? ==> Complete(sgl, page, entries, length))
          && forall e | e in entries :: Carries(e, prefix))
  }

  /** One round of the loop. */
  method StoreEntry(sgl: seq<Segment>, page: nat, length: nat, prefix: Word, list: array<Word>, n: nat,
                    c: Cursor, left: int) returns (outcome: Outcome, c': Cursor)
    requires page > 0 && sgl != [] && IsPrefix(prefix) && n < list.Length
    requires Progress(sgl, page, length, prefix, list[..n], More, c, left)
    modifies list
    ensures Progress(sgl, page, length, prefix, list[..n + 1], outcome, c', left - page)
  {
    if PageAligned(sgl, page) {
      CursorInField(sgl, page, list[..n], c);
    }
    ghost var before := list[..n];
    var entry := MakeEntry(c.addr, prefix);
    list[n] := entry;
    assert list[..n + 1] == before + [entry];
    ReachedSnoc(sgl, page, before, entry);
    outcome, c' := AfterEntry(sgl, page, length, before, entry, c, left);
  }

  lemma CountAtEnd(sgl: seq<Segment>, page: nat, length: nat, prefix: Word, entries: seq<Word>, c: Cursor, left: int)
    requires page > 0 && sgl != [] && Progress(sgl, page, length, prefix, entries, Done, c, left)
    requires Rest(sgl, page, length) > 0
    ensures |entries| == PagesFor(Rest(sgl, page, length), page)
  {
    PagesBounds(Rest(sgl, page, length), page, |entries|);
    PagesBounds(Rest(sgl, page, length), page, |entries| - 1);
    assert page * |entries| == page * (|entries| - 1) + page;
  }

  lemma CountAtLimit(sgl: seq<Segment>, page: nat, length: nat, prefix: Word, entries: seq<Word>, c: Cursor, left: int)
    requires page > 0 && sgl != [] && Progress(sgl, page, length, prefix, entries, More, c, left)
    requires Rest(sgl, page, length) > 0
    ensures |entries| < PagesFor(Rest(sgl, page, length), page)
  {
    PagesBounds(Rest(sgl, page, length), page, |entries|);
  }

  /** The loop that fills the PRP list with the pages after the first. */
  method FillList(sgl: seq<Segment>, page: nat, length: nat, prefix: Word, start: Cursor, list: array<Word>)
    returns (status: Status, n: nat)
    requires page > 0 && sgl != [] && list.Length >= page / 8 && IsPrefix(prefix)
    requires Rest(sgl, page, length) > 0
    requires Progress(sgl, page, length, prefix, [], More, start, Rest(sgl, page, length))
    modifies list
    ensures status.Ok? || status.IoErr? || status.Bug?
    ensures status.IoErr? ==> !PageAligned(sgl, page)
    ensures status.Bug? ==> PagesFor(Rest(sgl, page, length), page) > page / 8
    ensures status.Ok? ==> n == PagesFor(Rest(sgl, page, length), page) <= page / 8 && n <= list.Length
    ensures status.Ok? && PageAligned(sgl, page) ==>
              Complete(sgl, page, list[..n], length) && forall e | e in list[..n] :: Carries(e, prefix)
  {
    var c := start;
    var left: int := length - FirstPageBytes(sgl[0].addr, page);
    var outcome := More;
    n := 0;
    assert list[..0] == [];
    while outcome.More?
      invariant n <= page / 8
      invariant Progress(sgl, page, length, prefix, list[..n], outcome, c, left)
      decreases outcome.More?, left
    {
      if n == page / 8 {
        CountAtLimit(sgl, page, length, prefix, list[..n], c, left);
        return Bug, n;
      }
      outcome, c := StoreEntry(sgl, page, length, prefix, list, n, c, left);
      n := n + 1;
      left := left - page;
    }
    if outcome.BadSgl? {
      return IoErr, n;
    }
    CountAtEnd(sgl, page, length, prefix, list[..n], c, left);
    return Ok, n;
  }

  // ---------------------------------------------------------------- the whole setup

  /** A transfer through these pointers moves exactly the first `length` bytes of the list, and
      every pointer but the first is that of a whole page. */
  ghost predicate Describes(prp1: Word, prp2: Word, list: seq<Word>, sgl: seq<Segment>, length: nat, page: nat)
    requires page > 0
  {
    && length <= |Addresses(sgl)| && Transferred(prp1, prp2, list, length, page) == Addresses(sgl)[..length]
    && OnPages(OtherEntries(prp1, prp2, list, length, page), page)
  }

  lemma CompleteDescribes(prp1: Word, prp2: Word, list: seq<Word>, sgl: seq<Segment>, length: nat, page: nat)
    requires page > 0 && sgl != [] && AddressOf(prp1) == sgl[0].addr
    requires Complete(sgl, page, OtherEntries(prp1, prp2, list, length, page), length)
    ensures Describes(prp1, prp2, list, sgl, length, page)
  {
  }

  /** One page is enough. */
  lemma OnePage(sgl: seq<Segment>, page: nat, length: nat)
    requires page > 0 && sgl != [] && PageAligned(sgl, page)
    requires length <= |Addresses(sgl)| && Rest(sgl, page, length) <= 0
    ensures Complete(sgl, page, [], length)
  {
    AtStart(sgl, page);
    LastPage(sgl, page, length, [], Cursor(0, sgl[0].addr, sgl[0].len));
    ReachedFirst(sgl, page);
  }

  /** The cursor behind the first page. */
  method SkipFirstPage(sgl: seq<Segment>, page: nat, length: nat, ghost prefix: Word) returns (c: Cursor)
    requires page > 0 && sgl != [] && length <= |Addresses(sgl)| && Rest(sgl, page, length) > 0
    ensures Progress(sgl, page, length, prefix, [], More, c, Rest(sgl, page, length))
  {
    var first := FirstPageBytes(sgl[0].addr, page);
    c := Cursor(0, sgl[0].addr + first, sgl[0].len - first);
    assert InList(sgl, c, Rest(sgl, page, length));
    if PageAligned(sgl, page) {
      FirstSegmentIsLong(sgl, page, length);
      if c.len > 0 {
        WalkedFirstPage(sgl, page, first);
      }
    }
    if c.len == 0 {
      MoreSegments(sgl, c, Rest(sgl, page, length));
      if PageAligned(sgl, page) {
        WalkedFirstSegment(sgl, page);
      }
      c := Cursor(c.cur + 1, sgl[c.cur + 1].addr, sgl[c.cur + 1].len);
    }
  }

  lemma ReachedFirst(sgl: seq<Segment>, page: nat)
    requires page > 0 && sgl != []
    ensures Reached(sgl, page, []) == [] + Run(sgl[0].addr, FirstPageBytes(sgl[0].addr, page))
  {
  }

  lemma FirstSegmentIsLong(sgl: seq<Segment>, page: nat, length: nat)
    requires page > 0 && sgl != [] && PageAligned(sgl, page)
    requires length <= |Addresses(sgl)| && Rest(sgl, page, length) > 0
    ensures sgl[0].len >= FirstPageBytes(sgl[0].addr, page)
  {
    AtStart(sgl, page);
    SegmentReachesPageEnd(sgl, page, [], Cursor(0, sgl[0].addr, sgl[0].len));
  }

  lemma WalkedAt(sgl: seq<Segment>, page: nat, entries: seq<Word>, done: seq<nat>, c: Cursor)
    requires page > 0 && sgl != [] && done == Reached(sgl, page, entries) && At(sgl, done, c) && c.addr % page == 0
    requires OnPages(entries, page)
    ensures Walked(sgl, page, entries, c)
  {
  }

  lemma FirstPageIsBehind(sgl: seq<Segment>, page: nat, first: nat)
    requires page > 0 && sgl != [] && PageAligned(sgl, page) && first == FirstPageBytes(sgl[0].addr, page) < sgl[0].len
    ensures At(sgl, [] + Run(sgl[0].addr, first), Cursor(0, sgl[0].addr + first, sgl[0].len - first))
    ensures (sgl[0].addr + first) % page == 0
  {
    AtStart(sgl, page);
    NextPage(sgl, page, [], Cursor(0, sgl[0].addr, sgl[0].len), first);
  }

  lemma WalkedFirstPage(sgl: seq<Segment>, page: nat, first: nat)
    requires page > 0 && sgl != [] && PageAligned(sgl, page) && first == FirstPageBytes(sgl[0].addr, page) < sgl[0].len
    ensures Walked(sgl, page, [], Cursor(0, sgl[0].addr + first, sgl[0].len - first))
  {
    FirstPageIsBehind(sgl, page, first);
    ReachedFirst(sgl, page);
    WalkedAt(sgl, page, [], [] + Run(sgl[0].addr, first), Cursor(0, sgl[0].addr + first, sgl[0].len - first));
  }

  lemma FirstSegmentIsBehind(sgl: seq<Segment>, page: nat)
    requires page > 0 && |sgl| > 1 && PageAligned(sgl, page)
    ensures At(sgl, [] + Run(sgl[0].addr, sgl[0].len), Cursor(1, sgl[1].addr, sgl[1].len))
    ensures sgl[1].addr % page == 0
  {
    AtStart(sgl, page);
    NextSegment(sgl, page, [], Cursor(0, sgl[0].addr, sgl[0].len));
  }

  lemma WalkedFirstSegment(sgl: seq<Segment>, page: nat)
    requires page > 0 && |sgl| > 1 && PageAligned(sgl, page) && sgl[0].len == FirstPageBytes(sgl[0].addr, page)
    ensures Walked(sgl, page, [], Cursor(1, sgl[1].addr, sgl[1].len))
  {
    FirstSegmentIsBehind(sgl, page);
    ReachedFirst(sgl, page);
    WalkedAt(sgl, page, [], [] + Run(sgl[0].addr, sgl[0].len), Cursor(1, sgl[1].addr, sgl[1].len));
  }

  /** The second page, when it is the last: whatever entry names it. */
  lemma TwoPages(sgl: seq<Segment>, page: nat, length: nat, prefix: Word, c: Cursor, entry: Word)
    requires page > 0 && sgl != [] && PageAligned(sgl, page) && 0 < Rest(sgl, page, length) <= page
    requires Progress(sgl, page, length, prefix, [], More, c, Rest(sgl, page, length))
    requires AddressOf(entry) == c.addr
    ensures Complete(sgl, page, [entry], length)
  {
    WalkEnds(sgl, page, length, [], entry, c);
    assert [] + [entry] == [entry];
  }

  /** The number of entries in the PRP list. */
  ghost function ListEntries(sgl: seq<Segment>, page: nat, length: nat): nat
    requires page > 0 && sgl != []
  {
    if Rest(sgl, page, length) > page then PagesFor(Rest(sgl, page, length), page) else 0
  }

  /** `first` and `entries` are what PRP2 and the PRP list should be. */
  ghost predicate Follows(sgl: seq<Segment>, page: nat, length: nat, prefix: Word, second: nat,
                          entries: seq<Word>, listDma: Word)
    requires page > 0 && sgl != []
  {
    var rest := Rest(sgl, page, length);
    && second < 0x1_0000_0000_0000
    && (rest <= 0 ==> Complete(sgl, page, [], length))
    && (0 < rest <= page ==> forall e: Word | AddressOf(e) == second :: Complete(sgl, page, [e], length))
    && (rest > page ==> second == listDma && Complete(sgl, page, entries, length))
    && forall e | e in entries :: Carries(e, prefix)
  }

  lemma FollowsDescribes(sgl: seq<Segment>, page: nat, length: nat, prefix: Word, second: nat, entries: seq<Word>,
                         listDma: Word, prp1: Word, prp2: Word)
    requires page > 0 && sgl != [] && Follows(sgl, page, length, prefix, second, entries, listDma)
    requires AddressOf(prp1) == sgl[0].addr && AddressOf(prp2) == second
    ensures Describes(prp1, prp2, entries, sgl, length, page)
  {
    CompleteDescribes(prp1, prp2, entries, sgl, length, page);
  }

  /** The part of the setup before the pointers are stored. */
  method FindSecondPointer(sgl: seq<Segment>, page: nat, length: nat, prefix: Word, list: array?<Word>, listDma: Word)
    returns (status: Status, second: nat)
    requires page > 0 && sgl != [] && length <= |Addresses(sgl)| && IsPrefix(prefix)
    requires list != null ==> list.Length >= page / 8
    modifies list
    ensures status.IoErr? ==> !PageAligned(sgl, page)
    ensures status.Resource? <==> Rest(sgl, page, length) > page && list == null
    ensures status.Bug? ==> list != null && ListEntries(sgl, page, length) > page / 8
    ensures status.Ok? && ListEntries(sgl, page, length) > 0 ==>
              list != null && ListEntries(sgl, page, length) <= page / 8
    ensures status.Ok? && PageAligned(sgl, page) && listDma < 0x1_0000_0000_0000 ==>
              Follows(sgl, page, length, prefix, second,
                      if ListEntries(sgl, page, length) == 0 then [] else list[..ListEntries(sgl, page, length)],
                      listDma)
  {
    var first := FirstPageBytes(sgl[0].addr, page);
    PagesBounds(if length > first then length - first else 0, page, 0);
    if length <= FirstPageBytes(sgl[0].addr, page) {
      if PageAligned(sgl, page) {
        OnePage(sgl, page, length);
      }
      return Ok, 0;
    }
    var c := SkipFirstPage(sgl, page, length, prefix);
    if length - FirstPageBytes(sgl[0].addr, page) <= page {
      if PageAligned(sgl, page) {
        forall e: Word | AddressOf(e) == c.addr
          ensures Complete(sgl, page, [e], length)
        {
          TwoPages(sgl, page, length, prefix, c, e);
        }
      }
      return Ok, c.addr;
    }
    if list == null {
      return Resource, 0;
    }
    var n;
    status, n := FillList(sgl, page, length, prefix, c, list);
    return status, listDma;
  }

  /** The two pointers and the PRP list describe the list's bytes in order, each entry under
      the prefix. */
  ghost predicate PointTo(prp1: Word, prp2: Word, entries: seq<Word>, sgl: seq<Segment>, page: nat, length: nat,
                          prefix: Word, listDma: Word)
    requires page > 0 && sgl != []
  {
    && Describes(prp1, prp2, entries, sgl, length, page)
    && (entries != [] ==> AddressOf(prp2) == listDma)
    && Carries(prp1, prefix) && Carries(prp2, prefix) && forall e | e in entries :: Carries(e, prefix)
  }

  /** `nvme_qdma_setup_prps`. On a page-aligned list it never reports a bad list; it runs
      into the entry limit exactly when more pages remain than fit one list; otherwise the
      pointers are in PRP1 and PRP2, or with `fillLba` in the start LBA and the reference tag,
      and the other two fields keep their values. */
  method SetupPrps(sgl: seq<Segment>, page: nat, length: nat, prefix: Word, list: array?<Word>, listDma: Word,
                   command: Command, fillLba: bool) returns (status: Status, command': Command)
    requires page > 0 && sgl != [] && length <= |Addresses(sgl)| && IsPrefix(prefix)
    requires list != null ==> list.Length >= page / 8
    modifies list
    ensures !status.Ok? ==> command' == command
    ensures !fillLba ==> command'.slba == command.slba && command'.reftag == command.reftag
    ensures fillLba ==> command'.prp1 == command.prp1 && command'.prp2 == command.prp2
    ensures status.IoErr? ==> !PageAligned(sgl, page)
    ensures status.Resource? <==> Rest(sgl, page, length) > page && list == null
    ensures PageAligned(sgl, page) ==> (status.Bug? <==> list != null && ListEntries(sgl, page, length) > page / 8)
    ensures status.Ok? && ListEntries(sgl, page, length) > 0 ==>
              list != null && ListEntries(sgl, page, length) <= list.Length
    ensures PageAligned(sgl, page) && listDma < 0x1_0000_0000_0000 && status.Ok? ==>
              var n := ListEntries(sgl, page, length);
              var entries := if n == 0 then [] else list[..n];
              && (!fillLba ==> PointTo(command'.prp1, command'.prp2, entries, sgl, page, length, prefix, listDma))
              && (fillLba ==> PointTo(command'.slba, command'.reftag, entries, sgl, page, length, prefix, listDma))
  {
    var second;
    status, second := FindSecondPointer(sgl, page, length, prefix, list, listDma);
    if !status.Ok? {
      return status, command;
    }
    var prp1 := MakeEntry(sgl[0].addr, prefix);
    var prp2 := MakeEntry(second, prefix);
    if PageAligned(sgl, page) && listDma < 0x1_0000_0000_0000 {
      ghost var n := ListEntries(sgl, page, length);
      FollowsDescribes(sgl, page, length, prefix, second, if n == 0 then [] else list[..n], listDma, prp1, prp2);
    }
    command' := if fillLba then command.(slba := prp1, reftag := prp2) else command.(prp1 := prp1, prp2 := prp2);
  }
}
