/** The descriptor ring of the AXI MCDMA driver, shared with hardware, and the length
    accounting of the layer above it. Every operation is proved to act on the ring as
    the corresponding step acts on the queue of module DmaQueue.
 */
module DmaRing {
  import opened Numbers
  import opened DmaQueue

  /** The fields of a software descriptor and its hardware buffer descriptor. */
  datatype Descriptor = Descriptor(
    context: Option<nat>,
    requestEnd: bool,
    ctrlLength: nat,
    completed: bool,
    transferredBytes: nat)

  /** The descriptor holds what the queue entry says. */
  predicate Holds(d: Descriptor, e: Entry) {
    && d.context == Some(e.io)
    && d.requestEnd == e.last
    && d.ctrlLength == e.length
    && d.completed == e.done
    && (e.done ==> d.transferredBytes == e.bytes)
  }

  lemma SlotIsInjective(head: nat, j: nat, k: nat, size: nat)
    requires head < size && j < size && k < size && j != k
    ensures RingSlot(head, j, size) != RingSlot(head, k, size)
  {
  }

  lemma LastOfGroup(queue: seq<Entry>, t: nat, submission: Submission)
    requires submission.lengths != []
    ensures var n := |submission.lengths| - 1;
            queue + Group(t, submission) == (queue + Group(t, submission)[..n]) + [NewEntry(t, submission, n)]
  {
  }

  class Channel {
    const tx: bool
    const desc: array<Descriptor>
    var head: nat
    var tail: nat
    var count: nat
    /** The `transfered_length` fields of the IO objects. */
    var transferred: map<nat, nat>
    ghost var s: State

    /** The outstanding descriptors lie between head and tail, so the count is the
        distance from head to tail, and a full ring is told from an empty one. */
    ghost predicate Ring(queue: seq<Entry>)
      reads this, desc
    {
      && head < desc.Length && tail < desc.Length
      && count == |queue| <= desc.Length
      && tail == RingSlot(head, count, desc.Length)
      && forall j | 0 <= j < count :: Holds(desc[RingSlot(head, j, desc.Length)], queue[j])
    }

    ghost predicate Valid()
      reads this, desc
    {
      Inv(s) && Ring(s.queue) && transferred == s.transferred
    }

    /** The ring part of `rte_axi_dma_create_channel`. */
    constructor (numBds: nat, tx: bool)
      requires numBds > 0
      ensures Valid() && s == INITIAL && desc.Length == numBds && this.tx == tx && fresh(desc)
    {
      InitialInv();
      desc := new Descriptor[numBds](_ => Descriptor(None, false, 0, false, 0));
      this.tx := tx;
      head, tail, count := 0, 0, 0;
      transferred := map[];
      s := INITIAL;
    }

    /** `channel_empty` */
    predicate Empty()
      reads this
    {
      if count != 0 then false else head == tail
    }

    /** `channel_full` */
    predicate Full()
      reads this
    {
      if count != 0 then head == tail else false
    }

    /** The two tests are exact. */
    lemma FullAndEmptyAreExact()
      requires Valid()
      ensures Empty() <==> s.queue == []
      ensures Full() <==> |s.queue| == desc.Length
    {
    }

    /** One round of a submission loop: fill the descriptor at the tail. The stale
        `completed` bit of an earlier lap is cleared. */
    method AddDescriptor(io: nat, length: nat, last: bool, ghost queue: seq<Entry>, ghost e: Entry)
      requires Ring(queue) && count < desc.Length
      requires e.io == io && e.length == length && e.last == last && !e.done
      modifies this`tail, this`count, desc
      ensures Ring(queue + [e]) && head == old(head)
    {
      ghost var at := tail;
      forall j | 0 <= j < count
        ensures RingSlot(head, j, desc.Length) != at
      {
        SlotIsInjective(head, j, count, desc.Length);
      }
      desc[tail] := Descriptor(Some(io), last, length, false, desc[tail].transferredBytes);
      tail := if tail + 1 == desc.Length then 0 else tail + 1;
      count := count + 1;
    }

    /** The loops of `rte_axi_dma_add_buffer` and `rte_axi_dma_send_seg` over the
        segments. They write the whole request, unless a finish descriptor follows. */
    method AddDescriptors(io: nat, lengths: seq<nat>, finishFollows: bool,
                          ghost queue: seq<Entry>, ghost t: nat, ghost submission: Submission)
      requires Ring(queue) && count + |lengths| <= desc.Length
      requires submission.io == io
      requires submission.lengths == if finishFollows then lengths + [16] else lengths
      modifies this`tail, this`count, desc
      ensures Ring(queue + Group(t, submission)[..|lengths|]) && head == old(head)
      ensures count == old(count) + |lengths|
    {
      ghost var group := Group(t, submission);
      assert queue + group[..0] == queue;
      for i := 0 to |lengths|
        invariant Ring(queue + group[..i]) && count == old(count) + i && head == old(head)
      {
        AddDescriptor(io, lengths[i], i == |lengths| - 1 && !finishFollows, queue + group[..i],
                      NewEntry(t, submission, i));
        assert queue + group[..i + 1] == (queue + group[..i]) + [NewEntry(t, submission, i)];
      }
    }

    /** `rte_axi_dma_add_buffer`. The ring is tested for being full only once, so a
        request that does not fit as a whole must not be submitted. Every length is
        below 2^26. */
    method AddBuffer(io: nat, lengths: seq<nat>) returns (ok: bool)
      requires Valid() && lengths != [] && IoIsFree(s, io)
      requires io in transferred && transferred[io] == Wrap32(Sum(lengths))
      requires Full() || count + |lengths| <= desc.Length
      requires forall i | 0 <= i < |lengths| :: lengths[i] < 0x400_0000
      modifies this, desc
      ensures Valid()
      ensures ok <==> !old(Full())
      ensures s == if ok then Submit(old(s), io, lengths) else old(s)
    {
      if Full() {
        return false;
      }
      SubmitInv(s, io, lengths);
      ghost var submission := Submission(io, lengths);
      AddDescriptors(io, lengths, false, s.queue, |s.submitted|, submission);
      assert Group(|s.submitted|, submission)[..|lengths|] == Group(|s.submitted|, submission);
      s := Submit(s, io, lengths);
      ok := true;
    }

    /** `rte_axi_dma_send_seg`, which never tests for a full ring. With `lastData` an
        extra descriptor of 16 bytes carries the finish marker and ends the request. */
    method SendSegments(io: nat, lengths: seq<nat>, lastData: bool)
      requires Valid() && tx && lengths != [] && IoIsFree(s, io)
      requires io in transferred && transferred[io] == Wrap32(Sum(lengths))
      requires count + |lengths| + (if lastData then 1 else 0) <= desc.Length
      requires forall i | 0 <= i < |lengths| :: lengths[i] < 0x400_0000
      modifies this, desc
      ensures Valid()
      ensures s == Submit(old(s), io, if lastData then lengths + [16] else lengths)
    {
      ghost var all := if lastData then lengths + [16] else lengths;
      SubmitInv(s, io, all);
      AddGroup(io, lengths, lastData, s.queue, |s.submitted|, Submission(io, all));
      s := Submit(s, io, all);
    }

    /** All descriptors of a segmented send, with the length of the IO object. */
    method AddGroup(io: nat, lengths: seq<nat>, lastData: bool,
                    ghost queue: seq<Entry>, ghost t: nat, ghost submission: Submission)
      requires Ring(queue) && count + |lengths| + (if lastData then 1 else 0) <= desc.Length
      requires submission == Submission(io, if lastData then lengths + [16] else lengths)
      requires io in transferred && transferred[io] == Wrap32(Sum(lengths))
      modifies this`transferred, this`tail, this`count, desc
      ensures Ring(queue + Group(t, submission))
      ensures transferred == old(transferred)[io := Wrap32(Sum(submission.lengths))]
    {
      AddDescriptors(io, lengths, lastData, queue, t, submission);
      if lastData {
        SendFinish(io, queue + Group(t, submission)[..|lengths|], NewEntry(t, submission, |lengths|));
        FinishLength(lengths);
        LastOfGroup(queue, t, submission);
      } else {
        assert Group(t, submission)[..|lengths|] == Group(t, submission);
      }
    }

    /** The finish descriptor of a segmented send. */
    method SendFinish(io: nat, ghost queue: seq<Entry>, ghost e: Entry)
      requires Ring(queue) && count < desc.Length && io in transferred
      requires e.io == io && e.length == 16 && e.last && !e.done
      modifies this`transferred, this`tail, this`count, desc
      ensures Ring(queue + [e])
      ensures transferred == old(transferred)[io := Wrap32(old(transferred)[io] + 16)]
    {
      transferred := transferred[io := Wrap32(transferred[io] + 16)];
      AddDescriptor(io, 16, true, queue, e);
    }

    /** Hardware completes an outstanding descriptor. */
    method HardwareCompletes(j: nat, bytes: nat)
      requires Valid() && j < count && !s.queue[j].done
      modifies desc, this`s
      ensures Valid() && s == Complete(old(s), j, bytes)
    {
      CompleteInv(s, j, bytes);
      ghost var size := desc.Length;
      forall k | 0 <= k < count && k != j
        ensures RingSlot(head, k, size) != RingSlot(head, j, size)
      {
        SlotIsInjective(head, j, k, size);
      }
      var i := RingSlot(head, j, desc.Length);
      desc[i] := desc[i].(completed := true, transferredBytes := bytes);
      s := Complete(s, j, bytes);
    }

    /** The loop body of poll: take the completed descriptor at the head out of the
        ring and settle the length of its IO object. */
    method Consume() returns (io: nat, requestEnd: bool)
      requires Valid() && count > 0 && s.queue[0].done
      modifies this, desc
      ensures Valid() && old(s.queue[0].io in s.transferred) && s == Pop(old(s))
      ensures io == old(s.queue[0].io) && requestEnd == old(s.queue[0].last)
    {
      FrontIsKnown(s);
      PopInv(s);
      assert RingSlot(head, 0, desc.Length) == head;
      ghost var at, size := head, desc.Length;
      forall j | 0 < j < count
        ensures RingSlot(head, j, size) != at
      {
        SlotIsInjective(head, 0, j, size);
      }
      var d := desc[head];
      io, requestEnd := d.context.value, d.requestEnd;
      desc[head] := d.(context := None, requestEnd := false);
      head := if head + 1 == desc.Length then 0 else head + 1;
      count := count - 1;
      transferred := transferred[io := Wrap32(transferred[io] - (d.ctrlLength - d.transferredBytes))];
      s := Pop(s);
    }

    /** Hardware completes what it can of a list of descriptors. */
    method HardwareWorks(cs: seq<Completion>)
      requires Valid()
      modifies desc, this`s
      ensures Valid() && s == CompleteAll(old(s), cs)
    {
      ghost var before := s;
      for i := 0 to |cs|
        invariant Valid() && s == CompleteAll(before, cs[..i])
      {
        assert cs[..i + 1][..i] == cs[..i];
        var c := cs[i];
        if c.j < count && !desc[RingSlot(head, c.j, desc.Length)].completed {
          HardwareCompletes(c.j, c.bytes);
        }
      }
      assert cs[..|cs|] == cs;
    }

    /** `rte_axi_dma_poll_complete`; hardware goes on working between its rounds. */
    method PollComplete(hardware: nat -> seq<Completion>) returns (r: Option<nat>)
      requires Valid()
      modifies this, desc
      ensures Valid()
      ensures (s, r) == Poll(old(s), hardware, 0)
      ensures PollPromise(old(s), s, r)
    {
      PollKeepsPromise(s, hardware, 0);
      ghost var target := Poll(s, hardware, 0);
      var round: nat := 0;
      while true
        invariant Valid() && Poll(s, hardware, round) == target
        decreases count
      {
        HardwareWorks(hardware(round));
        if Empty() {
          return None;
        }
        assert RingSlot(head, 0, desc.Length) == head;
        if !desc[head].completed {
          return None;
        }
        FrontIsKnown(s);
        var io, requestEnd := Consume();
        if requestEnd {
          return Some(io);
        }
        round := round + 1;
      }
    }

    /** The ring part of `rte_axi_dma_enable_channel`: unless software and hardware are
        both idle, the ring restarts at its first descriptor. Everything outstanding is
        forgotten: runs from there return exactly what is submitted from there on. */
    method Enable(hardwareIdle: bool)
      requires Valid()
      modifies this, desc
      ensures Valid() && s.queue == []
      ensures old(s.queue) == [] && hardwareIdle ==> s == old(s)
      ensures !(old(s.queue) == [] && hardwareIdle) ==>
        s == INITIAL.(transferred := old(s.transferred)) && Started(s) && Reachable(s, []) && head == 0 == tail
    {
      if head == tail && count == 0 && hardwareIdle {
        return;
      }
      head, tail, count := 0, 0, 0;
      if tx {
        desc[0] := desc[0].(completed := false, ctrlLength := 0);
      }
      s := INITIAL.(transferred := s.transferred);
      StartedInv(s);
      StartedIsReachable(s);
    }

    /** The length accounting of `spdk_axi_dma_rx_channel_recv` and the send functions:
        the IO object starts with the sum of its segment lengths. */
    method SetLength(io: nat, lengths: seq<nat>)
      requires Valid() && IoIsFree(s, io)
      modifies this`transferred, this`s
      ensures Valid() && io in transferred && transferred[io] == Wrap32(Sum(lengths))
      ensures s == old(s).(transferred := old(s.transferred)[io := Wrap32(Sum(lengths))])
    {
      var total := TotalLength(lengths);
      OtherLengths(s, io, total);
      transferred := transferred[io := total];
      s := s.(transferred := s.transferred[io := total]);
    }
  }

  /** `transfered_length += len` over the segments. */
  method TotalLength(lengths: seq<nat>) returns (total: nat)
    ensures total == Wrap32(Sum(lengths))
  {
    total := 0;
    for i := 0 to |lengths|
      invariant total == Wrap32(Sum(lengths[..i]))
    {
      SumSnoc(lengths, i);
      Wrap32Sum(Sum(lengths[..i]), lengths[i]);
      total := Wrap32(total + lengths[i]);
    }
    SumWhole(lengths);
  }

  lemma Wrap32Sum(a: int, b: int)
    ensures Wrap32(Wrap32(a) + b) == Wrap32(a + b)
  {
  }

  lemma FinishLength(lengths: seq<nat>)
    ensures Wrap32(Wrap32(Sum(lengths)) + 16) == Wrap32(Sum(lengths + [16]))
  {
    assert (lengths + [16])[..|lengths|] == lengths;
    Wrap32Sum(Sum(lengths), 16);
  }

  lemma OtherLengths(s: State, io: nat, total: nat)
    requires Inv(s) && IoIsFree(s, io)
    ensures Inv(s.(transferred := s.transferred[io := total]))
  {
    var s' := s.(transferred := s.transferred[io := total]);
    forall t: nat | Outstanding(s', t)
      ensures Accounted(s', t)
    {
      assert Outstanding(s, t) && Accounted(s, t);
    }
  }
}
