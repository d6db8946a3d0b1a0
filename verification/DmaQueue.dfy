/** What the AXI MCDMA descriptor ring does, as a queue of descriptors.

    Software submits requests of one or more descriptors, hardware completes
    outstanding descriptors in any order, and polling consumes completed descriptors
    from the front. Every submission has a ticket, its position in the history of
    submissions, because software reuses its IO objects.
 */
module DmaQueue {
  import opened Numbers

  datatype Submission = Submission(io: nat, lengths: seq<nat>)

  /** A descriptor: what software wrote, and what hardware reported. */
  datatype Entry = Entry(ticket: nat, io: nat, last: bool, length: nat, done: bool, bytes: nat)

  /** `log` holds the descriptors consumed by polling, `queue` the outstanding ones.
      `transferred` is the length field of the IO objects, a 32-bit number. */
  datatype State = State(
    submitted: seq<Submission>,
    log: seq<Entry>,
    queue: seq<Entry>,
    returned: nat,
    transferred: map<nat, nat>)

  function Wrap32(x: int): (w: nat)
    ensures w < TWO32
  {
    x % 0x1_0000_0000
  }

  // ---------------------------------------------------------------- steps

  function NewEntry(ticket: nat, s: Submission, d: nat): Entry
    requires d < |s.lengths|
  {
    Entry(ticket, s.io, d == |s.lengths| - 1, s.lengths[d], false, 0)
  }

  /** The descriptors of a submission; only the last one ends the request. */
  function Group(ticket: nat, s: Submission): (g: seq<Entry>)
    ensures |g| == |s.lengths|
  {
    seq(|s.lengths|, d requires 0 <= d < |s.lengths| => NewEntry(ticket, s, d))
  }

  ghost function Submit(s: State, io: nat, lengths: seq<nat>): State {
    var submission := Submission(io, lengths);
    s.(submitted := s.submitted + [submission],
       queue := s.queue + Group(|s.submitted|, submission),
       transferred := s.transferred[io := Wrap32(Sum(lengths))])
  }

  /** Hardware reports `bytes` for an outstanding descriptor. */
  function Complete(s: State, j: nat, bytes: nat): State
    requires j < |s.queue|
  {
    s.(queue := s.queue[j := s.queue[j].(done := true, bytes := bytes)])
  }

  /** Polling consumes the descriptor at the front. */
  function Pop(s: State): State
    requires s.queue != [] && s.queue[0].io in s.transferred
  {
    var e := s.queue[0];
    s.(log := s.log + [e],
       queue := s.queue[1..],
       returned := s.returned + if e.last then 1 else 0,
       transferred := s.transferred[e.io := Wrap32(s.transferred[e.io] - (e.length - e.bytes))])
  }

  /** What hardware reports for the descriptor `j` places behind the front. */
  datatype Completion = Completion(j: nat, bytes: nat)

  predicate CanComplete(s: State, c: Completion) {
    c.j < |s.queue| && !s.queue[c.j].done
  }

  /** Hardware at work: completions that name no open descriptor do nothing. */
  function CompleteAll(s: State, cs: seq<Completion>): (s': State)
    ensures |s'.queue| == |s.queue| && s'.submitted == s.submitted && s'.returned == s.returned
  {
    if cs == [] then s
    else
      var before, c := CompleteAll(s, cs[..|cs| - 1]), cs[|cs| - 1];
      if CanComplete(before, c) then Complete(before, c.j, c.bytes) else before
  }

  predicate FrontIsDone(s: State) {
    s.queue != [] && s.queue[0].done && s.queue[0].io in s.transferred
  }

  /** One call of poll: consume completed descriptors up to the end of a request. Before
      each round hardware may complete more of them. */
  function Poll(s: State, hardware: nat -> seq<Completion>, round: nat): (r: (State, Option<nat>))
    decreases |s.queue|
  {
    var now := CompleteAll(s, hardware(round));
    if !FrontIsDone(now) then (now, None)
    else if now.queue[0].last then (Pop(now), Some(now.queue[0].io))
    else Poll(Pop(now), hardware, round + 1)
  }

  // ---------------------------------------------------------------- invariant

  /** The descriptor as it was submitted. */
  function Fresh(e: Entry): Entry {
    e.(done := false, bytes := 0)
  }

  function AllFresh(es: seq<Entry>): (fs: seq<Entry>)
    ensures |fs| == |es|
  {
    seq(|es|, i requires 0 <= i < |es| => Fresh(es[i]))
  }

  /** All descriptors ever submitted, in order. */
  function Flatten(subs: seq<Submission>): (es: seq<Entry>) {
    if subs == [] then []
    else Flatten(subs[..|subs| - 1]) + Group(|subs| - 1, subs[|subs| - 1])
  }

  ghost function ByteTerms(es: seq<Entry>, ticket: nat): (t: seq<int>)
    ensures |t| == |es|
  {
    seq(|es|, i requires 0 <= i < |es| => if es[i].ticket == ticket then es[i].bytes as int else 0)
  }

  ghost function LengthTerms(es: seq<Entry>, ticket: nat): (t: seq<int>)
    ensures |t| == |es|
  {
    seq(|es|, i requires 0 <= i < |es| => if es[i].ticket == ticket then es[i].length as int else 0)
  }

  /** Bytes that hardware reported for the descriptors of a request. */
  ghost function SumBytes(es: seq<Entry>, ticket: nat): int {
    Sum(ByteTerms(es, ticket))
  }

  ghost function SumLengths(es: seq<Entry>, ticket: nat): int {
    Sum(LengthTerms(es, ticket))
  }

  function CountLast(es: seq<Entry>): nat {
    if es == [] then 0
    else CountLast(es[..|es| - 1]) + if es[|es| - 1].last then 1 else 0
  }

  ghost predicate Outstanding(s: State, t: nat) {
    s.returned <= t < |s.submitted|
  }

  /** The length field of an outstanding request: what hardware reported for its
      consumed descriptors plus what was asked of the others. */
  ghost predicate Accounted(s: State, t: nat)
    requires t < |s.submitted|
  {
    && s.submitted[t].io in s.transferred
    && s.transferred[s.submitted[t].io] == Wrap32(SumBytes(s.log, t) + SumLengths(s.queue, t))
  }

  ghost predicate Inv(s: State) {
    // Nothing is lost, duplicated or reordered.
    && AllFresh(s.log + s.queue) == Flatten(s.submitted)
    && (forall t | 0 <= t < |s.submitted| :: s.submitted[t].lengths != [])
    // A consumed descriptor was completed by hardware.
    && (forall i | 0 <= i < |s.log| :: s.log[i].done)
    // A request was returned exactly if its last descriptor was consumed.
    && s.returned == CountLast(s.log)
    && s.returned <= |s.submitted|
    // Outstanding requests use different IO objects and are accounted for.
    && (forall t: nat, u: nat | Outstanding(s, t) && Outstanding(s, u) && t != u ::
          s.submitted[t].io != s.submitted[u].io)
    && (forall t: nat | Outstanding(s, t) :: Accounted(s, t))
  }

  const INITIAL: State := State([], [], [], 0, map[])

  lemma InitialInv()
    ensures Inv(INITIAL)
  {
  }

  // ---------------------------------------------------------------- the history

  lemma {:induction false} FlattenTickets(subs: seq<Submission>, p: nat)
    requires p < |Flatten(subs)|
    ensures var e := Flatten(subs)[p]; e.ticket < |subs| && e.io == subs[e.ticket].io
  {
    var n := |subs| - 1;
    if p < |Flatten(subs[..n])| {
      FlattenTickets(subs[..n], p);
    }
  }

  lemma CountLastConcat(a: seq<Entry>, b: seq<Entry>)
    ensures CountLast(a + b) == CountLast(a) + CountLast(b)
  {
    if b == [] {
      assert a + b == a;
    } else {
      CountLastConcat(a, b[..|b| - 1]);
      assert (a + b)[..|a + b| - 1] == a + b[..|b| - 1];
    }
  }

  lemma {:induction false} NoLast(es: seq<Entry>)
    requires forall i | 0 <= i < |es| :: !es[i].last
    ensures CountLast(es) == 0
  {
    if es != [] {
      NoLast(es[..|es| - 1]);
    }
  }

  lemma GroupCountLast(t: nat, s: Submission)
    requires s.lengths != []
    ensures CountLast(Group(t, s)) == 1
  {
    var g := Group(t, s);
    NoLast(g[..|g| - 1]);
  }

  lemma {:induction false} FlattenCountLast(subs: seq<Submission>)
    requires forall t | 0 <= t < |subs| :: subs[t].lengths != []
    ensures CountLast(Flatten(subs)) == |subs|
  {
    if subs != [] {
      var n := |subs| - 1;
      FlattenCountLast(subs[..n]);
      GroupCountLast(n, subs[n]);
      CountLastConcat(Flatten(subs[..n]), Group(n, subs[n]));
    }
  }

  /** The number of requests that end before a position is the ticket found there. */
  lemma {:induction false} EndsBefore(subs: seq<Submission>, p: nat)
    requires forall t | 0 <= t < |subs| :: subs[t].lengths != []
    requires p < |Flatten(subs)|
    ensures CountLast(Flatten(subs)[..p]) == Flatten(subs)[p].ticket
  {
    var n := |subs| - 1;
    var front, group := Flatten(subs[..n]), Group(n, subs[n]);
    if p < |front| {
      EndsBefore(subs[..n], p);
      assert Flatten(subs)[..p] == front[..p];
    } else {
      assert Flatten(subs)[..p] == front + group[..p - |front|];
      CountLastConcat(front, group[..p - |front|]);
      FlattenCountLast(subs[..n]);
      NoLast(group[..p - |front|]);
    }
  }

  lemma {:induction false} CountLastOfFresh(es: seq<Entry>)
    ensures CountLast(AllFresh(es)) == CountLast(es)
  {
    if es != [] {
      CountLastOfFresh(es[..|es| - 1]);
      assert AllFresh(es)[..|es| - 1] == AllFresh(es[..|es| - 1]);
    }
  }

  /** Position `p` of the history, consumed or outstanding. */
  lemma HistoryAt(s: State, p: nat)
    requires AllFresh(s.log + s.queue) == Flatten(s.submitted)
    requires forall t | 0 <= t < |s.submitted| :: s.submitted[t].lengths != []
    requires p < |s.log + s.queue|
    ensures var e := (s.log + s.queue)[p];
      && e.ticket < |s.submitted|
      && e.io == s.submitted[e.ticket].io
      && CountLast((s.log + s.queue)[..p]) == e.ticket
  {
    var all := s.log + s.queue;
    assert AllFresh(all)[p] == Fresh(all[p]);
    FlattenTickets(s.submitted, p);
    EndsBefore(s.submitted, p);
    CountLastOfFresh(all[..p]);
    assert AllFresh(all)[..p] == AllFresh(all[..p]);
  }

  lemma {:induction false} CountLastGrows(es: seq<Entry>, p: nat, q: nat)
    requires p <= q <= |es|
    ensures CountLast(es[..p]) <= CountLast(es[..q])
    decreases q
  {
    if p < q {
      CountLastGrows(es, p, q - 1);
      assert es[..q][..q - 1] == es[..q - 1];
    }
  }

  /** Every outstanding descriptor belongs to an outstanding request, and the front one
      to the oldest. */
  lemma QueueTickets(s: State, j: nat)
    requires Inv(s) && j < |s.queue|
    ensures Outstanding(s, s.queue[j].ticket)
    ensures s.queue[j].io == s.submitted[s.queue[j].ticket].io
    ensures s.queue[0].ticket == s.returned
  {
    var all := s.log + s.queue;
    HistoryAt(s, |s.log| + j);
    HistoryAt(s, |s.log|);
    CountLastGrows(all, |s.log|, |s.log| + j);
    assert all[..|s.log|] == s.log;
    assert all[|s.log|] == s.queue[0];
  }

  /** Behind the end of a request there is no descriptor of it. */
  lemma BehindTheEnd(s: State, j: nat)
    requires Inv(s) && 0 < j < |s.queue| && s.queue[0].last
    ensures s.queue[j].ticket > s.queue[0].ticket
  {
    var all := s.log + s.queue;
    var p := |s.log|;
    HistoryAt(s, p + j);
    HistoryAt(s, p);
    assert all[..p + 1][..p] == all[..p];
    assert CountLast(all[..p + 1]) == CountLast(all[..p]) + 1;
    CountLastGrows(all, p + 1, p + j);
  }

  // ---------------------------------------------------------------- sums per request

  lemma SumLengthsConcat(a: seq<Entry>, b: seq<Entry>, t: nat)
    ensures SumLengths(a + b, t) == SumLengths(a, t) + SumLengths(b, t)
  {
    assert LengthTerms(a + b, t) == LengthTerms(a, t) + LengthTerms(b, t);
    SumConcat(LengthTerms(a, t), LengthTerms(b, t));
  }

  lemma SumBytesSnoc(a: seq<Entry>, e: Entry, t: nat)
    ensures SumBytes(a + [e], t) == SumBytes(a, t) + if e.ticket == t then e.bytes else 0
  {
    assert ByteTerms(a + [e], t)[..|a|] == ByteTerms(a, t);
  }

  lemma SumLengthsFirst(es: seq<Entry>, t: nat)
    requires es != []
    ensures SumLengths(es, t)
         == (if es[0].ticket == t then es[0].length else 0) + SumLengths(es[1..], t)
  {
    assert es == [es[0]] + es[1..];
    SumLengthsConcat([es[0]], es[1..], t);
    var x: int := if es[0].ticket == t then es[0].length else 0;
    assert LengthTerms([es[0]], t) == [x];
    SumOne(x);
  }

  lemma {:induction false} SumOfZeros(s: seq<int>)
    requires forall i | 0 <= i < |s| :: s[i] == 0
    ensures Sum(s) == 0
  {
    if s != [] {
      SumOfZeros(s[..|s| - 1]);
    }
  }

  lemma SumsOfOthers(es: seq<Entry>, t: nat)
    requires forall i | 0 <= i < |es| :: es[i].ticket != t
    ensures SumLengths(es, t) == 0 && SumBytes(es, t) == 0
  {
    SumOfZeros(LengthTerms(es, t));
    SumOfZeros(ByteTerms(es, t));
  }

  lemma GroupLengths(t: nat, s: Submission)
    ensures SumLengths(Group(t, s), t) == Sum(s.lengths)
  {
    assert LengthTerms(Group(t, s), t) == s.lengths;
  }

  // ---------------------------------------------------------------- steps keep the invariant

  lemma LogTickets(s: State, i: nat)
    requires Inv(s) && i < |s.log|
    ensures s.log[i].ticket < |s.submitted|
  {
    HistoryAt(s, i);
    assert (s.log + s.queue)[i] == s.log[i];
  }

  ghost predicate IoIsFree(s: State, io: nat) {
    forall t: nat | Outstanding(s, t) :: s.submitted[t].io != io
  }

  lemma SubmitHistory(s: State, io: nat, lengths: seq<nat>)
    requires Inv(s)
    ensures var s' := Submit(s, io, lengths); AllFresh(s'.log + s'.queue) == Flatten(s'.submitted)
  {
    var s' := Submit(s, io, lengths);
    var group := Group(|s.submitted|, Submission(io, lengths));
    assert s'.submitted[..|s.submitted|] == s.submitted;
    assert AllFresh(group) == group;
    assert s'.log + s'.queue == (s.log + s.queue) + group;
    assert AllFresh((s.log + s.queue) + group) == AllFresh(s.log + s.queue) + AllFresh(group);
  }

  lemma SubmitAccounts(s: State, io: nat, lengths: seq<nat>, t: nat)
    requires Inv(s) && IoIsFree(s, io) && Outstanding(Submit(s, io, lengths), t)
    ensures Accounted(Submit(s, io, lengths), t)
  {
    var n := |s.submitted|;
    var group := Group(n, Submission(io, lengths));
    SumLengthsConcat(s.queue, group, t);
    if t == n {
      forall i: nat | i < |s.log|
        ensures s.log[i].ticket != n
      {
        LogTickets(s, i);
      }
      forall j: nat | j < |s.queue|
        ensures s.queue[j].ticket != n
      {
        QueueTickets(s, j);
      }
      SumsOfOthers(s.log, n);
      SumsOfOthers(s.queue, n);
      GroupLengths(n, Submission(io, lengths));
    } else {
      SumsOfOthers(group, t);
      assert Outstanding(s, t) && Accounted(s, t);
    }
  }

  lemma SubmitInv(s: State, io: nat, lengths: seq<nat>)
    requires Inv(s) && lengths != [] && IoIsFree(s, io)
    ensures Inv(Submit(s, io, lengths))
  {
    SubmitHistory(s, io, lengths);
    var s' := Submit(s, io, lengths);
    forall t: nat | Outstanding(s', t)
      ensures Accounted(s', t)
    {
      SubmitAccounts(s, io, lengths, t);
    }
  }

  lemma CompleteInv(s: State, j: nat, bytes: nat)
    requires Inv(s) && j < |s.queue|
    ensures Inv(Complete(s, j, bytes))
  {
    var s' := Complete(s, j, bytes);
    assert AllFresh(s'.log + s'.queue) == AllFresh(s.log + s.queue);
    forall t: nat | Outstanding(s', t)
      ensures Accounted(s', t)
    {
      assert Outstanding(s, t) && Accounted(s, t);
      assert LengthTerms(s'.queue, t) == LengthTerms(s.queue, t);
    }
  }

  lemma Wrap32Shift(a: int, length: int, bytes: int)
    ensures Wrap32(Wrap32(a) - (length - bytes)) == Wrap32(a - length + bytes)
  {
  }

  lemma PopAccounts(s: State, t: nat)
    requires Inv(s) && s.queue != [] && s.queue[0].io in s.transferred
    requires t < |s.submitted| && Outstanding(s, t)
    ensures Accounted(Pop(s), t)
  {
    var e := s.queue[0];
    QueueTickets(s, 0);
    SumLengthsFirst(s.queue, t);
    SumBytesSnoc(s.log, e, t);
    assert Accounted(s, t);
    if t == e.ticket {
      Wrap32Shift(SumBytes(s.log, t) + SumLengths(s.queue, t), e.length, e.bytes);
    } else {
      assert s.submitted[t].io != s.submitted[e.ticket].io;
    }
  }

  lemma FrontIsKnown(s: State)
    requires Inv(s) && s.queue != []
    ensures s.queue[0].io in s.transferred
  {
    QueueTickets(s, 0);
    assert Accounted(s, s.queue[0].ticket);
  }

  lemma PopInv(s: State)
    requires Inv(s) && s.queue != [] && s.queue[0].done && s.queue[0].io in s.transferred
    ensures Inv(Pop(s))
  {
    var s', e := Pop(s), s.queue[0];
    assert s'.log + s'.queue == s.log + s.queue;
    CountLastConcat(s.log, [e]);
    assert [e][..0] == [];
    QueueTickets(s, 0);
    forall t: nat | Outstanding(s', t)
      ensures Accounted(s', t)
    {
      PopAccounts(s, t);
    }
  }

  // ---------------------------------------------------------------- polling

  /** What one poll promises. A request is returned only after all its descriptors were
      completed and consumed, in submission order, and its length field is then the sum
      of the bytes that hardware reported for them. If nothing is returned, the front
      descriptor is not completed, so no completed request is missed. */
  ghost predicate PollPromise(s: State, s': State, r: Option<nat>) {
    && Inv(s')
    && s'.submitted == s.submitted
    && (r.None? ==> s'.returned == s.returned && (s'.queue == [] || !s'.queue[0].done))
    && (r.Some? ==>
          && s.returned < |s.submitted|
          && s'.returned == s.returned + 1
          && r.value == s.submitted[s.returned].io
          && (forall j | 0 <= j < |s'.queue| :: s'.queue[j].ticket != s.returned)
          && r.value in s'.transferred
          && s'.transferred[r.value] == SumBytes(s'.log, s.returned) % 0x1_0000_0000)
  }

  lemma PopReturns(s: State)
    requires Inv(s) && s.queue != [] && s.queue[0].done && s.queue[0].last
    requires s.queue[0].io in s.transferred
    ensures PollPromise(s, Pop(s), Some(s.queue[0].io))
  {
    var s', e := Pop(s), s.queue[0];
    PopInv(s);
    QueueTickets(s, 0);
    forall j: nat | j < |s'.queue|
      ensures s'.queue[j].ticket != e.ticket
    {
      BehindTheEnd(s, j + 1);
    }
    PopAccounts(s, e.ticket);
    SumsOfOthers(s'.queue, e.ticket);
  }

  lemma {:induction false} CompleteAllInv(s: State, cs: seq<Completion>)
    requires Inv(s)
    ensures Inv(CompleteAll(s, cs))
  {
    if cs != [] {
      var before, c := CompleteAll(s, cs[..|cs| - 1]), cs[|cs| - 1];
      CompleteAllInv(s, cs[..|cs| - 1]);
      if CanComplete(before, c) {
        CompleteInv(before, c.j, c.bytes);
      }
    }
  }

  lemma {:induction false} PollKeepsPromise(s: State, hardware: nat -> seq<Completion>, round: nat)
    requires Inv(s)
    ensures PollPromise(s, Poll(s, hardware, round).0, Poll(s, hardware, round).1)
    decreases |s.queue|
  {
    var now := CompleteAll(s, hardware(round));
    CompleteAllInv(s, hardware(round));
    if now.queue != [] && now.queue[0].done {
      FrontIsKnown(now);
      if now.queue[0].last {
        PopReturns(now);
      } else {
        PopInv(now);
        PollKeepsPromise(Pop(now), hardware, round + 1);
      }
    }
  }

  // ---------------------------------------------------------------- runs

  /** What can happen to the ring. A poll is not one event but a sequence of rounds, so
      hardware completes descriptors between any two of them. */
  datatype Event =
    | SubmitEvent(io: nat, lengths: seq<nat>)
    | CompleteEvent(completion: Completion)
    | RoundEvent

  ghost predicate Enabled(s: State, e: Event) {
    match e
    case SubmitEvent(io, lengths) => lengths != [] && IoIsFree(s, io)
    case CompleteEvent(c) => CanComplete(s, c)
    case RoundEvent => true
  }

  ghost function Step(s: State, e: Event): State
    requires Enabled(s, e)
  {
    match e
    case SubmitEvent(io, lengths) => Submit(s, io, lengths)
    case CompleteEvent(c) => Complete(s, c.j, c.bytes)
    case RoundEvent => if FrontIsDone(s) then Pop(s) else s
  }

  /** What the step returns to the caller of poll. */
  function Result(s: State, e: Event): (ios: seq<nat>) {
    if e.RoundEvent? && FrontIsDone(s) && s.queue[0].last then [s.queue[0].io] else []
  }

  /** Nothing was submitted since the ring was created or reset. */
  ghost predicate Started(s: State) {
    s == INITIAL.(transferred := s.transferred)
  }

  /** Any interleaving of submissions, hardware completions and rounds of polls. */
  ghost predicate IsRun(states: seq<State>, events: seq<Event>) {
    && |states| == |events| + 1
    && Started(states[0])
    && forall i: nat | i < |events| ::
         Enabled(states[i], events[i]) && states[i + 1] == Step(states[i], events[i])
  }

  /** The IO objects that the polls among the first `n` events returned. */
  ghost function Returned(states: seq<State>, events: seq<Event>, n: nat): seq<nat>
    requires n <= |events| && |states| == |events| + 1
  {
    if n == 0 then [] else Returned(states, events, n - 1) + Result(states[n - 1], events[n - 1])
  }

  ghost function Ios(subs: seq<Submission>): (ios: seq<nat>)
    ensures |ios| == |subs|
  {
    seq(|subs|, t requires 0 <= t < |subs| => subs[t].io)
  }

  lemma StartedInv(s: State)
    requires Started(s)
    ensures Inv(s)
  {
  }

  lemma StepInv(s: State, e: Event)
    requires Inv(s) && Enabled(s, e)
    ensures Inv(Step(s, e)) && s.submitted <= Step(s, e).submitted
  {
    match e
    case SubmitEvent(io, lengths) => SubmitInv(s, io, lengths);
    case CompleteEvent(c) => CompleteInv(s, c.j, c.bytes);
    case RoundEvent =>
      if FrontIsDone(s) {
        PopInv(s);
      }
  }

  /** A step appends what it returns to the returned requests. */
  lemma StepReturns(s: State, e: Event)
    requires Inv(s) && Enabled(s, e)
    ensures Inv(Step(s, e))
    ensures Ios(Step(s, e).submitted[..Step(s, e).returned]) == Ios(s.submitted[..s.returned]) + Result(s, e)
  {
    StepInv(s, e);
    if e.RoundEvent? && FrontIsDone(s) && s.queue[0].last {
      PopReturns(s);
    }
    assert Step(s, e).submitted[..s.returned] == s.submitted[..s.returned];
  }

  /** Ring safety over every run: the invariant holds throughout, and the returned
      requests are exactly the first submitted ones, in order, each once. */
  lemma {:induction false} RunsAreFifo(states: seq<State>, events: seq<Event>, n: nat)
    requires IsRun(states, events) && n <= |events|
    ensures Inv(states[n])
    ensures Returned(states, events, n) == Ios(states[n].submitted[..states[n].returned])
  {
    if n == 0 {
      StartedInv(states[0]);
    } else {
      RunsAreFifo(states, events, n - 1);
      assert Enabled(states[n - 1], events[n - 1]) && states[n] == Step(states[n - 1], events[n - 1]);
      StepReturns(states[n - 1], events[n - 1]);
    }
  }

  // ---------------------------------------------------------------- polls as parts of runs

  /** Some run leads to `s` and returns `ios` on the way. */
  ghost predicate Reachable(s: State, ios: seq<nat>) {
    exists states: seq<State>, events: seq<Event> ::
      IsRun(states, events) && states[|events|] == s && Returned(states, events, |events|) == ios
  }

  lemma StartedIsReachable(s: State)
    requires Started(s)
    ensures Reachable(s, [])
  {
    assert IsRun([s], []) && Returned([s], [], 0) == [];
  }

  lemma {:induction false} ReturnedBefore(states: seq<State>, events: seq<Event>, s: State, e: Event, n: nat)
    requires |states| == |events| + 1 && n <= |events|
    ensures Returned(states + [s], events + [e], n) == Returned(states, events, n)
  {
    if n > 0 {
      ReturnedBefore(states, events, s, e, n - 1);
    }
  }

  lemma RunGoesOn(states: seq<State>, events: seq<Event>, e: Event)
    requires IsRun(states, events) && Enabled(states[|events|], e)
    ensures IsRun(states + [Step(states[|events|], e)], events + [e])
  {
    var s' := Step(states[|events|], e);
    var states', events' := states + [s'], events + [e];
    forall i: nat | i < |events'|
      ensures Enabled(states'[i], events'[i]) && states'[i + 1] == Step(states'[i], events'[i])
    {
      if i < |events| {
        assert Enabled(states[i], events[i]) && states[i + 1] == Step(states[i], events[i]);
      }
    }
  }

  lemma ReturnedGoesOn(states: seq<State>, events: seq<Event>, s': State, e: Event)
    requires |states| == |events| + 1
    ensures Returned(states + [s'], events + [e], |events| + 1)
         == Returned(states, events, |events|) + Result(states[|events|], e)
  {
    ReturnedBefore(states, events, s', e, |events|);
  }

  lemma ReachableStep(s: State, ios: seq<nat>, e: Event)
    requires Reachable(s, ios) && Enabled(s, e)
    ensures Reachable(Step(s, e), ios + Result(s, e))
  {
    var states: seq<State>, events: seq<Event> :|
      IsRun(states, events) && states[|events|] == s && Returned(states, events, |events|) == ios;
    RunGoesOn(states, events, e);
    ReturnedGoesOn(states, events, Step(s, e), e);
    var states', events' := states + [Step(s, e)], events + [e];
    assert IsRun(states', events') && states'[|events'|] == Step(s, e);
  }

  lemma {:induction false} CompleteAllIsReachable(s: State, ios: seq<nat>, cs: seq<Completion>)
    requires Reachable(s, ios)
    ensures Reachable(CompleteAll(s, cs), ios)
  {
    if cs != [] {
      var before, c := CompleteAll(s, cs[..|cs| - 1]), cs[|cs| - 1];
      CompleteAllIsReachable(s, ios, cs[..|cs| - 1]);
      if CanComplete(before, c) {
        ReachableStep(before, ios, CompleteEvent(c));
        assert ios + [] == ios;
      }
    }
  }

  /** A poll, with whatever hardware does meanwhile, is a part of a run: the state it leaves
      is reachable with its result appended to what was returned before. */
  lemma {:induction false} PollIsReachable(s: State, ios: seq<nat>, hardware: nat -> seq<Completion>, round: nat)
    requires Reachable(s, ios)
    ensures var (s', r) := Poll(s, hardware, round);
            Reachable(s', if r.Some? then ios + [r.value] else ios)
    decreases |s.queue|
  {
    var now := CompleteAll(s, hardware(round));
    CompleteAllIsReachable(s, ios, hardware(round));
    if FrontIsDone(now) {
      ReachableStep(now, ios, RoundEvent);
      if !now.queue[0].last {
        assert ios + [] == ios;
        PollIsReachable(Pop(now), ios, hardware, round + 1);
      }
    }
  }

  /** In every reachable state the returned requests are the first submitted ones, in order. */
  lemma ReachableIsFifo(s: State, ios: seq<nat>)
    requires Reachable(s, ios)
    ensures Inv(s) && ios == Ios(s.submitted[..s.returned])
  {
    var states: seq<State>, events: seq<Event> :|
      IsRun(states, events) && states[|events|] == s && Returned(states, events, |events|) == ios;
    RunsAreFifo(states, events, |events|);
  }
}
