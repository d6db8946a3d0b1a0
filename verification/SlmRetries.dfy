/** When the chunked reader reads a request again, over every run of its workers: the device
    tries of each request are logged from the turns, and the records are what the logs say.
 */
module SlmRetries {
  import opened Numbers
  import opened SlmReader

  /** The turns in which the device was read, for each request. */
  type Log = seq<seq<Turn>>

  /** In state `s`, turn `t` is a device read of request `i`. */
  predicate ReadsRequest(s: State, t: Turn, i: nat) {
    t.worker < |s.workers| && s.workers[t.worker].Reading? && s.workers[t.worker].i == i && IsRead(t.action)
  }

  ghost function LogAfter(log: Log, s: State, t: Turn): (log': Log)
    ensures |log'| == |log|
    ensures forall i: nat | i < |log| :: log'[i] == if ReadsRequest(s, t, i) then log[i] + [t] else log[i]
  {
    seq(|log|, i requires 0 <= i < |log| => if ReadsRequest(s, t, i) then log[i] + [t] else log[i])
  }

  /** The device reads before turn `k`. */
  ghost function LogOf(job: Job, states: seq<State>, turns: seq<Turn>, k: nat): (log: Log)
    requires job.chunk > 0 && k <= |turns| < |states|
    ensures |log| == RequestCount(job)
  {
    if k == 0 then seq(RequestCount(job), _ => [])
    else LogAfter(LogOf(job, states, turns, k - 1), states[k - 1], turns[k - 1])
  }

  /** An interrupted read by worker `w`. */
  predicate Interrupted(t: Turn, w: nat) {
    t.worker == w && t.action.ReadFails? && t.action.sample.errorNumber == 4
  }

  /** Worker `w` was interrupted every time, and at most 16 times. */
  ghost predicate Tried(tries: seq<Turn>, w: nat) {
    |tries| <= 16 && forall j | 0 <= j < |tries| :: Interrupted(tries[j], w)
  }

  /** The last of the reads decides the sample: it succeeded, or failed for another reason than
      an interruption, or it was the seventeenth interruption. */
  ghost predicate Settled(tries: seq<Turn>, w: nat, sample: Sample) {
    && tries != []
    && Tried(tries[..|tries| - 1], w)
    && var t := tries[|tries| - 1];
       && t.worker == w && IsRead(t.action)
       && (t.action.ReadSucceeds? ==> sample.result == 0)
       && (t.action.ReadFails? ==> sample == t.action.sample && sample.result != 0)
       && (Interrupted(t, w) ==> |tries| == 17)
  }

  ghost predicate WorkerTried(s: State, log: Log, w: nat)
    requires w < |s.workers|
  {
    match s.workers[w]
    case Reading(i, retries) => i < |log| && Tried(log[i], w) && |log[i]| == retries
    case Recording(i, sample) => i < |log| && Settled(log[i], w, sample)
    case _ => true
  }

  ghost predicate RequestSettled(s: State, log: Log, i: nat)
    requires i < |log| == |s.records|
  {
    && (i >= |s.owner| ==> log[i] == [] && s.records[i].None?)
    && (i < |s.owner| && s.records[i].Some? ==> Settled(log[i], s.owner[i], s.records[i].value))
  }

  ghost predicate LogInv(s: State, log: Log) {
    && |log| == |s.records|
    && (forall w: nat | w < |s.workers| :: WorkerTried(s, log, w))
    && (forall i: nat | i < |log| :: RequestSettled(s, log, i))
  }

  // ---------------------------------------------------------------- every step keeps the log

  /** One more read of a request that was interrupted so far. */
  lemma OneMoreRead(tries: seq<Turn>, w: nat, t: Turn)
    requires Tried(tries, w) && t.worker == w && t.action.ReadFails? && t.action.sample.result != 0
    ensures t.action.sample.errorNumber == 4 && |tries| < 16 ==> Tried(tries + [t], w)
    ensures t.action.sample.errorNumber != 4 || |tries| == 16 ==> Settled(tries + [t], w, t.action.sample)
  {
    assert (tries + [t])[..|tries|] == tries;
  }

  lemma LastRead(tries: seq<Turn>, w: nat, t: Turn)
    requires Tried(tries, w) && t.worker == w && t.action.ReadSucceeds?
    ensures Settled(tries + [t], w, Sample(0, 0))
  {
    assert (tries + [t])[..|tries|] == tries;
  }

  lemma ReadKeepsReader(job: Job, s: State, log: Log, t: Turn)
    requires Inv(job, s) && Enabled(job, s, t.worker, t.action) && LogInv(s, log) && IsRead(t.action)
    ensures WorkerTried(Step(job, s, t.worker, t.action), LogAfter(log, s, t), t.worker)
  {
    var w := t.worker;
    assert WorkerTried(s, log, w);
    if t.action.ReadSucceeds? {
      LastRead(log[s.workers[w].i], w, t);
    } else {
      OneMoreRead(log[s.workers[w].i], w, t);
    }
  }

  lemma MoveKeepsMover(job: Job, s: State, log: Log, t: Turn)
    requires Inv(job, s) && Enabled(job, s, t.worker, t.action) && LogInv(s, log) && !IsRead(t.action)
    ensures WorkerTried(Step(job, s, t.worker, t.action), LogAfter(log, s, t), t.worker)
  {
    if t.action.FetchAdd? && s.next < RequestCount(job) {
      assert RequestSettled(s, log, s.next);
    }
  }

  lemma StepKeepsOthers(job: Job, s: State, log: Log, t: Turn, v: nat)
    requires Inv(job, s) && Enabled(job, s, t.worker, t.action) && LogInv(s, log) && v < |s.workers| && v != t.worker
    ensures WorkerTried(Step(job, s, t.worker, t.action), LogAfter(log, s, t), v)
  {
    assert WorkerTried(s, log, v);
    if Holds(s.workers[v]) && Holds(s.workers[t.worker]) {
      HeldRequests(job, s, v, t.worker);
    }
  }

  lemma StepKeepsRequest(job: Job, s: State, log: Log, t: Turn, i: nat)
    requires Inv(job, s) && Enabled(job, s, t.worker, t.action) && LogInv(s, log) && i < |log|
    ensures |Step(job, s, t.worker, t.action).records| == |log|
    ensures RequestSettled(Step(job, s, t.worker, t.action), LogAfter(log, s, t), i)
  {
    assert RequestSettled(s, log, i) && WorkerTried(s, log, t.worker) && WorkerOk(job, s, t.worker);
  }

  lemma StepKeepsLog(job: Job, s: State, log: Log, t: Turn)
    requires Inv(job, s) && Enabled(job, s, t.worker, t.action) && LogInv(s, log)
    ensures LogInv(Step(job, s, t.worker, t.action), LogAfter(log, s, t))
  {
    var s', log' := Step(job, s, t.worker, t.action), LogAfter(log, s, t);
    forall v: nat | v < |s'.workers|
      ensures WorkerTried(s', log', v)
    {
      if v != t.worker {
        StepKeepsOthers(job, s, log, t, v);
      } else if IsRead(t.action) {
        ReadKeepsReader(job, s, log, t);
      } else {
        MoveKeepsMover(job, s, log, t);
      }
    }
    forall i: nat | i < |log|
      ensures |s'.records| == |log| && RequestSettled(s', log', i)
    {
      StepKeepsRequest(job, s, log, t, i);
    }
    assert |s'.records| == |s.records|;
  }

  lemma {:induction false} RunKeepsLog(job: Job, depth: nat, buffer: seq<Byte>, states: seq<State>, turns: seq<Turn>,
                                       k: nat)
    requires ValidJob(job) && |buffer| == job.bytes
    requires IsRun(job, depth, buffer, states, turns) && k <= |turns|
    ensures LogInv(states[k], LogOf(job, states, turns, k))
  {
    if k > 0 {
      RunKeepsLog(job, depth, buffer, states, turns, k - 1);
      RunInv(job, depth, buffer, states, turns, k - 1);
      StepKeepsLog(job, states[k - 1], LogOf(job, states, turns, k - 1), turns[k - 1]);
    }
  }

  // ---------------------------------------------------------------- laws of every run

  /** A logged read stays logged. */
  lemma {:induction false} ReadStaysLogged(job: Job, states: seq<State>, turns: seq<Turn>, a: nat, b: nat, i: nat)
    requires job.chunk > 0 && a < b <= |turns| < |states|
    requires i < RequestCount(job) && ReadsRequest(states[a], turns[a], i)
    ensures turns[a] in LogOf(job, states, turns, b)[i]
  {
    var before := LogOf(job, states, turns, b - 1);
    assert LogOf(job, states, turns, b) == LogAfter(before, states[b - 1], turns[b - 1]);
    if a + 1 < b {
      ReadStaysLogged(job, states, turns, a, b - 1, i);
    }
  }

  /** Only an interrupted read is ever followed by another read of its request, and that is
      by the same worker. So a read that succeeds, or fails with any other errno, is the last
      one of its request. */
  lemma OnlyInterruptionsAreRetried(job: Job, depth: nat, buffer: seq<Byte>, states: seq<State>, turns: seq<Turn>,
                                    a: nat, b: nat, i: nat)
    requires ValidJob(job) && |buffer| == job.bytes
    requires IsRun(job, depth, buffer, states, turns) && a < b < |turns| && i < RequestCount(job)
    requires ReadsRequest(states[a], turns[a], i) && ReadsRequest(states[b], turns[b], i)
    ensures turns[a].worker == turns[b].worker
    ensures turns[a].action.ReadFails? && turns[a].action.sample.errorNumber == 4
  {
    RunKeepsLog(job, depth, buffer, states, turns, b);
    ReadStaysLogged(job, states, turns, a, b, i);
    var w := turns[b].worker;
    assert WorkerTried(states[b], LogOf(job, states, turns, b), w);
    assert Interrupted(turns[a], w);
  }

  /** A request that is recorded as interrupted was read exactly 17 times by the worker that
      claimed it, and interrupted every time. */
  lemma InterruptionIsRecordedAfter17Reads(job: Job, depth: nat, buffer: seq<Byte>, states: seq<State>,
                                           turns: seq<Turn>, k: nat, i: nat)
    requires ValidJob(job) && |buffer| == job.bytes
    requires IsRun(job, depth, buffer, states, turns) && k <= |turns|
    requires i < |states[k].records| && states[k].records[i].Some?
    requires states[k].records[i].value.result != 0 && states[k].records[i].value.errorNumber == 4
    ensures i < RequestCount(job) && i < |states[k].owner|
    ensures var tries, w := LogOf(job, states, turns, k)[i], states[k].owner[i];
            |tries| == 17 && forall j | 0 <= j < 17 :: Interrupted(tries[j], w)
  {
    RunKeepsLog(job, depth, buffer, states, turns, k);
    assert RequestSettled(states[k], LogOf(job, states, turns, k), i);
    var tries, w := LogOf(job, states, turns, k)[i], states[k].owner[i];
    forall j | 0 <= j < |tries|
      ensures Interrupted(tries[j], w)
    {
      if j < |tries| - 1 {
        assert tries[j] == tries[..|tries| - 1][j];
      }
    }
  }

  /** When all workers have left, every claimed request has a record, and the last of its at
      most 17 reads decided it. */
  lemma ClaimedRequestsAreSettled(job: Job, depth: nat, buffer: seq<Byte>, states: seq<State>, turns: seq<Turn>, i: nat)
    requires ValidJob(job) && |buffer| == job.bytes && IsRun(job, depth, buffer, states, turns)
    requires AllExited(states[|turns|]) && i < |states[|turns|].owner|
    ensures i < RequestCount(job) && i < |states[|turns|].records| && states[|turns|].records[i].Some?
    ensures Settled(LogOf(job, states, turns, |turns|)[i], states[|turns|].owner[i], states[|turns|].records[i].value)
  {
    var last := states[|turns|];
    RunInv(job, depth, buffer, states, turns, |turns|);
    RunKeepsLog(job, depth, buffer, states, turns, |turns|);
    assert RequestOk(job, last, i) && RequestSettled(last, LogOf(job, states, turns, |turns|), i);
  }

  /** A request whose read succeeds, after however many interruptions, is recorded as success. */
  lemma SuccessIsRecorded(job: Job, depth: nat, buffer: seq<Byte>, states: seq<State>, turns: seq<Turn>, a: nat, i: nat)
    requires ValidJob(job) && |buffer| == job.bytes && IsRun(job, depth, buffer, states, turns)
    requires a < |turns| && i < RequestCount(job) && ReadsRequest(states[a], turns[a], i)
    requires turns[a].action.ReadSucceeds? && AllExited(states[|turns|])
    ensures i < |states[|turns|].records| && states[|turns|].records[i].Some?
    ensures states[|turns|].records[i].value.result == 0
  {
    var last, log := states[|turns|], LogOf(job, states, turns, |turns|);
    RunInv(job, depth, buffer, states, turns, |turns|);
    RunKeepsLog(job, depth, buffer, states, turns, |turns|);
    ReadStaysLogged(job, states, turns, a, |turns|, i);
    assert RequestSettled(last, log, i);
    ClaimedRequestsAreSettled(job, depth, buffer, states, turns, i);
    SettledBySuccess(log[i], last.owner[i], last.records[i].value, turns[a]);
  }

  lemma SettledBySuccess(tries: seq<Turn>, w: nat, sample: Sample, t: Turn)
    requires Settled(tries, w, sample) && t in tries && t.action.ReadSucceeds?
    ensures sample.result == 0
  {
    var n := |tries| - 1;
    forall j | 0 <= j < n
      ensures tries[j].action.ReadFails?
    {
      assert tries[..n][j] == tries[j];
    }
    assert t == tries[n];
  }

  // ---------------------------------------------------------------- claims

  lemma {:induction false} StopStays(job: Job, depth: nat, buffer: seq<Byte>, states: seq<State>, turns: seq<Turn>,
                                     a: nat, b: nat)
    requires job.chunk > 0 && IsRun(job, depth, buffer, states, turns) && a <= b <= |turns| && states[a].stop
    ensures states[b].stop
  {
    if a < b {
      StopStays(job, depth, buffer, states, turns, a, b - 1);
      var s, t := states[b - 1], turns[b - 1];
      assert states[b] == Step(job, s, t.worker, t.action);
    }
  }

  /** A worker gets to fetch only by loading a flag that is not set. */
  lemma BecomesFetching(job: Job, s: State, t: Turn, v: nat)
    requires job.chunk > 0 && InJob(job, s) && Enabled(job, s, t.worker, t.action) && v < |s.workers|
    requires s.stop && (!s.workers[v].Fetching? || (t.worker == v && t.action.FetchAdd?))
    ensures !Step(job, s, t.worker, t.action).workers[v].Fetching?
  {
  }

  /** After the flag is set, a worker that has fetched an index is never about to fetch again. */
  lemma {:induction false} NoMoreFetching(job: Job, depth: nat, buffer: seq<Byte>, states: seq<State>,
                                          turns: seq<Turn>, a: nat, b: nat)
    requires ValidJob(job) && |buffer| == job.bytes && IsRun(job, depth, buffer, states, turns)
    requires a < b <= |turns| && states[a].stop && turns[a].action.FetchAdd?
    ensures turns[a].worker < |states[b].workers| && !states[b].workers[turns[a].worker].Fetching?
  {
    var w, s, t := turns[a].worker, states[b - 1], turns[b - 1];
    if a + 1 < b {
      NoMoreFetching(job, depth, buffer, states, turns, a, b - 1);
      StopStays(job, depth, buffer, states, turns, a, b - 1);
    }
    assert Enabled(job, s, t.worker, t.action) && states[b] == Step(job, s, t.worker, t.action);
    BecomesFetching(job, s, t, w);
  }

  /** Once the flag is set, no worker fetches more than one index. */
  lemma StopLimitsClaims(job: Job, depth: nat, buffer: seq<Byte>, states: seq<State>, turns: seq<Turn>,
                         raised: nat, a: nat, b: nat)
    requires ValidJob(job) && |buffer| == job.bytes && IsRun(job, depth, buffer, states, turns)
    requires raised <= a < |turns| && raised <= b < |turns| && states[raised].stop
    requires turns[a].action.FetchAdd? && turns[b].action.FetchAdd? && turns[a].worker == turns[b].worker
    ensures a == b
  {
    assert Enabled(job, states[a], turns[a].worker, turns[a].action);
    assert Enabled(job, states[b], turns[b].worker, turns[b].action);
    if a < b {
      StopStays(job, depth, buffer, states, turns, raised, a);
      NoMoreFetching(job, depth, buffer, states, turns, a, b);
    } else if b < a {
      StopStays(job, depth, buffer, states, turns, raised, b);
      NoMoreFetching(job, depth, buffer, states, turns, b, a);
    }
  }

  /** A failure is on record only while the flag is set or some worker is about to set it. */
  ghost predicate FailureIsKnown(s: State) {
    NoFailure(s) || s.stop || exists w: nat :: w < |s.workers| && s.workers[w].Stopping?
  }

  lemma StepKeepsFailureKnown(job: Job, s: State, w: nat, a: Action)
    requires job.chunk > 0 && InJob(job, s) && Enabled(job, s, w, a) && FailureIsKnown(s)
    ensures FailureIsKnown(Step(job, s, w, a))
  {
    var s' := Step(job, s, w, a);
    if NoFailure(s) {
      assert forall i: nat | i < |s.records| :: !Failed(s, i);
      if a.WriteRecord? && s.workers[w].sample.result != 0 {
        assert s'.workers[w].Stopping?;
      } else {
        forall i: nat | i < |s'.records|
          ensures !Failed(s', i)
        {
          assert !Failed(s, i);
        }
      }
    } else if !s.stop {
      var v: nat :| v < |s.workers| && s.workers[v].Stopping?;
      assert v != w ==> s'.workers[v].Stopping?;
    }
  }

  lemma {:induction false} FailureStaysKnown(job: Job, depth: nat, buffer: seq<Byte>, states: seq<State>,
                                             turns: seq<Turn>, k: nat)
    requires job.chunk > 0 && IsRun(job, depth, buffer, states, turns) && k <= |turns|
    ensures FailureIsKnown(states[k])
  {
    if k > 0 {
      FailureStaysKnown(job, depth, buffer, states, turns, k - 1);
      StepKeepsFailureKnown(job, states[k - 1], turns[k - 1].worker, turns[k - 1].action);
    }
  }

  /** When all workers have left and a request failed, the flag is set. */
  lemma FailureRaisesStop(job: Job, depth: nat, buffer: seq<Byte>, states: seq<State>, turns: seq<Turn>)
    requires job.chunk > 0 && IsRun(job, depth, buffer, states, turns) && AllExited(states[|turns|])
    requires !NoFailure(states[|turns|])
    ensures states[|turns|].stop
  {
    FailureStaysKnown(job, depth, buffer, states, turns, |turns|);
  }

  /** A worker that records a failure only sets the flag after that. */
  lemma {:induction false} FailedWorkerLeaves(job: Job, depth: nat, buffer: seq<Byte>, states: seq<State>,
                                              turns: seq<Turn>, a: nat, b: nat)
    requires ValidJob(job) && |buffer| == job.bytes && IsRun(job, depth, buffer, states, turns)
    requires a < b <= |turns| && turns[a].action.WriteRecord?
    requires turns[a].worker < |states[a].workers| && states[a].workers[turns[a].worker].Recording?
    requires states[a].workers[turns[a].worker].sample.result != 0
    ensures turns[a].worker < |states[b].workers|
    ensures states[b].workers[turns[a].worker].Stopping? || states[b].workers[turns[a].worker].Exited?
    ensures b < |turns| && turns[b].worker == turns[a].worker ==> turns[b].action.StoreStop?
  {
    var s, t := states[b - 1], turns[b - 1];
    assert Enabled(job, s, t.worker, t.action) && states[b] == Step(job, s, t.worker, t.action);
    if a + 1 < b {
      FailedWorkerLeaves(job, depth, buffer, states, turns, a, b - 1);
    }
    if b < |turns| {
      assert Enabled(job, states[b], turns[b].worker, turns[b].action);
    }
  }

  /** The worker that fetched index `i` stays the owner of request `i`. */
  lemma {:induction false} FetchClaims(job: Job, depth: nat, buffer: seq<Byte>, states: seq<State>, turns: seq<Turn>,
                                       a: nat, b: nat)
    requires ValidJob(job) && |buffer| == job.bytes && IsRun(job, depth, buffer, states, turns)
    requires a < b <= |turns| && turns[a].action.FetchAdd? && states[a].next < RequestCount(job)
    ensures states[a].next < |states[b].owner| && states[b].owner[states[a].next] == turns[a].worker
  {
    RunInv(job, depth, buffer, states, turns, b - 1);
    var s, t := states[b - 1], turns[b - 1];
    assert Enabled(job, s, t.worker, t.action) && states[b] == Step(job, s, t.worker, t.action);
    if a + 1 < b {
      FetchClaims(job, depth, buffer, states, turns, a, b - 1);
    }
  }
}
