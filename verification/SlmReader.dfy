/** The concurrent chunked reader `read_slm_in_chunks`.

    Workers share an atomic request index, a stop flag, the record vector and the
    output buffer. Every load, fetch-and-add, device read, record write and stop store
    is a step of its own, and the steps of the workers interleave in any order. A read
    that fails may leave anything in its own part of the buffer.
 */
module SlmReader {
  import opened Numbers

  /** A read of `bytes` bytes at `offset` of the device memory. */
  datatype Job = Job(memory: seq<Byte>, offset: nat, bytes: nat, chunk: nat)

  ghost predicate ValidJob(job: Job) {
    job.chunk > 0 && job.offset + job.bytes <= |job.memory|
  }

  function RequestCount(job: Job): nat
    requires job.chunk > 0
  {
    (job.bytes + job.chunk - 1) / job.chunk
  }

  /** `std::min<uint32_t>(queue_depth, static_cast<uint32_t>(request_count))` */
  function ActiveQueueDepth(queueDepth: nat, requestCount: nat): nat {
    var truncated := requestCount % 0x1_0000_0000;
    if queueDepth < truncated then queueDepth else truncated
  }

  // ---------------------------------------------------------------- regions

  function Start(job: Job, i: nat): nat {
    job.chunk * i
  }

  /** End of `std::min(chunk_bytes, bytes - request_done)` bytes. */
  function End(job: Job, i: nat): nat {
    if job.chunk * i + job.chunk <= job.bytes then job.chunk * i + job.chunk else job.bytes
  }

  lemma CountBounds(job: Job)
    requires job.chunk > 0
    ensures job.chunk * RequestCount(job) >= job.bytes
    ensures job.chunk * RequestCount(job) < job.bytes + job.chunk
  {
    var n := job.bytes + job.chunk - 1;
    assert n == job.chunk * (n / job.chunk) + n % job.chunk;
  }

  lemma RegionInBounds(job: Job, i: nat)
    requires job.chunk > 0 && i < RequestCount(job)
    ensures Start(job, i) < End(job, i) <= job.bytes
  {
    CountBounds(job);
    if i + 1 < RequestCount(job) {
      MulGap(job.chunk, i, RequestCount(job));
      MulGap(job.chunk, i, RequestCount(job) - 1);
    }
  }

  /** The requests write to disjoint parts of the buffer. */
  lemma RegionsAreDisjoint(job: Job, i: nat, j: nat)
    requires job.chunk > 0 && i < j
    ensures End(job, i) <= Start(job, j)
  {
    MulGap(job.chunk, i, j);
  }

  lemma RegionsCover(job: Job, x: nat) returns (i: nat)
    requires job.chunk > 0 && x < job.bytes
    ensures i < RequestCount(job) && Start(job, i) <= x < End(job, i)
  {
    i := x / job.chunk;
    CountBounds(job);
    assert x == job.chunk * i + x % job.chunk;
    if i > RequestCount(job) {
      MulGap(job.chunk, RequestCount(job), i);
    }
  }

  // ---------------------------------------------------------------- the workers

  const EINTR: int := 4
  const MAX_RETRIES: nat := 16

  datatype Sample = Sample(result: int, errorNumber: int)

  datatype Worker =
    | Top                                       // about to load the stop flag
    | Fetching                                  // about to fetch a request index
    | Reading(i: nat, retries: nat)             // about to read its request
    | Recording(i: nat, sample: Sample)         // about to write its record
    | Stopping                                  // about to set the stop flag
    | Exited

  /** The shared state and the workers, with three records of the past: which worker
      claimed each request, which requests were read, and who overshot. */
  datatype State = State(
    next: nat,
    stop: bool,
    workers: seq<Worker>,
    records: seq<Option<Sample>>,
    buffer: seq<Byte>,
    owner: seq<nat>,
    fetched: seq<nat>,
    overshot: set<nat>,
    culprit: Option<nat>)

  datatype Action =
    | LoadStop
    | FetchAdd
    | ReadSucceeds
    | ReadFails(sample: Sample, garbage: seq<Byte>)
    | WriteRecord
    | StoreStop

  function Initial(job: Job, depth: nat, buffer: seq<Byte>): State
    requires job.chunk > 0
  {
    State(0, false, seq(depth, _ => Top), seq(RequestCount(job), _ => None), buffer, [], [], {}, None)
  }

  ghost predicate Enabled(job: Job, s: State, w: nat, a: Action)
    requires job.chunk > 0
  {
    && w < |s.workers|
    && match a
       case LoadStop => s.workers[w].Top?
       case FetchAdd => s.workers[w].Fetching?
       case ReadSucceeds => s.workers[w].Reading?
       case ReadFails(sample, garbage) =>
         && s.workers[w].Reading? && sample.result != 0
         && |garbage| == End(job, s.workers[w].i) - Start(job, s.workers[w].i)
       case WriteRecord => s.workers[w].Recording? && s.workers[w].i < |s.records|
       case StoreStop => s.workers[w].Stopping?
  }

  function Splice(buffer: seq<Byte>, a: nat, data: seq<Byte>): (r: seq<Byte>)
    requires a + |data| <= |buffer|
    ensures |r| == |buffer|
  {
    buffer[..a] + data + buffer[a + |data|..]
  }

  function SetWorker(s: State, w: nat, worker: Worker): State
    requires w < |s.workers|
  {
    s.(workers := s.workers[w := worker])
  }

  /** A held request lies inside the job. */
  ghost predicate InJob(job: Job, s: State)
    requires job.chunk > 0
  {
    && ValidJob(job) && |s.buffer| == job.bytes && |s.records| == RequestCount(job)
    && forall w | 0 <= w < |s.workers| :: Holds(s.workers[w]) ==> s.workers[w].i < RequestCount(job)
  }

  predicate Holds(worker: Worker) {
    worker.Reading? || worker.Recording?
  }

  ghost function Step(job: Job, s: State, w: nat, a: Action): State
    requires job.chunk > 0 && InJob(job, s) && Enabled(job, s, w, a)
  {
    match a
    case LoadStop => SetWorker(s, w, if s.stop then Exited else Fetching)
    case FetchAdd =>
      if s.next >= RequestCount(job)
      then SetWorker(s.(next := s.next + 1, overshot := s.overshot + {w}), w, Exited)
      else SetWorker(s.(next := s.next + 1, owner := s.owner + [w]), w, Reading(s.next, 0))
    case ReadSucceeds =>
      var i := s.workers[w].i;
      RegionInBounds(job, i);
      SetWorker(s.(buffer := Splice(s.buffer, Start(job, i), DeviceBytes(job, i)), fetched := s.fetched + [i]),
                w, Recording(i, Sample(0, 0)))
    case ReadFails(sample, garbage) =>
      var Reading(i, retries) := s.workers[w];
      RegionInBounds(job, i);
      SetWorker(s.(buffer := Splice(s.buffer, Start(job, i), garbage)), w,
                if sample.errorNumber != EINTR || retries >= MAX_RETRIES
                then Recording(i, sample) else Reading(i, retries + 1))
    case WriteRecord =>
      var Recording(i, sample) := s.workers[w];
      if sample.result != 0
      then SetWorker(s.(records := s.records[i := Some(sample)], culprit := Some(i)), w, Stopping)
      else SetWorker(s.(records := s.records[i := Some(sample)]), w, Top)
    case StoreStop => SetWorker(s.(stop := true), w, Exited)
  }

  function DeviceBytes(job: Job, i: nat): (data: seq<Byte>)
    requires ValidJob(job) && i < RequestCount(job)
    ensures |data| == End(job, i) - Start(job, i)
  {
    RegionInBounds(job, i);
    job.memory[job.offset + Start(job, i)..job.offset + End(job, i)]
  }

  // ---------------------------------------------------------------- invariant

  /** The part of the buffer that belongs to request `i` holds the device's bytes. */
  ghost predicate RegionRead(job: Job, buffer: seq<Byte>, i: nat)
    requires ValidJob(job) && |buffer| == job.bytes && i < RequestCount(job)
  {
    RegionInBounds(job, i);
    buffer[Start(job, i)..End(job, i)] == DeviceBytes(job, i)
  }

  predicate Failed(s: State, i: nat) {
    i < |s.records| && s.records[i].Some? && s.records[i].value.result != 0
  }

  predicate NoFailure(s: State) {
    forall i | 0 <= i < |s.records| :: !Failed(s, i)
  }

  /** Worker `w` is the one that claimed request `i`, which has no record yet. */
  predicate Claimed(s: State, w: nat, i: nat) {
    i < |s.owner| && i < |s.records| && s.owner[i] == w && s.records[i].None?
  }

  ghost predicate WorkerOk(job: Job, s: State, w: nat)
    requires job.chunk > 0 && InJob(job, s) && w < |s.workers|
  {
    match s.workers[w]
    case Reading(i, _) => Claimed(s, w, i) && i !in s.fetched
    case Recording(i, sample) =>
      && Claimed(s, w, i)
      && (sample.result == 0 ==> RegionRead(job, s.buffer, i) && i in s.fetched)
    case Stopping => s.culprit.Some?
    case Exited => s.stop || s.next >= |s.records|
    case _ => true
  }

  ghost predicate RequestOk(job: Job, s: State, i: nat)
    requires job.chunk > 0 && InJob(job, s) && i < RequestCount(job)
  {
    match s.records[i]
    case None => i < |s.owner| ==>
      s.owner[i] < |s.workers| && Holds(s.workers[s.owner[i]]) && s.workers[s.owner[i]].i == i
    case Some(sample) =>
      && i < |s.owner|
      && (sample.result == 0 ==> RegionRead(job, s.buffer, i) && i in s.fetched)
  }

  ghost predicate HistoryOk(s: State) {
    && |s.owner| == (if s.next < |s.records| then s.next else |s.records|)
    && (forall i: nat | i in s.fetched :: i < |s.owner|)
    && (forall a: nat, b: nat | a < b < |s.fetched| :: s.fetched[a] != s.fetched[b])
    && (forall w: nat | w in s.overshot :: w < |s.workers| && s.workers[w].Exited?)
    && |s.overshot| == s.next - |s.owner|
    && (s.stop ==> s.culprit.Some?)
    && (s.culprit.Some? ==> Failed(s, s.culprit.value))
  }

  /** Every claimed request is held by the one worker that claimed it or has a record;
      regions of successful reads are filled; the flag is set only after a failure; a
      worker leaves only when the flag is set or all requests are claimed. */
  ghost predicate Inv(job: Job, s: State) {
    && job.chunk > 0 && InJob(job, s) && HistoryOk(s)
    && (forall w: nat | w < |s.workers| :: WorkerOk(job, s, w))
    && (forall i: nat | i < RequestCount(job) :: RequestOk(job, s, i))
  }

  // ---------------------------------------------------------------- steps keep the invariant

  lemma InitialInv(job: Job, depth: nat, buffer: seq<Byte>)
    requires ValidJob(job) && |buffer| == job.bytes
    ensures Inv(job, Initial(job, depth, buffer))
  {
  }

  /** A splice into one region leaves the others alone. */
  lemma SpliceElsewhere(job: Job, buffer: seq<Byte>, i: nat, data: seq<Byte>, j: nat)
    requires ValidJob(job) && |buffer| == job.bytes
    requires i < RequestCount(job) && j < RequestCount(job) && i != j
    requires |data| == End(job, i) - Start(job, i)
    ensures Start(job, i) + |data| <= |buffer|
    ensures RegionRead(job, Splice(buffer, Start(job, i), data), j) <==> RegionRead(job, buffer, j)
  {
    RegionInBounds(job, i);
    RegionInBounds(job, j);
    if i < j {
      RegionsAreDisjoint(job, i, j);
    } else {
      RegionsAreDisjoint(job, j, i);
    }
    var spliced := Splice(buffer, Start(job, i), data);
    assert spliced[Start(job, j)..End(job, j)] == buffer[Start(job, j)..End(job, j)];
  }

  lemma SpliceHere(job: Job, buffer: seq<Byte>, i: nat)
    requires ValidJob(job) && |buffer| == job.bytes && i < RequestCount(job)
    ensures Start(job, i) + |DeviceBytes(job, i)| <= |buffer|
    ensures RegionRead(job, Splice(buffer, Start(job, i), DeviceBytes(job, i)), i)
  {
    RegionInBounds(job, i);
    var spliced := Splice(buffer, Start(job, i), DeviceBytes(job, i));
    assert spliced[Start(job, i)..End(job, i)] == DeviceBytes(job, i);
  }

  /** Steps that touch neither buffer nor records, by a worker that holds nothing. */
  lemma MoveInv(job: Job, s: State, w: nat, a: Action)
    requires Inv(job, s) && Enabled(job, s, w, a)
    requires a.LoadStop? || a.StoreStop? || (a.FetchAdd? && s.next >= RequestCount(job))
    ensures Inv(job, Step(job, s, w, a))
  {
    var s' := Step(job, s, w, a);
    assert WorkerOk(job, s, w);
    forall v: nat | v < |s'.workers|
      ensures WorkerOk(job, s', v)
    {
      assert WorkerOk(job, s, v);
    }
    forall i: nat | i < RequestCount(job)
      ensures RequestOk(job, s', i)
    {
      assert RequestOk(job, s, i);
    }
    assert w !in s.overshot;
  }

  lemma ClaimInv(job: Job, s: State, w: nat)
    requires Inv(job, s) && Enabled(job, s, w, FetchAdd) && s.next < RequestCount(job)
    ensures Inv(job, Step(job, s, w, FetchAdd))
  {
    var s' := Step(job, s, w, FetchAdd);
    assert RequestOk(job, s, s.next);
    forall v: nat | v < |s'.workers|
      ensures WorkerOk(job, s', v)
    {
      assert WorkerOk(job, s, v);
    }
    forall i: nat | i < RequestCount(job)
      ensures RequestOk(job, s', i)
    {
      assert RequestOk(job, s, i);
    }
  }

  lemma HeldRequests(job: Job, s: State, v: nat, w: nat)
    requires Inv(job, s) && v < |s.workers| && w < |s.workers| && v != w
    requires Holds(s.workers[v]) && Holds(s.workers[w])
    ensures s.workers[v].i != s.workers[w].i
  {
    assert WorkerOk(job, s, v) && WorkerOk(job, s, w);
  }

  predicate IsRead(a: Action) {
    a.ReadSucceeds? || a.ReadFails?
  }

  /** Both outcomes of a device read, seen by worker `v`. */
  lemma ReadKeepsWorker(job: Job, s: State, w: nat, a: Action, v: nat)
    requires Inv(job, s) && Enabled(job, s, w, a) && IsRead(a) && v < |s.workers|
    ensures InJob(job, Step(job, s, w, a)) && WorkerOk(job, Step(job, s, w, a), v)
  {
    var i := s.workers[w].i;
    assert WorkerOk(job, s, w) && WorkerOk(job, s, v);
    RegionInBounds(job, i);
    if v == w {
      SpliceHere(job, s.buffer, i);
    } else if Holds(s.workers[v]) {
      HeldRequests(job, s, v, w);
      SpliceElsewhere(job, s.buffer, i, if a.ReadSucceeds? then DeviceBytes(job, i) else a.garbage, s.workers[v].i);
    }
  }

  lemma ReadKeepsRequest(job: Job, s: State, w: nat, a: Action, j: nat)
    requires Inv(job, s) && Enabled(job, s, w, a) && IsRead(a) && j < RequestCount(job)
    ensures InJob(job, Step(job, s, w, a)) && RequestOk(job, Step(job, s, w, a), j)
  {
    var i := s.workers[w].i;
    assert WorkerOk(job, s, w) && RequestOk(job, s, j);
    RegionInBounds(job, i);
    if j != i {
      SpliceElsewhere(job, s.buffer, i, if a.ReadSucceeds? then DeviceBytes(job, i) else a.garbage, j);
    }
  }

  lemma ReadInv(job: Job, s: State, w: nat, a: Action)
    requires Inv(job, s) && Enabled(job, s, w, a) && IsRead(a)
    ensures Inv(job, Step(job, s, w, a))
  {
    var s' := Step(job, s, w, a);
    assert WorkerOk(job, s, w);
    forall v: nat | v < |s'.workers|
      ensures InJob(job, s') && WorkerOk(job, s', v)
    {
      ReadKeepsWorker(job, s, w, a, v);
    }
    forall j: nat | j < RequestCount(job)
      ensures RequestOk(job, s', j)
    {
      ReadKeepsRequest(job, s, w, a, j);
    }
  }

  lemma RecordKeepsWorker(job: Job, s: State, w: nat, v: nat)
    requires Inv(job, s) && Enabled(job, s, w, WriteRecord) && v < |s.workers|
    ensures InJob(job, Step(job, s, w, WriteRecord)) && WorkerOk(job, Step(job, s, w, WriteRecord), v)
  {
    assert WorkerOk(job, s, w) && WorkerOk(job, s, v);
    if v != w && Holds(s.workers[v]) {
      HeldRequests(job, s, v, w);
    }
  }

  lemma RecordKeepsRequest(job: Job, s: State, w: nat, j: nat)
    requires Inv(job, s) && Enabled(job, s, w, WriteRecord) && j < RequestCount(job)
    ensures InJob(job, Step(job, s, w, WriteRecord)) && RequestOk(job, Step(job, s, w, WriteRecord), j)
  {
    assert WorkerOk(job, s, w) && RequestOk(job, s, j);
  }

  lemma RecordInv(job: Job, s: State, w: nat)
    requires Inv(job, s) && Enabled(job, s, w, WriteRecord)
    ensures Inv(job, Step(job, s, w, WriteRecord))
  {
    var s' := Step(job, s, w, WriteRecord);
    assert WorkerOk(job, s, w);
    forall v: nat | v < |s'.workers|
      ensures InJob(job, s') && WorkerOk(job, s', v)
    {
      RecordKeepsWorker(job, s, w, v);
    }
    forall j: nat | j < RequestCount(job)
      ensures RequestOk(job, s', j)
    {
      RecordKeepsRequest(job, s, w, j);
    }
  }

  lemma StepInv(job: Job, s: State, w: nat, a: Action)
    requires Inv(job, s) && Enabled(job, s, w, a)
    ensures Inv(job, Step(job, s, w, a))
  {
    match a
    case LoadStop => MoveInv(job, s, w, a);
    case FetchAdd =>
      if s.next >= RequestCount(job) {
        MoveInv(job, s, w, a);
      } else {
        ClaimInv(job, s, w);
      }
    case ReadSucceeds => ReadInv(job, s, w, a);
    case ReadFails(_, _) => ReadInv(job, s, w, a);
    case WriteRecord => RecordInv(job, s, w);
    case StoreStop => MoveInv(job, s, w, a);
  }

  // ---------------------------------------------------------------- runs

  datatype Turn = Turn(worker: nat, action: Action)

  /** Any interleaving of the workers' steps. */
  ghost predicate IsRun(job: Job, depth: nat, buffer: seq<Byte>, states: seq<State>, turns: seq<Turn>)
    requires job.chunk > 0
  {
    && |states| == |turns| + 1
    && states[0] == Initial(job, depth, buffer)
    && forall k: nat | k < |turns| ::
         && InJob(job, states[k])
         && Enabled(job, states[k], turns[k].worker, turns[k].action)
         && states[k + 1] == Step(job, states[k], turns[k].worker, turns[k].action)
  }

  lemma {:induction false} RunInv(job: Job, depth: nat, buffer: seq<Byte>, states: seq<State>, turns: seq<Turn>, k: nat)
    requires ValidJob(job) && |buffer| == job.bytes
    requires IsRun(job, depth, buffer, states, turns) && k <= |turns|
    ensures Inv(job, states[k]) && |states[k].workers| == depth
  {
    if k == 0 {
      InitialInv(job, depth, buffer);
    } else {
      RunInv(job, depth, buffer, states, turns, k - 1);
      StepInv(job, states[k - 1], turns[k - 1].worker, turns[k - 1].action);
    }
  }

  /** The shared index never decreases, and every fetch moves it on. */
  lemma {:induction false} IndexGrows(job: Job, depth: nat, buffer: seq<Byte>, states: seq<State>, turns: seq<Turn>,
                                      a: nat, b: nat)
    requires job.chunk > 0 && IsRun(job, depth, buffer, states, turns) && a <= b <= |turns|
    ensures states[a].next <= states[b].next
    ensures a < b && turns[a].action == FetchAdd ==> states[a].next < states[b].next
  {
    if a < b {
      IndexGrows(job, depth, buffer, states, turns, a, b - 1);
      var s, t := states[b - 1], turns[b - 1];
      assert Enabled(job, s, t.worker, t.action) && states[b] == Step(job, s, t.worker, t.action);
    }
  }

  /** No request index is claimed twice: over a whole run, two fetches by whichever workers
      get different indices. */
  lemma FetchesDiffer(job: Job, depth: nat, buffer: seq<Byte>, states: seq<State>, turns: seq<Turn>, a: nat, b: nat)
    requires job.chunk > 0 && IsRun(job, depth, buffer, states, turns) && a < b < |turns|
    requires turns[a].action == FetchAdd && turns[b].action == FetchAdd
    ensures states[a].next != states[b].next
  {
    IndexGrows(job, depth, buffer, states, turns, a, b);
  }

  lemma {:induction false} SmallSet(s: set<nat>, n: nat)
    requires forall x | x in s :: x < n
    ensures |s| <= n
  {
    if n > 0 {
      SmallSet(s - {n - 1}, n - 1);
    } else {
      assert s == {};
    }
  }

  /** The shared index overshoots the request count by at most the number of workers. */
  lemma IndexIsBounded(job: Job, s: State)
    requires Inv(job, s)
    ensures s.next <= RequestCount(job) + |s.workers|
  {
    SmallSet(s.overshot, |s.workers|);
  }

  /** No request is ever held by two workers. */
  lemma ClaimedOnce(job: Job, s: State, v: nat, w: nat)
    requires Inv(job, s) && v < |s.workers| && w < |s.workers|
    requires Holds(s.workers[v]) && Holds(s.workers[w]) && s.workers[v].i == s.workers[w].i
    ensures v == w
  {
    if v != w {
      HeldRequests(job, s, v, w);
    }
  }

  // ---------------------------------------------------------------- the result

  ghost predicate AllExited(s: State) {
    forall w: nat | w < |s.workers| :: s.workers[w].Exited?
  }

  /** The scan over the records after the workers were joined. */
  method ScanRecords(records: seq<Option<Sample>>) returns (result: int, index: nat)
    ensures result == 0 ==> forall i | 0 <= i < |records| :: records[i].Some? ==> records[i].value.result == 0
    ensures result != 0 ==>
      && index < |records| && records[index].Some? && records[index].value.result == result
      && forall i | 0 <= i < index :: records[i].Some? ==> records[i].value.result == 0
  {
    for i := 0 to |records|
      invariant forall j | 0 <= j < i :: records[j].Some? ==> records[j].value.result == 0
    {
      if records[i].Some? && records[i].value.result != 0 {
        return records[i].value.result, i;
      }
    }
    return 0, 0;
  }

  lemma NoFailureMeansAllRead(job: Job, s: State, i: nat)
    requires Inv(job, s) && AllExited(s) && |s.workers| > 0
    requires NoFailure(s)
    requires i < RequestCount(job)
    ensures s.records[i].Some? && RegionRead(job, s.buffer, i) && i in s.fetched
  {
    assert WorkerOk(job, s, 0) && RequestOk(job, s, i) && !Failed(s, i);
  }

  /** If no request failed and at least one worker ran, every byte was read, exactly once,
      into its place. */
  lemma ResultZeroMeansComplete(job: Job, s: State)
    requires Inv(job, s) && AllExited(s) && |s.workers| > 0
    requires NoFailure(s)
    ensures s.buffer == job.memory[job.offset..job.offset + job.bytes]
    ensures forall i: nat | i < RequestCount(job) :: i in s.fetched
    ensures forall a: nat, b: nat | a < b < |s.fetched| :: s.fetched[a] != s.fetched[b]
  {
    forall x: nat | x < job.bytes
      ensures s.buffer[x] == job.memory[job.offset + x]
    {
      var i := RegionsCover(job, x);
      NoFailureMeansAllRead(job, s, i);
      RegionInBounds(job, i);
      var y := x - Start(job, i);
      assert s.buffer[Start(job, i)..End(job, i)][y] == DeviceBytes(job, i)[y];
    }
    forall i: nat | i < RequestCount(job)
      ensures i in s.fetched
    {
      NoFailureMeansAllRead(job, s, i);
    }
  }

  /** With no worker at all the scan finds no failure, so result 0 says something about
      the buffer exactly if a worker runs or nothing is to be read. A queue depth of zero,
      and a request count that is a multiple of 2^32, give no worker. */
  lemma WorkersRun(job: Job, queueDepth: nat)
    requires job.chunk > 0
    ensures var depth, count := ActiveQueueDepth(queueDepth, RequestCount(job)), RequestCount(job) % 0x1_0000_0000;
            && depth <= queueDepth && depth <= count && (depth == queueDepth || depth == count)
            && (depth > 0 <==> queueDepth > 0 && count != 0)
    ensures RequestCount(job) == 0 <==> job.bytes == 0
  {
    CountBounds(job);
    if RequestCount(job) > 0 {
      assert job.chunk * RequestCount(job) >= job.chunk by {
        MulGap(job.chunk, 0, RequestCount(job));
      }
    }
  }

  /** Any complete run of the workers that `read_slm_in_chunks` starts: when the scan finds
      no failure the output is the requested part of the memory, and every request was read
      once. This needs a worker, or nothing to read. */
  lemma CompleteRunReadsEverything(job: Job, queueDepth: nat, buffer: seq<Byte>, states: seq<State>, turns: seq<Turn>)
    requires ValidJob(job) && |buffer| == job.bytes
    requires IsRun(job, ActiveQueueDepth(queueDepth, RequestCount(job)), buffer, states, turns)
    requires AllExited(states[|turns|]) && NoFailure(states[|turns|])
    requires job.bytes == 0 || (queueDepth > 0 && RequestCount(job) % 0x1_0000_0000 != 0)
    ensures states[|turns|].buffer == job.memory[job.offset..job.offset + job.bytes]
    ensures forall i: nat | i < RequestCount(job) :: i in states[|turns|].fetched
    ensures forall a: nat, b: nat | a < b < |states[|turns|].fetched| ::
              states[|turns|].fetched[a] != states[|turns|].fetched[b]
  {
    RunInv(job, ActiveQueueDepth(queueDepth, RequestCount(job)), buffer, states, turns, |turns|);
    WorkersRun(job, queueDepth);
    if job.bytes > 0 {
      ResultZeroMeansComplete(job, states[|turns|]);
    }
  }

  /** In the other cases result 0 says nothing: no worker starts, the only run is empty, the
      scan finds no failure, and the output keeps whatever it held. */
  lemma NoWorkerReadsNothing(job: Job, queueDepth: nat, buffer: seq<Byte>, states: seq<State>, turns: seq<Turn>)
    requires ValidJob(job) && |buffer| == job.bytes
    requires IsRun(job, ActiveQueueDepth(queueDepth, RequestCount(job)), buffer, states, turns)
    requires queueDepth == 0 || RequestCount(job) % 0x1_0000_0000 == 0
    ensures turns == [] && AllExited(states[0]) && NoFailure(states[0])
    ensures states[0].buffer == buffer
  {
    WorkersRun(job, queueDepth);
    assert forall k: nat | k < |turns| :: Enabled(job, states[k], turns[k].worker, turns[k].action);
    assert states[0].workers == [];
    if |turns| > 0 {
      assert false;
    }
  }

  method ScanState(s: State) returns (result: int, index: nat)
    ensures result == 0 <==> NoFailure(s)
    ensures result != 0 ==>
              && Failed(s, index) && s.records[index].value.result == result
              && forall i: nat | i < index :: !Failed(s, i)
  {
    result, index := ScanRecords(s.records);
    if result != 0 {
      assert Failed(s, index);
    }
  }

  /** The end of `read_slm_in_chunks` after any complete run of its workers. Result 0 means
      that the output is the requested memory, if a worker ran or nothing was asked for; any
      other result is that of the failed request with the lowest index. */
  method ConcludeRead(job: Job, queueDepth: nat, last: State, ghost buffer: seq<Byte>, ghost states: seq<State>,
                      ghost turns: seq<Turn>) returns (result: int, index: nat)
    requires ValidJob(job) && |buffer| == job.bytes
    requires IsRun(job, ActiveQueueDepth(queueDepth, RequestCount(job)), buffer, states, turns)
    requires last == states[|turns|] && AllExited(last)
    ensures result == 0 <==> NoFailure(last)
    ensures result == 0 && (job.bytes == 0 || (queueDepth > 0 && RequestCount(job) % 0x1_0000_0000 != 0)) ==>
              last.buffer == job.memory[job.offset..job.offset + job.bytes]
    ensures result != 0 ==>
              && Failed(last, index) && last.records[index].value.result == result
              && forall i: nat | i < index :: !Failed(last, i)
  {
    result, index := ScanState(last);
    if result == 0 && (job.bytes == 0 || (queueDepth > 0 && RequestCount(job) % 0x1_0000_0000 != 0)) {
      CompleteRunReadsEverything(job, queueDepth, buffer, states, turns);
    }
  }
}
