/** The tag-edit protocol of tag_ipc.py and worker_loop as interleaved steps: any number of
    request handlers, one FIFO queue that also carries the catalogue's own work, one writer
    thread, a clock that only moves forward, and a bounded semaphore. */
module TagProtocol {

  datatype Status = Pending | Done | NotFound | Expired | Failed

  /** A handler, from its semaphore attempt to its end. */
  datatype Phase =
    | Refused                                   // no permit: 503 at once
    | Acquired                                  // permit held, no item yet
    | Stamped                                   // item built with its deadline
    | Put                                       // item queued, not waiting yet
    | Waiting(giveUp: int)
    | Replied(code: nat, timedOut: bool)        // answered, permit still held
    | Released(code: nat, timedOut: bool)

  /** One edit: its handler, and the item the handler shares with the worker. `applied` counts
      committed writes and `signals` the times its event was set. */
  datatype Edit = Edit(phase: Phase, deadline: int, status: Status, signals: nat, applied: nat)

  datatype Job = TagEdit(id: nat) | Other | Stop

  /** Where the writer thread is; `Busy` is any catalogue event. */
  datatype Worker =
    | Idle
    | Busy
    | Stopped
    | Got(id: nat)
    | Passed(id: nat)
    | Found(id: nat)
    | Written(id: nat)
    | Settled(id: nat)

  /** `sent` and `finished` record the edits queued and the edits signalled so far, in order. */
  datatype State = State(now: int, permits: nat, queue: seq<Job>, worker: Worker, edits: map<nat, Edit>,
                         sent: seq<nat>, finished: seq<nat>)

  /** TagEditServer's settings; the margin is positive. */
  datatype Config = Config(deadlineSeconds: int, margin: int, maxPending: nat)

  function WaitTimeout(cfg: Config): int {
    (if cfg.deadlineSeconds > 0 then cfg.deadlineSeconds else 0) + cfg.margin
  }

  function CodeOf(status: Status): nat {
    match status
    case Done => 200
    case NotFound => 404
    case Expired => 503
    case _ => 500
  }

  datatype LookupResult = Hit | Miss | Raises

  datatype Action =
    | Tick(dt: nat)
    | Request(id: nat)
    | TakeDeadline(id: nat)
    | Enqueue(id: nat)
    | EnqueueOther(job: Job)
    | Wait(id: nat)
    | Wake(id: nat)
    | GiveUp(id: nat)
    | Release(id: nat)
    | Get
    | FinishOther
    | Check
    | Lookup(result: LookupResult)
    | Apply(raises: bool)
    | ReadBack(raises: bool)
    | Signal

  predicate InPhase(s: State, id: nat, p: Phase) {
    id in s.edits && s.edits[id].phase == p
  }

  predicate Enabled(s: State, a: Action) {
    match a
    case Tick(_) => true
    case Request(id) => id !in s.edits
    case TakeDeadline(id) => InPhase(s, id, Acquired)
    case Enqueue(id) => InPhase(s, id, Stamped)
    case EnqueueOther(job) => !job.TagEdit?
    case Wait(id) => InPhase(s, id, Put)
    case Wake(id) => id in s.edits && s.edits[id].phase.Waiting? && s.edits[id].signals > 0
    case GiveUp(id) => id in s.edits && s.edits[id].phase.Waiting? && s.now >= s.edits[id].phase.giveUp
    case Release(id) => id in s.edits && s.edits[id].phase.Replied?
    case Get => s.worker.Idle? && s.queue != []
    case FinishOther => s.worker.Busy?
    case Check => s.worker.Got? && s.worker.id in s.edits
    case Lookup(_) => s.worker.Passed? && s.worker.id in s.edits
    case Apply(_) => s.worker.Found? && s.worker.id in s.edits
    case ReadBack(_) => s.worker.Written? && s.worker.id in s.edits
    case Signal => s.worker.Settled? && s.worker.id in s.edits
  }

  function SetPhase(s: State, id: nat, p: Phase): State
    requires id in s.edits
  {
    s.(edits := s.edits[id := s.edits[id].(phase := p)])
  }

  /** The worker leaves a status, or moves on without one. */
  function Settle(s: State, id: nat, status: Status): State
    requires id in s.edits
  {
    s.(worker := Settled(id), edits := s.edits[id := s.edits[id].(status := status)])
  }

  function Step(cfg: Config, s: State, a: Action): State
    requires Enabled(s, a)
  {
    match a
    case Tick(dt) => s.(now := s.now + dt)
    case Request(id) =>
      if s.permits == 0 then s.(edits := s.edits[id := Edit(Refused, 0, Pending, 0, 0)])
      else s.(permits := s.permits - 1, edits := s.edits[id := Edit(Acquired, 0, Pending, 0, 0)])
    case TakeDeadline(id) =>
      s.(edits := s.edits[id := s.edits[id].(phase := Stamped, deadline := s.now + cfg.deadlineSeconds)])
    case Enqueue(id) => SetPhase(s, id, Put).(queue := s.queue + [TagEdit(id)], sent := s.sent + [id])
    case EnqueueOther(job) => s.(queue := s.queue + [job])
    case Wait(id) => SetPhase(s, id, Waiting(s.now + WaitTimeout(cfg)))
    case Wake(id) => SetPhase(s, id, Replied(CodeOf(s.edits[id].status), false))
    case GiveUp(id) => SetPhase(s, id, Replied(503, true))
    case Release(id) =>
      SetPhase(s, id, Released(s.edits[id].phase.code, s.edits[id].phase.timedOut)).(permits := s.permits + 1)
    case Get =>
      s.(queue := s.queue[1..], worker := match s.queue[0]
                                          case TagEdit(id) => Got(id)
                                          case Other => Busy
                                          case Stop => Stopped)
    case FinishOther => s.(worker := Idle)
    case Check =>
      if s.now > s.edits[s.worker.id].deadline then Settle(s, s.worker.id, Expired)
      else s.(worker := Passed(s.worker.id))
    case Lookup(result) =>
      if result.Hit? then s.(worker := Found(s.worker.id))
      else Settle(s, s.worker.id, if result.Miss? then NotFound else Failed)
    case Apply(raises) =>
      var e := s.edits[s.worker.id];
      if raises then Settle(s, s.worker.id, Failed)
      else s.(worker := Written(s.worker.id), edits := s.edits[s.worker.id := e.(applied := e.applied + 1)])
    case ReadBack(raises) => Settle(s, s.worker.id, if raises then Failed else Done)
    case Signal =>
      var e := s.edits[s.worker.id];
      s.(worker := Idle, finished := s.finished + [s.worker.id],
         edits := s.edits[s.worker.id := e.(signals := e.signals + 1)])
  }

  ghost predicate Init(cfg: Config, s: State) {
    s.permits == cfg.maxPending && s.queue == [] && s.worker == Idle && s.edits == map[] && s.sent == []
    && s.finished == []
  }

  ghost predicate IsRun(cfg: Config, trace: seq<State>, acts: seq<Action>) {
    |trace| == |acts| + 1
    && forall i :: 0 <= i < |acts| ==> Enabled(trace[i], acts[i]) && trace[i + 1] == Step(cfg, trace[i], acts[i])
  }

  // ---- the invariant ----

  function EditsOf(queue: seq<Job>): seq<nat> {
    if queue == [] then []
    else (if queue[0].TagEdit? then [queue[0].id] else []) + EditsOf(queue[1..])
  }

  function AtWorker(w: Worker): seq<nat> {
    if w.Idle? || w.Busy? || w.Stopped? then [] else [w.id]
  }

  predicate Sent(p: Phase) {
    p.Put? || p.Waiting? || p.Replied? || p.Released?
  }

  predicate Holding(p: Phase) {
    !p.Refused? && !p.Released?
  }

  predicate Untouched(e: Edit) {
    e.status == Pending && e.signals == 0 && e.applied == 0
  }

  /** What a status says about the write. */
  predicate StatusTrue(e: Edit) {
    && e.status != Pending && e.applied <= 1
    && (e.status == Done ==> e.applied == 1)
    && (e.status == NotFound || e.status == Expired ==> e.applied == 0)
  }

  predicate WorkerFacts(w: Worker, e: Edit) {
    && e.signals == 0
    && (w.Got? ==> Untouched(e))
    && (w.Passed? || w.Found? ==> e.status == Pending && e.applied == 0)
    && (w.Written? ==> e.status == Pending && e.applied == 1)
    && (w.Settled? ==> StatusTrue(e))
  }

  ghost predicate NoDup(xs: seq<nat>) {
    forall i, j :: 0 <= i < j < |xs| ==> xs[i] != xs[j]
  }

  /** Every edit that was queued is in one place: signalled, at the worker, or in the queue, and
      in that order. */
  ghost predicate Fifo(s: State) {
    && s.sent == s.finished + AtWorker(s.worker) + EditsOf(s.queue) && NoDup(s.sent)
    && (forall id :: id in s.sent <==> id in s.edits && Sent(s.edits[id].phase))
  }

  /** What a handler's phase says of its clocks and its reply. */
  predicate HandlerFacts(cfg: Config, now: int, e: Edit) {
    && (e.phase.Stamped? || e.phase.Put? ==> e.deadline <= now + cfg.deadlineSeconds)
    && (e.phase.Waiting? ==> e.phase.giveUp > e.deadline)
    && (e.phase.Replied? || e.phase.Released? ==>
          if e.phase.timedOut then e.phase.code == 503 && now > e.deadline
          else e.signals > 0 && e.phase.code == CodeOf(e.status))
  }

  ghost predicate EditFacts(cfg: Config, s: State, id: nat)
    requires id in s.edits
  {
    var e := s.edits[id];
    && HandlerFacts(cfg, s.now, e)
    && (!Sent(e.phase) || id in EditsOf(s.queue) ==> Untouched(e))
    && (id in AtWorker(s.worker) ==> WorkerFacts(s.worker, e))
    && (id in s.finished ==> e.signals == 1 && StatusTrue(e))
  }

  function Holders(s: State): set<nat> {
    set id | id in s.edits && Holding(s.edits[id].phase)
  }

  ghost predicate Inv(cfg: Config, s: State) {
    && Fifo(s)
    && (forall id :: id in s.edits ==> EditFacts(cfg, s, id))
    && s.permits + |Holders(s)| == cfg.maxPending
  }

  lemma {:induction false} EditsOfAppend(queue: seq<Job>, job: Job)
    ensures EditsOf(queue + [job]) == EditsOf(queue) + if job.TagEdit? then [job.id] else []
  {
    if queue == [] {
      assert queue + [job] == [job] && [job][1..] == [];
    } else {
      EditsOfAppend(queue[1..], job);
      assert (queue + [job])[1..] == queue[1..] + [job];
    }
  }

  lemma NoDupAround(a: seq<nat>, x: nat, b: seq<nat>)
    requires NoDup(a + [x] + b)
    ensures x !in a && x !in b
  {
    var xs := a + [x] + b;
    assert xs[|a|] == x;
    forall i | 0 <= i < |a| ensures a[i] != x {
      assert xs[i] == a[i];
    }
    forall i | 0 <= i < |b| ensures b[i] != x {
      assert xs[|a| + 1 + i] == b[i];
    }
  }

  /** Distinctness keeps the three places apart. */
  lemma OnePlace(s: State, id: nat)
    requires Fifo(s) && id in AtWorker(s.worker)
    ensures id !in s.finished && id !in EditsOf(s.queue) && id in s.edits && Sent(s.edits[id].phase)
  {
    assert AtWorker(s.worker) == [id];
    NoDupAround(s.finished, id, EditsOf(s.queue));
    assert s.sent[|s.finished|] == id;
  }

  lemma InitInv(cfg: Config, s: State)
    requires Init(cfg, s)
    ensures Inv(cfg, s)
  {
    assert Holders(s) == {};
  }

  /** Changing one edit without its place in line. */
  ghost predicate ChangesOnly(s: State, s': State, id: nat) {
    && id in s'.edits && s'.edits == s.edits[id := s'.edits[id]]
    && s'.now == s.now
  }

  lemma HoldersAfter(s: State, s': State, id: nat)
    requires ChangesOnly(s, s', id)
    ensures Holders(s') == if Holding(s'.edits[id].phase) then Holders(s) + {id} else Holders(s) - {id}
  {
  }

  // ---- the clock, the queue and other work ----

  lemma QuietStepInv(cfg: Config, s: State, a: Action)
    requires Inv(cfg, s) && Enabled(s, a) && (a.Tick? || a.EnqueueOther? || a.FinishOther?)
    ensures Inv(cfg, Step(cfg, s, a))
  {
    var s' := Step(cfg, s, a);
    if a.EnqueueOther? {
      EditsOfAppend(s.queue, a.job);
    }
    assert EditsOf(s'.queue) == EditsOf(s.queue) && AtWorker(s'.worker) == AtWorker(s.worker);
    forall id | id in s'.edits ensures EditFacts(cfg, s', id) {
      assert EditFacts(cfg, s, id);
    }
    assert Holders(s') == Holders(s);
  }

  lemma GetInv(cfg: Config, s: State)
    requires Inv(cfg, s) && Enabled(s, Get)
    ensures Inv(cfg, Step(cfg, s, Get))
  {
    var s' := Step(cfg, s, Get);
    assert s.queue == [s.queue[0]] + s.queue[1..];
    assert AtWorker(s'.worker) + EditsOf(s'.queue) == EditsOf(s.queue);
    assert s'.sent == s'.finished + AtWorker(s'.worker) + EditsOf(s'.queue);
    forall id | id in s'.edits ensures EditFacts(cfg, s', id) {
      assert EditFacts(cfg, s, id);
    }
    assert Holders(s') == Holders(s);
  }

  // ---- the handlers ----

  /** A handler's own step: one phase or deadline changes, the item's status, event and place
      do not, and a permit moves with the phase. */
  ghost predicate HandlerStep(cfg: Config, s: State, s': State, id: nat) {
    && id in s.edits && id in s'.edits
    && s' == s.(edits := s.edits[id := s'.edits[id]], permits := s'.permits)
    && var e, e' := s.edits[id], s'.edits[id];
      && e'.status == e.status && e'.signals == e.signals && e'.applied == e.applied
      && Sent(e'.phase) == Sent(e.phase) && HandlerFacts(cfg, s.now, e')
      && s'.permits == s.permits + (if Holding(e.phase) then 1 else 0) - (if Holding(e'.phase) then 1 else 0)
  }

  lemma HandlerPermits(cfg: Config, s: State, s': State, id: nat)
    requires HandlerStep(cfg, s, s', id)
    ensures s'.permits + |Holders(s')| == s.permits + |Holders(s)|
  {
    HoldersAfter(s, s', id);
    if Holding(s.edits[id].phase) {
      assert id in Holders(s) && Holders(s) + {id} == Holders(s);
    } else {
      assert id !in Holders(s) && Holders(s) - {id} == Holders(s);
    }
  }

  lemma HandlerPlaces(cfg: Config, s: State, s': State, id: nat)
    requires HandlerStep(cfg, s, s', id) && Fifo(s)
    ensures Fifo(s')
  {
    forall j ensures j in s'.sent <==> j in s'.edits && Sent(s'.edits[j].phase) {
      assert j in s.sent <==> j in s.edits && Sent(s.edits[j].phase);
    }
  }

  lemma HandlerStepInv(cfg: Config, s: State, s': State, id: nat)
    requires Inv(cfg, s) && HandlerStep(cfg, s, s', id)
    ensures Inv(cfg, s')
  {
    HandlerPermits(cfg, s, s', id);
    HandlerPlaces(cfg, s, s', id);
    forall j | j in s'.edits ensures EditFacts(cfg, s', j) {
      assert EditFacts(cfg, s, j);
    }
  }

  lemma RequestInv(cfg: Config, s: State, id: nat)
    requires Inv(cfg, s) && id !in s.edits
    ensures Inv(cfg, Step(cfg, s, Request(id)))
  {
    var s' := Step(cfg, s, Request(id));
    HoldersAfter(s, s', id);
    NotPlaced(s, id);
    forall j | j in s'.edits ensures EditFacts(cfg, s', j) {
      assert j in s.edits ==> EditFacts(cfg, s, j);
    }
  }

  lemma NotPlaced(s: State, id: nat)
    requires Fifo(s) && !(id in s.edits && Sent(s.edits[id].phase))
    ensures id !in s.finished && id !in AtWorker(s.worker) && id !in EditsOf(s.queue)
  {
    assert id !in s.sent;
  }

  lemma EnqueueFifo(cfg: Config, s: State, id: nat)
    requires Fifo(s) && InPhase(s, id, Stamped)
    ensures Fifo(Step(cfg, s, Enqueue(id)))
    ensures EditsOf(Step(cfg, s, Enqueue(id)).queue) == EditsOf(s.queue) + [id]
  {
    var s' := Step(cfg, s, Enqueue(id));
    EditsOfAppend(s.queue, TagEdit(id));
    assert id !in s.sent;
    assert s'.sent == s'.finished + AtWorker(s'.worker) + EditsOf(s'.queue);
    forall j ensures j in s'.sent <==> j in s'.edits && Sent(s'.edits[j].phase) {
      assert j in s'.sent <==> j in s.sent || j == id;
    }
  }

  lemma EnqueueInv(cfg: Config, s: State, id: nat)
    requires Inv(cfg, s) && InPhase(s, id, Stamped)
    ensures Inv(cfg, Step(cfg, s, Enqueue(id)))
  {
    var s' := Step(cfg, s, Enqueue(id));
    assert Holders(s') == Holders(s);
    EnqueueFifo(cfg, s, id);
    NotPlaced(s, id);
    forall j | j in s'.edits ensures EditFacts(cfg, s', j) {
      assert EditFacts(cfg, s, j);
      if j == id {
        assert Untouched(s'.edits[j]);
      } else {
        assert j in EditsOf(s'.queue) <==> j in EditsOf(s.queue);
      }
    }
  }

  /** The wait outlasts the deadline, so a handler gives up only after its deadline. */
  lemma HandlerInv(cfg: Config, s: State, a: Action)
    requires Inv(cfg, s) && Enabled(s, a) && cfg.margin > 0
    requires a.TakeDeadline? || a.Wait? || a.Wake? || a.GiveUp? || a.Release?
    ensures Inv(cfg, Step(cfg, s, a))
  {
    assert EditFacts(cfg, s, a.id);
    HandlerStepInv(cfg, s, Step(cfg, s, a), a.id);
  }

  // ---- the worker ----

  /** The worker moves on with the edit it holds. */
  lemma WorkerStepInv(cfg: Config, s: State, s': State, id: nat)
    requires Inv(cfg, s) && AtWorker(s.worker) == [id] && AtWorker(s'.worker) == [id] && id in s'.edits
    requires s' == s.(edits := s.edits[id := s'.edits[id]], worker := s'.worker)
    requires s'.edits[id].phase == s.edits[id].phase && s'.edits[id].deadline == s.edits[id].deadline
    requires WorkerFacts(s'.worker, s'.edits[id])
    ensures Inv(cfg, s')
  {
    OnePlace(s, id);
    assert Holders(s') == Holders(s);
    assert EditFacts(cfg, s, id);
    forall j | j in s'.edits ensures EditFacts(cfg, s', j) {
      assert EditFacts(cfg, s, j);
    }
  }

  lemma CheckInv(cfg: Config, s: State)
    requires Inv(cfg, s) && Enabled(s, Check)
    ensures Inv(cfg, Step(cfg, s, Check))
  {
    assert EditFacts(cfg, s, s.worker.id);
    WorkerStepInv(cfg, s, Step(cfg, s, Check), s.worker.id);
  }

  lemma LookupInv(cfg: Config, s: State, result: LookupResult)
    requires Inv(cfg, s) && Enabled(s, Lookup(result))
    ensures Inv(cfg, Step(cfg, s, Lookup(result)))
  {
    assert EditFacts(cfg, s, s.worker.id);
    WorkerStepInv(cfg, s, Step(cfg, s, Lookup(result)), s.worker.id);
  }

  lemma ApplyInv(cfg: Config, s: State, raises: bool)
    requires Inv(cfg, s) && Enabled(s, Apply(raises))
    ensures Inv(cfg, Step(cfg, s, Apply(raises)))
  {
    assert EditFacts(cfg, s, s.worker.id);
    WorkerStepInv(cfg, s, Step(cfg, s, Apply(raises)), s.worker.id);
  }

  lemma ReadBackInv(cfg: Config, s: State, raises: bool)
    requires Inv(cfg, s) && Enabled(s, ReadBack(raises))
    ensures Inv(cfg, Step(cfg, s, ReadBack(raises)))
  {
    assert EditFacts(cfg, s, s.worker.id);
    WorkerStepInv(cfg, s, Step(cfg, s, ReadBack(raises)), s.worker.id);
  }

  lemma SignalInv(cfg: Config, s: State)
    requires Inv(cfg, s) && Enabled(s, Signal)
    ensures Inv(cfg, Step(cfg, s, Signal))
  {
    var id, s' := s.worker.id, Step(cfg, s, Signal);
    OnePlace(s, id);
    assert Holders(s') == Holders(s);
    assert s'.sent == s'.finished + AtWorker(s'.worker) + EditsOf(s'.queue);
    assert EditFacts(cfg, s, id);
    forall j | j in s'.edits ensures EditFacts(cfg, s', j) {
      assert EditFacts(cfg, s, j);
    }
  }

  lemma StepInv(cfg: Config, s: State, a: Action)
    requires Inv(cfg, s) && Enabled(s, a) && cfg.margin > 0
    ensures Inv(cfg, Step(cfg, s, a))
  {
    match a
    case Request(id) => RequestInv(cfg, s, id);
    case Enqueue(id) => EnqueueInv(cfg, s, id);
    case Get => GetInv(cfg, s);
    case Signal => SignalInv(cfg, s);
    case Check => CheckInv(cfg, s);
    case Lookup(result) => LookupInv(cfg, s, result);
    case Apply(raises) => ApplyInv(cfg, s, raises);
    case ReadBack(raises) => ReadBackInv(cfg, s, raises);
    case _ =>
      if a.Tick? || a.EnqueueOther? || a.FinishOther? {
        QuietStepInv(cfg, s, a);
      } else {
        HandlerInv(cfg, s, a);
      }
  }

  /** The invariant holds in every state of every run, however the steps interleave. */
  lemma {:induction false} RunInv(cfg: Config, trace: seq<State>, acts: seq<Action>, i: nat)
    requires IsRun(cfg, trace, acts) && Init(cfg, trace[0]) && cfg.margin > 0 && i < |trace|
    ensures Inv(cfg, trace[i])
  {
    if i == 0 {
      InitInv(cfg, trace[0]);
    } else {
      RunInv(cfg, trace, acts, i - 1);
      StepInv(cfg, trace[i - 1], acts[i - 1]);
    }
  }
}
