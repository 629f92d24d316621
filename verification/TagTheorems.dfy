/** What every run of the tag-edit protocol promises its callers. */
module TagTheorems {
  import opened TagProtocol

  lemma {:induction false} RunInvFrom(cfg: Config, trace: seq<State>, acts: seq<Action>, i: nat)
    requires IsRun(cfg, trace, acts) && Inv(cfg, trace[0]) && cfg.margin > 0 && i < |trace|
    ensures Inv(cfg, trace[i])
  {
    if i > 0 {
      RunInvFrom(cfg, trace, acts, i - 1);
      StepInv(cfg, trace[i - 1], acts[i - 1]);
    }
  }

  // ---- replies ----

  /** An edit whose event was set is finished, and the other way around. */
  lemma FinishedExact(cfg: Config, s: State, id: nat)
    requires Inv(cfg, s) && id in s.edits
    ensures s.edits[id].signals == if id in s.finished then 1 else 0
    ensures id in s.finished <==> Sent(s.edits[id].phase) && id !in EditsOf(s.queue) && id !in AtWorker(s.worker)
  {
    assert EditFacts(cfg, s, id);
    assert id in s.sent <==> Sent(s.edits[id].phase);
    assert id in s.sent <==> id in s.finished || id in AtWorker(s.worker) || id in EditsOf(s.queue);
    if id in AtWorker(s.worker) {
      OnePlace(s, id);
    }
  }

  /** Each edit taken off the queue has its event set exactly once, when the worker lets go of
      it, with a status other than pending; and edits are finished in the order they were
      queued. */
  lemma SignalledOnce(cfg: Config, trace: seq<State>, acts: seq<Action>, i: nat, id: nat)
    requires IsRun(cfg, trace, acts) && Init(cfg, trace[0]) && cfg.margin > 0 && i < |trace|
    requires id in trace[i].edits
    ensures var s, e := trace[i], trace[i].edits[id];
      && e.signals <= 1 && (e.signals == 1 ==> e.status != Pending)
      && (e.signals == 1 <==> Sent(e.phase) && id !in EditsOf(s.queue) && id !in AtWorker(s.worker))
    ensures trace[i].finished <= trace[i].sent
  {
    RunInv(cfg, trace, acts, i);
    FinishedExact(cfg, trace[i], id);
    assert EditFacts(cfg, trace[i], id);
  }

  /** The handler has answered. */
  predicate Answered(e: Edit) {
    e.phase.Replied? || e.phase.Released?
  }

  /** Replies tell the truth, when they are sent and ever after: 200 means the edit was applied
      exactly once, 404, an expired 503 and a refusal mean that it never was. */
  lemma RepliesTrue(cfg: Config, trace: seq<State>, acts: seq<Action>, i: nat, id: nat)
    requires IsRun(cfg, trace, acts) && Init(cfg, trace[0]) && cfg.margin > 0 && i < |trace|
    requires id in trace[i].edits
    ensures var e := trace[i].edits[id];
      && e.applied <= 1
      && (e.phase.Refused? ==> e.applied == 0)
      && (Answered(e) && e.phase.code == 200 ==> e.applied == 1)
      && (Answered(e) && e.phase.code == 404 ==> e.applied == 0)
      && (Answered(e) && e.phase.code == 503 && !e.phase.timedOut ==> e.status == Expired && e.applied == 0)
  {
    RunInv(cfg, trace, acts, i);
    FinishedExact(cfg, trace[i], id);
    assert EditFacts(cfg, trace[i], id);
  }

  /** Every answer that is not a time-out is the status's own code: success is always answered
      200, and nothing else is. */
  lemma RepliesExact(cfg: Config, trace: seq<State>, acts: seq<Action>, i: nat, id: nat)
    requires IsRun(cfg, trace, acts) && Init(cfg, trace[0]) && cfg.margin > 0 && i < |trace|
    requires id in trace[i].edits && Answered(trace[i].edits[id]) && !trace[i].edits[id].phase.timedOut
    ensures var e := trace[i].edits[id];
      && (e.phase.code == 200 <==> e.status == Done) && (e.phase.code == 404 <==> e.status == NotFound)
      && (e.phase.code == 503 <==> e.status == Expired) && (e.phase.code == 500 <==> e.status == Failed)
      && e.phase.code in {200, 404, 500, 503}
  {
    RunInv(cfg, trace, acts, i);
    FinishedExact(cfg, trace[i], id);
    assert EditFacts(cfg, trace[i], id);
  }

  /** The status that an action of the worker gives the edit it holds. */
  ghost predicate Gives(s: State, a: Action, id: nat, status: Status)
    requires id in s.edits
  {
    match status
    case Expired => s.worker == Got(id) && a == Check && s.now > s.edits[id].deadline
    case NotFound => s.worker == Passed(id) && a == Lookup(Miss)
    case Done => s.worker == Written(id) && a == ReadBack(false)
    case Failed =>
      (s.worker == Passed(id) && a == Lookup(Raises)) || (s.worker == Found(id) && a == Apply(true))
      || (s.worker == Written(id) && a == ReadBack(true))
    case Pending => false
  }

  /** What sets each status, and that nothing else does. */
  lemma StatusExact(cfg: Config, s: State, a: Action, id: nat, status: Status)
    requires Inv(cfg, s) && Enabled(s, a) && id in s.edits && status != Pending
    ensures id in Step(cfg, s, a).edits
    ensures Step(cfg, s, a).edits[id].status == status <==> Gives(s, a, id, status) || s.edits[id].status == status
  {
    if a.Check? || a.Lookup? || a.Apply? || a.ReadBack? {
      assert EditFacts(cfg, s, id);
      WorkerStatus(cfg, s, a, id, status);
    } else {
      OthersKeepStatus(cfg, s, a, id);
    }
  }

  lemma WorkerStatus(cfg: Config, s: State, a: Action, id: nat, status: Status)
    requires Enabled(s, a) && id in s.edits && status != Pending && (a.Check? || a.Lookup? || a.Apply? || a.ReadBack?)
    requires s.worker.id == id && !s.worker.Settled? ==> s.edits[id].status == Pending
    ensures id in Step(cfg, s, a).edits
    ensures Step(cfg, s, a).edits[id].status == status <==> Gives(s, a, id, status) || s.edits[id].status == status
  {
  }

  lemma OthersKeepStatus(cfg: Config, s: State, a: Action, id: nat)
    requires Enabled(s, a) && id in s.edits && !a.Check? && !a.Lookup? && !a.Apply? && !a.ReadBack?
    ensures id in Step(cfg, s, a).edits && Step(cfg, s, a).edits[id].status == s.edits[id].status
  {
  }

  /** A write happens in one action only, and so does a signal. */
  lemma CountsExact(cfg: Config, s: State, a: Action, id: nat)
    requires Enabled(s, a) && id in s.edits
    ensures id in Step(cfg, s, a).edits
    ensures Step(cfg, s, a).edits[id].applied
         == s.edits[id].applied + if s.worker == Found(id) && a == Apply(false) then 1 else 0
    ensures Step(cfg, s, a).edits[id].signals
         == s.edits[id].signals + if s.worker == Settled(id) && a == Signal then 1 else 0
  {
  }

  /** What a handler takes and gives: a permit or a refusal, a deadline, a wait that outlasts it
      by the margin and never counts a negative deadline, and its permit back. */
  lemma HandlerExact(cfg: Config, s: State, id: nat)
    ensures id !in s.edits && s.permits == 0 ==>
        Step(cfg, s, Request(id)) == s.(edits := s.edits[id := Edit(Refused, 0, Pending, 0, 0)])
    ensures id !in s.edits && s.permits > 0 ==>
        Step(cfg, s, Request(id)).permits == s.permits - 1 && InPhase(Step(cfg, s, Request(id)), id, Acquired)
    ensures InPhase(s, id, Acquired) ==>
        Step(cfg, s, TakeDeadline(id)).edits[id].deadline == s.now + cfg.deadlineSeconds
    ensures InPhase(s, id, Put) ==>
        InPhase(Step(cfg, s, Wait(id)), id,
                Waiting(s.now + cfg.margin + if cfg.deadlineSeconds >= 0 then cfg.deadlineSeconds else 0))
    ensures Enabled(s, GiveUp(id)) ==> InPhase(Step(cfg, s, GiveUp(id)), id, Replied(503, true))
    ensures Enabled(s, Release(id)) ==> Step(cfg, s, Release(id)).permits == s.permits + 1
  {
  }

  // ---- the deadline check ----

  /** The worker is past the deadline check of this edit, or it was applied already. */
  predicate Beyond(s: State, id: nat) {
    s.worker == Passed(id) || s.worker == Found(id) || s.worker == Written(id)
    || (id in s.edits && s.edits[id].applied > 0)
  }

  predicate ChecksInTime(s: State, a: Action, id: nat) {
    a == Check && s.worker == Got(id) && id in s.edits && s.now <= s.edits[id].deadline && s.edits[id].applied == 0
  }

  lemma BeyondByCheck(cfg: Config, s: State, a: Action, id: nat)
    requires Enabled(s, a) && !Beyond(s, id) && Beyond(Step(cfg, s, a), id)
    ensures ChecksInTime(s, a, id)
  {
    if id in s.edits {
      CountsExact(cfg, s, a, id);
    }
  }

  lemma RunBeyondByCheck(cfg: Config, trace: seq<State>, acts: seq<Action>, i: nat, id: nat)
    requires IsRun(cfg, trace, acts) && Init(cfg, trace[0]) && cfg.margin > 0 && i < |acts|
    requires !Beyond(trace[i], id) && Beyond(trace[i + 1], id)
    ensures ChecksInTime(trace[i], acts[i], id)
  {
    RunInv(cfg, trace, acts, i);
    BeyondByCheck(cfg, trace[i], acts[i], id);
  }

  ghost predicate CheckedBefore(trace: seq<State>, acts: seq<Action>, j: nat, id: nat)
    requires j < |trace| == |acts| + 1
  {
    exists i :: 0 <= i < j && ChecksInTime(trace[i], acts[i], id)
  }

  /** An edit is applied only after a deadline check that it passed. */
  lemma {:induction false} AppliedInTime(cfg: Config, trace: seq<State>, acts: seq<Action>, j: nat, id: nat)
    requires IsRun(cfg, trace, acts) && Init(cfg, trace[0]) && cfg.margin > 0 && j < |trace|
    requires Beyond(trace[j], id)
    ensures CheckedBefore(trace, acts, j, id)
  {
    if j > 0 {
      if Beyond(trace[j - 1], id) {
        AppliedInTime(cfg, trace, acts, j - 1, id);
        var i :| 0 <= i < j - 1 && ChecksInTime(trace[i], acts[i], id);
      } else {
        assert trace[j - 1 + 1] == trace[j];
        RunBeyondByCheck(cfg, trace, acts, j - 1, id);
      }
    }
  }

  // ---- giving up ----

  /** Past its deadline, not applied, and not past its check. */
  predicate Doomed(s: State, id: nat) {
    && id in s.edits && Sent(s.edits[id].phase) && s.now > s.edits[id].deadline
    && !Beyond(s, id)
  }

  lemma DoomedStays(cfg: Config, s: State, a: Action, id: nat)
    requires Inv(cfg, s) && Enabled(s, a) && Doomed(s, id)
    ensures Doomed(Step(cfg, s, a), id)
  {
    if Beyond(Step(cfg, s, a), id) {
      BeyondByCheck(cfg, s, a, id);
    }
  }

  lemma {:induction false} DoomedRun(cfg: Config, trace: seq<State>, acts: seq<Action>, i: nat, j: nat, id: nat)
    requires IsRun(cfg, trace, acts) && Inv(cfg, trace[0]) && cfg.margin > 0 && i <= j < |trace|
    requires Doomed(trace[i], id)
    ensures Doomed(trace[j], id)
    decreases j
  {
    if i < j {
      DoomedRun(cfg, trace, acts, i, j - 1, id);
      RunDoomedStays(cfg, trace, acts, j - 1, id);
    }
  }

  lemma RunDoomedStays(cfg: Config, trace: seq<State>, acts: seq<Action>, i: nat, id: nat)
    requires IsRun(cfg, trace, acts) && Inv(cfg, trace[0]) && cfg.margin > 0 && i < |acts|
    requires Doomed(trace[i], id)
    ensures Doomed(trace[i + 1], id)
  {
    RunInvFrom(cfg, trace, acts, i);
    DoomedStays(cfg, trace[i], acts[i], id);
  }

  lemma GiveUpDooms(cfg: Config, s: State, id: nat)
    requires Inv(cfg, s) && Enabled(s, GiveUp(id)) && id in EditsOf(s.queue)
    ensures Doomed(Step(cfg, s, GiveUp(id)), id)
  {
    QueuedNotBeyond(cfg, s, id);
    assert EditFacts(cfg, s, id);
  }

  /** A handler that timed out while its item was still queued never sees it applied. */
  lemma GaveUpWhileQueued(cfg: Config, trace: seq<State>, acts: seq<Action>, i: nat, j: nat, id: nat)
    requires IsRun(cfg, trace, acts) && Init(cfg, trace[0]) && cfg.margin > 0 && i < j < |trace|
    requires acts[i] == GiveUp(id) && id in EditsOf(trace[i].queue)
    ensures id in trace[j].edits && trace[j].edits[id].applied == 0 && trace[j].edits[id].status != Done
  {
    RunInv(cfg, trace, acts, i);
    GiveUpDooms(cfg, trace[i], id);
    InitInv(cfg, trace[0]);
    DoomedRun(cfg, trace, acts, i + 1, j, id);
    DoomedNotDone(cfg, trace, acts, j, id);
  }

  lemma DoomedNotDone(cfg: Config, trace: seq<State>, acts: seq<Action>, j: nat, id: nat)
    requires IsRun(cfg, trace, acts) && Init(cfg, trace[0]) && cfg.margin > 0 && j < |trace|
    requires Doomed(trace[j], id)
    ensures trace[j].edits[id].status != Done
  {
    RunInv(cfg, trace, acts, j);
    if trace[j].edits[id].status == Done {
      DoneIsApplied(cfg, trace[j], id);
    }
  }

  lemma QueuedNotBeyond(cfg: Config, s: State, id: nat)
    requires Inv(cfg, s) && id in EditsOf(s.queue) && id in s.edits
    ensures !Beyond(s, id) && Sent(s.edits[id].phase)
  {
    assert EditFacts(cfg, s, id);
    assert id in s.sent;
    if id in AtWorker(s.worker) {
      OnePlace(s, id);
    }
  }

  lemma TimedOutLate(cfg: Config, s: State, id: nat)
    requires Inv(cfg, s) && id in s.edits && Answered(s.edits[id]) && s.edits[id].phase.timedOut
    ensures s.now > s.edits[id].deadline
  {
    assert EditFacts(cfg, s, id);
  }

  lemma DoneIsApplied(cfg: Config, s: State, id: nat)
    requires Inv(cfg, s) && id in s.edits && s.edits[id].status == Done
    ensures s.edits[id].applied == 1
  {
    FinishedExact(cfg, s, id);
    assert EditFacts(cfg, s, id);
  }

  ghost predicate LeadsToApplied(cfg: Config, trace: seq<State>, acts: seq<Action>, s: State, id: nat) {
    && IsRun(cfg, trace, acts) && trace[0] == s
    && id in trace[|acts|].edits && trace[|acts|].edits[id].applied > 0
  }

  /** Some continuation ends with the edit applied. */
  ghost predicate MayBeApplied(cfg: Config, s: State, id: nat) {
    exists trace, acts :: LeadsToApplied(cfg, trace, acts, s, id)
  }

  /** After a time-out the edit can still turn up applied if and only if it already was, or the
      worker had passed its deadline check and not written yet. */
  lemma GaveUpExact(cfg: Config, s: State, id: nat)
    requires Inv(cfg, s) && cfg.margin > 0 && id in s.edits && Answered(s.edits[id]) && s.edits[id].phase.timedOut
    ensures MayBeApplied(cfg, s, id) <==> s.edits[id].applied > 0 || s.worker == Passed(id) || s.worker == Found(id)
  {
    TimedOutLate(cfg, s, id);
    assert EditFacts(cfg, s, id);
    if Beyond(s, id) {
      BeyondCanApply(cfg, s, id);
    } else if MayBeApplied(cfg, s, id) {
      var trace, acts :| LeadsToApplied(cfg, trace, acts, s, id);
      DoomedRun(cfg, trace, acts, 0, |acts|, id);
    }
  }

  lemma BeyondCanApply(cfg: Config, s: State, id: nat)
    requires Inv(cfg, s) && id in s.edits && Beyond(s, id)
    ensures MayBeApplied(cfg, s, id)
  {
    assert EditFacts(cfg, s, id);
    if s.worker == Passed(id) {
      PassedLeads(cfg, s, id);
    } else if s.worker == Found(id) {
      FoundLeads(cfg, s, id);
    } else {
      assert LeadsToApplied(cfg, [s], [], s, id);
    }
  }

  lemma PassedLeads(cfg: Config, s: State, id: nat)
    requires s.worker == Passed(id) && id in s.edits
    ensures MayBeApplied(cfg, s, id)
  {
    var s1 := Step(cfg, s, Lookup(Hit));
    var s2 := Step(cfg, s1, Apply(false));
    assert LeadsToApplied(cfg, [s, s1, s2], [Lookup(Hit), Apply(false)], s, id);
  }

  lemma FoundLeads(cfg: Config, s: State, id: nat)
    requires s.worker == Found(id) && id in s.edits
    ensures MayBeApplied(cfg, s, id)
  {
    assert LeadsToApplied(cfg, [s, Step(cfg, s, Apply(false))], [Apply(false)], s, id);
  }

  ghost predicate Reachable(cfg: Config, s: State) {
    exists trace, acts :: IsRun(cfg, trace, acts) && Init(cfg, trace[0]) && trace[|acts|] == s
  }

  lemma ReachableStep(cfg: Config, s: State, a: Action)
    requires Reachable(cfg, s) && Enabled(s, a)
    ensures Reachable(cfg, Step(cfg, s, a))
  {
    var trace, acts :| IsRun(cfg, trace, acts) && Init(cfg, trace[0]) && trace[|acts|] == s;
    var trace', acts' := trace + [Step(cfg, s, a)], acts + [a];
    assert IsRun(cfg, trace', acts') && Init(cfg, trace'[0]) && trace'[|acts'|] == Step(cfg, s, a);
  }

  const DEFAULTS := Config(5, 2, 32)

  /** The residual edit, queued at time 0 with its handler waiting until 7. */
  const QUEUED := State(0, 31, [TagEdit(0)], Idle, map[0 := Edit(Waiting(7), 5, Pending, 0, 0)], [0], [])

  /** The worker has found its file, but has not written yet. */
  const AT_FOUND := QUEUED.(queue := [], worker := Found(0))

  lemma QueuedReachable()
    ensures Reachable(DEFAULTS, QUEUED)
  {
    var s0 := State(0, 32, [], Idle, map[], [], []);
    var acts: seq<Action> := [];
    assert IsRun(DEFAULTS, [s0], acts) && Init(DEFAULTS, [s0][0]) && [s0][|acts|] == s0;
    ReachableStep(DEFAULTS, s0, Request(0));
    var s1 := Step(DEFAULTS, s0, Request(0));
    ReachableStep(DEFAULTS, s1, TakeDeadline(0));
    var s2 := Step(DEFAULTS, s1, TakeDeadline(0));
    ReachableStep(DEFAULTS, s2, Enqueue(0));
    var s3 := Step(DEFAULTS, s2, Enqueue(0));
    ReachableStep(DEFAULTS, s3, Wait(0));
    assert Step(DEFAULTS, s3, Wait(0)) == QUEUED;
  }

  lemma FoundReachable()
    ensures Reachable(DEFAULTS, AT_FOUND)
  {
    QueuedReachable();
    ReachableStep(DEFAULTS, QUEUED, Get);
    var s1 := Step(DEFAULTS, QUEUED, Get);
    ReachableStep(DEFAULTS, s1, Check);
    var s2 := Step(DEFAULTS, s1, Check);
    ReachableStep(DEFAULTS, s2, Lookup(Hit));
    assert Step(DEFAULTS, s2, Lookup(Hit)) == AT_FOUND;
  }

  /** The residual case is real: with the default settings a run exists whose handler timed out
      with 503 and whose edit is applied all the same. */
  lemma TimedOutYetApplied()
    ensures exists s :: Reachable(DEFAULTS, s) && InPhase(s, 0, Replied(503, true)) && s.edits[0].applied == 1
  {
    FoundReachable();
    ReachableStep(DEFAULTS, AT_FOUND, Tick(7));
    var s1 := Step(DEFAULTS, AT_FOUND, Tick(7));
    ReachableStep(DEFAULTS, s1, GiveUp(0));
    var s2 := Step(DEFAULTS, s1, GiveUp(0));
    ReachableStep(DEFAULTS, s2, Apply(false));
    var s3 := Step(DEFAULTS, s2, Apply(false));
    assert InPhase(s3, 0, Replied(503, true)) && s3.edits[0].applied == 1;
  }

  /** The worker has written and read back, and is about to signal. */
  const AT_DONE := AT_FOUND.(worker := Settled(0), edits := map[0 := Edit(Waiting(7), 5, Done, 0, 1)])

  lemma DoneReachable()
    ensures Reachable(DEFAULTS, AT_DONE)
  {
    FoundReachable();
    ReachableStep(DEFAULTS, AT_FOUND, Apply(false));
    var s1 := Step(DEFAULTS, AT_FOUND, Apply(false));
    ReachableStep(DEFAULTS, s1, ReadBack(false));
    assert Step(DEFAULTS, s1, ReadBack(false)) == AT_DONE;
  }

  /** An applied edit is answered 200: a run exists with the default settings. */
  lemma SuccessReachable()
    ensures exists s :: Reachable(DEFAULTS, s) && InPhase(s, 0, Replied(200, false)) && s.edits[0].applied == 1
  {
    DoneReachable();
    ReachableStep(DEFAULTS, AT_DONE, Signal);
    var s1 := Step(DEFAULTS, AT_DONE, Signal);
    ReachableStep(DEFAULTS, s1, Wake(0));
    var s2 := Step(DEFAULTS, s1, Wake(0));
    assert InPhase(s2, 0, Replied(200, false)) && s2.edits[0].applied == 1;
  }

  // ---- permits ----

  /** The queued edits whose deadline has not passed. */
  function Unexpired(s: State): set<nat> {
    set id | id in EditsOf(s.queue) && id in s.edits && s.now <= s.edits[id].deadline
  }

  /** A queued edit that has not expired still has its handler waiting, so permits bound the
      unexpired part of the queue; and a release never exceeds the semaphore's bound. */
  lemma PermitBound(cfg: Config, trace: seq<State>, acts: seq<Action>, i: nat)
    requires IsRun(cfg, trace, acts) && Init(cfg, trace[0]) && cfg.margin > 0 && i < |trace|
    ensures var s := trace[i];
      && s.permits + |Holders(s)| == cfg.maxPending
      && Unexpired(s) <= Holders(s) && |Unexpired(s)| <= cfg.maxPending - s.permits
      && NoDup(EditsOf(s.queue))
    ensures i < |acts| && acts[i].Release? ==> trace[i].permits < cfg.maxPending
  {
    var s := trace[i];
    RunInv(cfg, trace, acts, i);
    forall id | id in Unexpired(s) ensures id in Holders(s) {
      assert EditFacts(cfg, s, id);
      QueuedNotBeyond(cfg, s, id);
    }
    SubsetSize(Unexpired(s), Holders(s));
    var n := |s.sent| - |EditsOf(s.queue)|;
    forall k, l | 0 <= k < l < |EditsOf(s.queue)| ensures EditsOf(s.queue)[k] != EditsOf(s.queue)[l] {
      assert s.sent[n + k] == EditsOf(s.queue)[k] && s.sent[n + l] == EditsOf(s.queue)[l];
    }
    if i < |acts| && acts[i].Release? {
      assert acts[i].id in Holders(s);
      SubsetSize({acts[i].id}, Holders(s));
    }
  }

  lemma SubsetSize(a: set<nat>, b: set<nat>)
    requires a <= b
    ensures |a| <= |b|
  {
    assert |b - a| + |a| == |b| by {
      assert b == (b - a) + a && (b - a) !! a;
    }
  }
}
