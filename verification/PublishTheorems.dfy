/** What the steps of a publish show to a fresh open: one switch from the complete old catalogue
    to the complete new one, exactly when the old WAL cannot be lost, through any number of
    crashed runs. */
module PublishTheorems {
  import opened Common
  import opened Wal
  import opened Publish

  ghost predicate Shows(steps: seq<Disk>, v: View) {
    forall i :: 0 <= i < |steps| ==> ViewOf(steps[i]) == v
  }

  ghost predicate SwitchesAt(steps: seq<Disk>, before: View, after: View, cut: nat) {
    forall i :: 0 <= i < |steps| ==> ViewOf(steps[i]) == if i < cut then before else after
  }

  /** First only the old view, from some step on only the new one. */
  ghost predicate Atomic(steps: seq<Disk>, before: View, after: View) {
    exists cut :: 0 <= cut <= |steps| && SwitchesAt(steps, before, after, cut)
  }

  lemma ShowsConcat(a: seq<Disk>, b: seq<Disk>, v: View)
    requires Shows(a, v) && Shows(b, v)
    ensures Shows(a + b, v)
  {
  }

  // ---- the steps that show the old catalogue ----

  lemma {:induction false} CopyStepsShow(d: Disk, cs: seq<Copy>)
    requires d.main.Some?
    ensures Shows(CopySteps(d, cs), ViewOf(d))
  {
    if cs != [] {
      CopyStepsShow(d, cs[..|cs| - 1]);
      CopyAllKeepsReplay(d.main.value, d.wal, cs);
    }
  }

  lemma CheckpointStepsShow(d: Disk)
    requires d.main.Some?
    ensures Shows(CheckpointSteps(d), ViewOf(d))
  {
    CopyStepsShow(d, FullCopy(d.wal));
  }

  lemma {:induction false} GateStepsShow(d: Disk, env: Environment, i: nat, deadline: int)
    requires d.main.Some? && Ticks(env.clock)
    ensures Shows(GateSteps(d, env, i, deadline), ViewOf(d))
    decreases deadline - env.clock(i)
  {
    match env.attempt(i)
    case Complete => CheckpointStepsShow(d);
    case Fails(copied) => CopyStepsShow(d, copied);
    case Busy(copied) =>
      CopyStepsShow(d, copied);
      if env.clock(i) < deadline {
        assert env.clock(i) + GATE_POLL_MS <= env.clock(i + 1);
        CopyAllKeepsReplay(d.main.value, d.wal, copied);
        GateStepsShow(d.(main := Some(CopyAll(d.main.value, d.wal, copied))), env, i + 1, deadline);
      }
  }

  lemma BuildStepsShow(d: Disk, b: Build)
    ensures Shows(BuildSteps(d, b), ViewOf(d))
  {
  }

  /** What the removal of an unusable database's WAL shows; nothing when the gate did not fail. */
  ghost function RemovalSteps(d: Disk, env: Environment, deadline: int): seq<Disk>
    requires Ticks(env.clock)
  {
    if GateFails(d, env, deadline) then [ServedCleared(d, env, deadline)] else []
  }

  /** The steps that come before that removal, and those that come after it. */
  ghost function EarlySteps(d: Disk, b: Build, env: Environment, deadline: int): seq<Disk>
    requires Ticks(env.clock)
  {
    var built := d.(temp := NewView(b), tempWal := []);
    BuildSteps(d, b) +
    if d.main.None? then [ServedCleared(built, env, deadline)] else GateSteps(built, env, 0, deadline)
  }

  lemma EarlyStepsShow(d: Disk, b: Build, env: Environment, deadline: int)
    requires Ticks(env.clock)
    ensures Shows(EarlySteps(d, b, env, deadline), ViewOf(d))
  {
    BuildStepsShow(d, b);
    var built := d.(temp := NewView(b), tempWal := []);
    if d.main.Some? {
      GateStepsShow(built, env, 0, deadline);
      ShowsConcat(BuildSteps(d, b), GateSteps(built, env, 0, deadline), ViewOf(d));
    }
  }

  lemma StepsInOrder(d: Disk, b: Build, env: Environment, deadline: int)
    requires Ticks(env.clock) && Ready(b) && !GateTimesOut(d, env, deadline)
    ensures var built := d.(temp := NewView(b), tempWal := []);
      PublishSteps(d, b, env, deadline) == EarlySteps(d, b, env, deadline) + RemovalSteps(built, env, deadline)
                                           + SwapSteps(ServedCleared(built, env, deadline))
  {
  }

  // ---- when a run is atomic ----

  /** The branch for an unusable database deletes a WAL that the gate has not copied into the
      main file, which alone is neither the old catalogue nor the new one. */
  ghost predicate LosesFrames(d: Disk, b: Build, env: Environment, deadline: int)
    requires Ticks(env.clock)
  {
    && Ready(b) && GateFails(d, env, deadline)
    && var m := Gated(d.main.value, d.wal, env, 0, deadline).0;
      m != Replay(d.main.value, d.wal) && Some(m) != NewView(b)
  }

  lemma AllOld(steps: seq<Disk>, before: View, after: View)
    requires Shows(steps, before)
    ensures Atomic(steps, before, after)
  {
    assert SwitchesAt(steps, before, after, |steps|);
  }

  /** Old views, at most one step in between, then new views: the switch is atomic exactly when
      the step in between shows one of the two. */
  lemma SwitchExact(steps: seq<Disk>, olds: seq<Disk>, between: seq<Disk>, news: seq<Disk>, before: View, after: View)
    requires steps == olds + between + news && |between| <= 1 && news != []
    requires Shows(olds, before) && Shows(news, after)
    ensures Atomic(steps, before, after) <==>
        between == [] || ViewOf(between[0]) == before || ViewOf(between[0]) == after
  {
    assert between != [] ==> steps[|olds|] == between[0];
    if between == [] || ViewOf(between[0]) == after {
      assert SwitchesAt(steps, before, after, |olds|);
    } else if ViewOf(between[0]) == before {
      assert SwitchesAt(steps, before, after, |olds| + 1);
    }
  }

  /** One run: an abort leaves the old catalogue, success the complete new one, and the steps
      switch once from one to the other if and only if no frames are lost. */
  lemma PublishExact(d: Disk, b: Build, env: Environment, deadline: int)
    requires Ticks(env.clock)
    ensures var steps := PublishSteps(d, b, env, deadline);
      && ViewOf(After(d, steps)) == (if Ends(d, b, env, deadline).Published? then NewView(b) else ViewOf(d))
      && (Atomic(steps, ViewOf(d), NewView(b)) <==> !LosesFrames(d, b, env, deadline))
      && (!Ends(d, b, env, deadline).Published? ==> Shows(steps, ViewOf(d)))
      && After(d, steps).temp == None && After(d, steps).tempWal == []
  {
    var steps, built := PublishSteps(d, b, env, deadline), d.(temp := NewView(b), tempWal := []);
    BuildStepsShow(d, b);
    if !Ready(b) {
      AllOld(steps, ViewOf(d), NewView(b));
    } else if GateTimesOut(d, env, deadline) {
      TimedOutShows(d, b, env, deadline);
      AllOld(steps, ViewOf(d), NewView(b));
    } else {
      EarlyStepsShow(d, b, env, deadline);
      StepsInOrder(d, b, env, deadline);
      SwitchExact(steps, EarlySteps(d, b, env, deadline), RemovalSteps(built, env, deadline),
                  SwapSteps(ServedCleared(built, env, deadline)), ViewOf(d), NewView(b));
    }
  }

  lemma TimedOutShows(d: Disk, b: Build, env: Environment, deadline: int)
    requires Ticks(env.clock) && Ready(b) && GateTimesOut(d, env, deadline)
    ensures Shows(PublishSteps(d, b, env, deadline), ViewOf(d))
  {
    var built := d.(temp := NewView(b), tempWal := []);
    var last := CleanupSteps(ServedCleared(built, env, deadline));
    GateKeepsReplay(d.main.value, d.wal, env, 0, deadline);
    EarlyStepsShow(d, b, env, deadline);
    ShowsConcat(EarlySteps(d, b, env, deadline), last, ViewOf(d));
    assert PublishSteps(d, b, env, deadline) == EarlySteps(d, b, env, deadline) + last;
  }

  /** There is no served file, or its WAL holds no page that the main file does not have with
      the same content: a fact of the two files. */
  ghost predicate NothingPending(d: Disk) {
    d.main.None? || forall i :: 0 <= i < |d.wal| ==> PageAgrees(d.main.value, d.wal[i])
  }

  predicate PageAgrees(main: Pages, f: Frame) {
    f.page in main && main[f.page] == f.data
  }

  lemma {:induction false} AgreeingReplay(main: Pages, wal: seq<Frame>)
    requires forall i :: 0 <= i < |wal| ==> PageAgrees(main, wal[i])
    ensures Replay(main, wal) == main
  {
    if wal != [] {
      AgreeingReplay(main, wal[..|wal| - 1]);
      assert PageAgrees(main, wal[|wal| - 1]);
    }
  }

  lemma {:induction false} AgreeingCopies(main: Pages, wal: seq<Frame>, cs: seq<Copy>)
    requires forall i :: 0 <= i < |wal| ==> PageAgrees(main, wal[i])
    ensures CopyAll(main, wal, cs) == main
  {
    if cs != [] {
      var c := cs[|cs| - 1];
      AgreeingCopies(main, wal, cs[..|cs| - 1]);
      if c.upto <= |wal| {
        AgreeingReplay(main, wal[..c.upto]);
      }
    }
  }

  lemma {:induction false} AgreeingGate(main: Pages, wal: seq<Frame>, env: Environment, i: nat, deadline: int)
    requires Ticks(env.clock) && forall i :: 0 <= i < |wal| ==> PageAgrees(main, wal[i])
    ensures Gated(main, wal, env, i, deadline).0 == main
    decreases deadline - env.clock(i)
  {
    AgreeingReplay(main, wal);
    match env.attempt(i)
    case Complete =>
    case Fails(copied) => AgreeingCopies(main, wal, copied);
    case Busy(copied) =>
      AgreeingCopies(main, wal, copied);
      if env.clock(i) < deadline {
        assert env.clock(i) + GATE_POLL_MS <= env.clock(i + 1);
        AgreeingGate(main, wal, env, i + 1, deadline);
      }
  }

  lemma NothingPendingNothingLost(d: Disk, b: Build, env: Environment, deadline: int)
    requires Ticks(env.clock) && NothingPending(d)
    ensures !LosesFrames(d, b, env, deadline)
  {
    if d.main.Some? {
      AgreeingGate(d.main.value, d.wal, env, 0, deadline);
      AgreeingReplay(d.main.value, d.wal);
    }
  }

  /** A gate that raises at once, after some copies. */
  function FailingGate(cs: seq<Copy>, start: int): Environment {
    Environment((i: nat) => Fails(cs), (i: nat) => start + GATE_POLL_MS * i)
  }

  lemma FailingGateTicks(cs: seq<Copy>, start: int)
    ensures Ticks(FailingGate(cs, start).clock) && FailingGate(cs, start).clock(0) == start
  {
  }

  /** A finished build of these pages. */
  function Simple(pages: Pages): Build {
    Finished(pages, [], true, Complete)
  }

  ghost predicate LosesFrom(d: Disk, b: Build, env: Environment, start: int) {
    Ticks(env.clock) && start <= env.clock(0) && LosesFrames(d, b, env, start + GATE_TOTAL_MS)
  }

  /** Some build and some course of the gate lose frames. */
  ghost predicate CanLose(d: Disk, start: int) {
    exists b, env :: LosesFrom(d, b, env, start)
  }

  lemma LostWhenCopied(d: Disk, start: int, cs: seq<Copy>)
    requires d.main.Some? && CopyAll(d.main.value, d.wal, cs) != Replay(d.main.value, d.wal)
    ensures CanLose(d, start)
  {
    FailingGateTicks(cs, start);
    assert LosesFrom(d, Simple(Replay(d.main.value, d.wal)), FailingGate(cs, start), start);
  }

  lemma PendingCanLose(d: Disk, start: int, i: nat)
    requires d.main.Some? && i < |d.wal| && !PageAgrees(d.main.value, d.wal[i])
    ensures CanLose(d, start)
  {
    var main, f := d.main.value, d.wal[i];
    if Replay(main, d.wal) != main {
      LostWhenCopied(d, start, []);
    } else {
      var c := Copy(f.page, i + 1);
      assert d.wal[..i + 1][..i] == d.wal[..i] && d.wal[..i + 1][i] == f;
      ReplayAt(main, d.wal, f.page);
      assert InWal(d.wal, f.page) && InWal(d.wal[..i + 1], f.page);
      assert CopyAll(main, d.wal, [c]) == CopyPage(CopyAll(main, d.wal, []), d.wal, c) == main[f.page := f.data];
      LostWhenCopied(d, start, [c]);
    }
  }

  /** No build and no course of the gate can lose frames if and only if the served files hold
      nothing pending, which can be read off them before the call. */
  lemma NeverLosesExact(d: Disk, start: int)
    ensures !CanLose(d, start) <==> NothingPending(d)
  {
    if NothingPending(d) {
      forall b, env ensures !LosesFrom(d, b, env, start) {
        if Ticks(env.clock) {
          NothingPendingNothingLost(d, b, env, start + GATE_TOTAL_MS);
        }
      }
    } else {
      var i :| 0 <= i < |d.wal| && !PageAgrees(d.main.value, d.wal[i]);
      PendingCanLose(d, start, i);
    }
  }

  const PENDING := Disk(Some(map[0 := "old"]), [Frame(0, "newer")], None, [])
  const REBUILT := Finished(map[0 := "rebuilt"], [], true, Complete)

  ghost predicate ShowsOnce(steps: seq<Disk>, v: View) {
    exists i :: 0 <= i < |steps| && ViewOf(steps[i]) == v
  }

  ghost function LosingSteps(): seq<Disk> {
    FailingGateTicks([], 0);
    PublishSteps(PENDING, REBUILT, FailingGate([], 0), GATE_TOTAL_MS)
  }

  /** An input that fails: the catalogue served is "newer", the one built is "rebuilt", the gate
      raises at its first attempt, and one step shows "old". */
  lemma LostFrameShown()
    ensures ViewOf(PENDING) == Some(map[0 := "newer"]) && NewView(REBUILT) == Some(map[0 := "rebuilt"])
    ensures ShowsOnce(LosingSteps(), Some(map[0 := "old"]))
    ensures !Atomic(LosingSteps(), ViewOf(PENDING), NewView(REBUILT))
  {
    var env := FailingGate([], 0);
    FailingGateTicks([], 0);
    assert Replay(map[0 := "old"], []) == map[0 := "old"];
    assert PENDING.wal[..0] == [];
    assert Replay(map[0 := "old"], PENDING.wal) == map[0 := "old"][0 := "newer"] == map[0 := "newer"];
    assert CopyAll(map[0 := "old"], PENDING.wal, []) == map[0 := "old"];
    assert map[0 := "old"][0] == "old" && map[0 := "newer"][0] == "newer" && map[0 := "rebuilt"][0] == "rebuilt";
    assert LosesFrames(PENDING, REBUILT, env, GATE_TOTAL_MS);
    PublishExact(PENDING, REBUILT, env, GATE_TOTAL_MS);
    StepsInOrder(PENDING, REBUILT, env, GATE_TOTAL_MS);
    assert ViewOf(LosingSteps()[|EarlySteps(PENDING, REBUILT, env, GATE_TOTAL_MS)|]) == Some(map[0 := "old"]);
  }

  // ---- any number of crashed runs ----

  /** A run of the publisher, from the files it finds. */
  datatype Run = Run(found: Disk, build: View -> Build, env: Environment, began: int)

  ghost predicate Timely(run: Run) {
    Ticks(run.env.clock) && run.began <= run.env.clock(0)
  }

  ghost function StepsOf(run: Run): seq<Disk>
    requires Timely(run)
  {
    PublishSteps(run.found, run.build(None), run.env, run.began + GATE_TOTAL_MS)
  }

  /** The files after the first j steps, where a crash may leave them. */
  ghost function StateAt(run: Run, j: nat): Disk
    requires Timely(run) && j <= |StepsOf(run)|
  {
    if j == 0 then run.found else StepsOf(run)[j - 1]
  }

  /** A crash inside build_fn may leave anything at the temporary path. */
  predicate SameServed(a: Disk, b: Disk) {
    a.main == b.main && a.wal == b.wal
  }

  ghost predicate StoppedBefore(run: Run, next: Run)
    requires Timely(run)
  {
    exists j :: 0 <= j <= |StepsOf(run)| && SameServed(next.found, StateAt(run, j))
  }

  /** Each run starts from the files that the run before had made when it was cut off, after any
      of its steps or none. */
  ghost predicate Chained(runs: seq<Run>) {
    && (forall i :: 0 <= i < |runs| ==> Timely(runs[i]))
    && forall i, j :: 0 <= i && j == i + 1 < |runs| ==> StoppedBefore(runs[i], runs[j])
  }

  /** The run found nothing pending, or its gate does not raise. */
  ghost predicate Secure(run: Run)
    requires Timely(run)
  {
    NothingPending(run.found) || !GateFails(run.found, run.env, run.began + GATE_TOTAL_MS)
  }

  ghost predicate PublishesOver(run: Run)
    requires Timely(run)
  {
    Ends(run.found, run.build(None), run.env, run.began + GATE_TOTAL_MS).Published?
  }

  /** The catalogue served at the start, or the complete catalogue of a publishing run so far. */
  ghost predicate CompleteCatalog(runs: seq<Run>, v: View, i: nat)
    requires Chained(runs) && i < |runs|
  {
    v == ViewOf(runs[0].found)
    || exists k :: 0 <= k <= i && PublishesOver(runs[k]) && v == NewView(runs[k].build(None))
  }

  /** What one run may leave, wherever it stops. */
  lemma StateShows(run: Run, j: nat)
    requires Timely(run) && Secure(run) && j <= |StepsOf(run)|
    ensures ViewOf(StateAt(run, j)) == ViewOf(run.found)
            || (PublishesOver(run) && ViewOf(StateAt(run, j)) == NewView(run.build(None)))
  {
    var b, deadline := run.build(None), run.began + GATE_TOTAL_MS;
    PublishExact(run.found, b, run.env, deadline);
    if NothingPending(run.found) {
      NothingPendingNothingLost(run.found, b, run.env, deadline);
    }
    if j > 0 && PublishesOver(run) {
      AtomicStep(StepsOf(run), ViewOf(run.found), NewView(b), j - 1);
    }
  }

  lemma AtomicStep(steps: seq<Disk>, before: View, after: View, i: nat)
    requires Atomic(steps, before, after) && i < |steps|
    ensures ViewOf(steps[i]) == before || ViewOf(steps[i]) == after
  {
    var cut :| 0 <= cut <= |steps| && SwitchesAt(steps, before, after, cut);
  }

  /** Through any number of runs, each cut off after any of its steps, every fresh open finds the
      catalogue served at the start or one complete catalogue published since. */
  lemma {:induction false} CrashedRuns(runs: seq<Run>, i: nat, j: nat)
    requires Chained(runs) && i < |runs| && j <= |StepsOf(runs[i])|
    requires forall k :: 0 <= k <= i ==> Secure(runs[k])
    ensures CompleteCatalog(runs, ViewOf(StateAt(runs[i], j)), i)
    decreases i, 1
  {
    StateShows(runs[i], j);
    FoundComplete(runs, i);
  }

  lemma {:induction false} FoundComplete(runs: seq<Run>, i: nat)
    requires Chained(runs) && i < |runs|
    requires forall k :: 0 <= k <= i ==> Secure(runs[k])
    ensures CompleteCatalog(runs, ViewOf(runs[i].found), i)
    decreases i, 0
  {
    if i > 0 {
      var j := StoppedAt(runs, i);
      CrashedRuns(runs, i - 1, j);
    }
  }

  lemma StoppedAt(runs: seq<Run>, i: nat) returns (j: nat)
    requires Chained(runs) && 0 < i < |runs|
    ensures j <= |StepsOf(runs[i - 1])| && ViewOf(runs[i].found) == ViewOf(StateAt(runs[i - 1], j))
  {
    assert StoppedBefore(runs[i - 1], runs[i]);
    j :| 0 <= j <= |StepsOf(runs[i - 1])| && SameServed(runs[i].found, StateAt(runs[i - 1], j));
  }
}
