/** publish.build_and_publish as single file-system steps. The step functions list the files a
    run leaves after each of its steps; the class is the program, and the history it makes is
    proved to be exactly that list. */
module Publish {
  import opened Common
  import opened Wal

  /** The served path with its WAL, and the temporary path with its own. */
  datatype Disk = Disk(main: Option<Pages>, wal: seq<Frame>, temp: Option<Pages>, tempWal: seq<Frame>)

  /** What a fresh open of the served path finds. */
  function ViewOf(d: Disk): View {
    Open(d.main, d.wal)
  }

  const GATE_TOTAL_MS := 5000
  const GATE_POLL_MS := 100

  /** One wal_checkpoint(TRUNCATE) on a database: complete, or cut short by a reader after some
      copies, or ended by a sqlite3.Error after some copies. */
  datatype Attempt = Complete | Busy(copied: seq<Copy>) | Fails(copied: seq<Copy>)

  datatype Verdict = Cleared | TimedOut | Unusable

  /** The checkpoint attempts as they will go, and the clock read after each. */
  datatype Environment = Environment(attempt: nat -> Attempt, clock: nat -> int)

  /** At least the poll interval passes between two attempts. */
  ghost predicate Ticks(clock: nat -> int) {
    forall i: nat, j: nat :: j == i + 1 ==> clock(i) + GATE_POLL_MS <= clock(j)
  }

  /** What build_fn and the steps up to the temporary checkpoint come to: an exception that
      leaves some files behind, or a database with its own WAL, stamped or not, and what its
      checkpoint does. */
  datatype Build =
    | Raised(left: Pages, leftWal: seq<Frame>)
    | Finished(main: Pages, wal: seq<Frame>, stamped: bool, checkpoint: Attempt)

  datatype Outcome = Failed | Unstamped | TempNotClean | GateBusy | Published

  /** The complete new catalogue: what the finished build shows. */
  function NewView(b: Build): View {
    if b.Finished? then Some(Replay(b.main, b.wal)) else None
  }

  predicate Ready(b: Build) {
    b.Finished? && b.stamped && b.checkpoint.Complete?
  }

  function BuildFailure(b: Build): Outcome {
    if b.Raised? then Failed
    else if !b.stamped then Unstamped
    else if b.checkpoint.Fails? then Failed
    else TempNotClean
  }

  /** The main file and the verdict that the retry loop ends with. */
  ghost function Gated(main: Pages, wal: seq<Frame>, env: Environment, i: nat, deadline: int): (Pages, Verdict)
    requires Ticks(env.clock)
    decreases deadline - env.clock(i)
  {
    match env.attempt(i)
    case Complete => (Replay(main, wal), Cleared)
    case Fails(copied) => (CopyAll(main, wal, copied), Unusable)
    case Busy(copied) =>
      var main' := CopyAll(main, wal, copied);
      if env.clock(i) >= deadline then (main', TimedOut)
      else
        assert env.clock(i) + GATE_POLL_MS <= env.clock(i + 1);
        Gated(main', wal, env, i + 1, deadline)
  }

  ghost predicate GateFails(d: Disk, env: Environment, deadline: int)
    requires Ticks(env.clock)
  {
    d.main.Some? && Gated(d.main.value, d.wal, env, 0, deadline).1.Unusable?
  }

  ghost predicate GateTimesOut(d: Disk, env: Environment, deadline: int)
    requires Ticks(env.clock)
  {
    d.main.Some? && Gated(d.main.value, d.wal, env, 0, deadline).1.TimedOut?
  }

  /** How the run must end, from the old files, the build and the environment alone. */
  ghost function Ends(d: Disk, b: Build, env: Environment, deadline: int): Outcome
    requires Ticks(env.clock)
  {
    if !Ready(b) then BuildFailure(b) else if GateTimesOut(d, env, deadline) then GateBusy else Published
  }

  // ---- the outcome, attempt by attempt ----

  /** The n-th attempt is the last one: those before it were cut short in time, and it was not,
      or came too late. */
  ghost predicate LastAttempt(env: Environment, i: nat, n: nat, deadline: int) {
    && i <= n && (forall k :: i <= k < n ==> env.attempt(k).Busy? && env.clock(k) < deadline)
    && (env.attempt(n).Busy? ==> env.clock(n) >= deadline)
  }

  /** The gate's window is over while a reader still holds the served database. */
  ghost predicate StaysBusy(d: Disk, env: Environment, deadline: int) {
    d.main.Some? && exists n :: LastAttempt(env, 0, n, deadline) && env.attempt(n).Busy?
  }

  /** An attempt within the window raises. */
  ghost predicate Raises(d: Disk, env: Environment, deadline: int) {
    d.main.Some? && exists n :: LastAttempt(env, 0, n, deadline) && env.attempt(n).Fails?
  }

  lemma {:induction false} VerdictFrom(main: Pages, wal: seq<Frame>, env: Environment, i: nat, deadline: int)
    returns (n: nat)
    requires Ticks(env.clock)
    ensures LastAttempt(env, i, n, deadline)
    ensures Gated(main, wal, env, i, deadline).1 ==
      match env.attempt(n) case Complete => Cleared case Busy(_) => TimedOut case Fails(_) => Unusable
    decreases deadline - env.clock(i)
  {
    n := i;
    match env.attempt(i)
    case Complete =>
    case Fails(_) =>
    case Busy(copied) =>
      if env.clock(i) < deadline {
        assert env.clock(i) + GATE_POLL_MS <= env.clock(i + 1);
        n := VerdictFrom(CopyAll(main, wal, copied), wal, env, i + 1, deadline);
      }
  }

  lemma OneLastAttempt(env: Environment, m: nat, n: nat, deadline: int)
    requires LastAttempt(env, 0, m, deadline) && LastAttempt(env, 0, n, deadline)
    ensures m == n
  {
  }

  lemma VerdictExact(d: Disk, env: Environment, deadline: int)
    requires Ticks(env.clock)
    ensures GateTimesOut(d, env, deadline) <==> StaysBusy(d, env, deadline)
    ensures GateFails(d, env, deadline) <==> Raises(d, env, deadline)
  {
    if d.main.Some? {
      var n := VerdictFrom(d.main.value, d.wal, env, 0, deadline);
      forall m | LastAttempt(env, 0, m, deadline) ensures m == n {
        OneLastAttempt(env, m, n, deadline);
      }
    }
  }

  /** Why a run ends as it does, in the fields of the build and the course of the gate. */
  ghost predicate EndsBecause(r: Outcome, d: Disk, b: Build, env: Environment, deadline: int) {
    && (r == Published <==> b.Finished? && b.stamped && b.checkpoint == Complete && !StaysBusy(d, env, deadline))
    && (r == GateBusy <==> b.Finished? && b.stamped && b.checkpoint == Complete && StaysBusy(d, env, deadline))
    && (r == Unstamped <==> b.Finished? && !b.stamped)
    && (r == TempNotClean <==> b.Finished? && b.stamped && b.checkpoint.Busy?)
    && (r == Failed <==> b.Raised? || (b.stamped && b.checkpoint.Fails?))
  }

  lemma OutcomeExact(d: Disk, b: Build, env: Environment, deadline: int)
    requires Ticks(env.clock)
    ensures EndsBecause(Ends(d, b, env, deadline), d, b, env, deadline)
  {
    VerdictExact(d, env, deadline);
  }

  // ---- the steps ----

  /** Where the last of the steps left the files. */
  function After(d: Disk, steps: seq<Disk>): Disk {
    if steps == [] then d else steps[|steps| - 1]
  }

  function CleanupSteps(d: Disk): seq<Disk> {
    [d.(temp := None), d.(temp := None, tempWal := [])]
  }

  function CopySteps(d: Disk, cs: seq<Copy>): seq<Disk>
    requires d.main.Some?
  {
    if cs == [] then []
    else CopySteps(d, cs[..|cs| - 1]) + [d.(main := Some(CopyAll(d.main.value, d.wal, cs)))]
  }

  /** Every page copied, then the WAL truncated. */
  function CheckpointSteps(d: Disk): seq<Disk>
    requires d.main.Some?
  {
    CopySteps(d, FullCopy(d.wal)) + [d.(main := Some(Replay(d.main.value, d.wal)), wal := [])]
  }

  ghost function GateSteps(d: Disk, env: Environment, i: nat, deadline: int): seq<Disk>
    requires d.main.Some? && Ticks(env.clock)
    decreases deadline - env.clock(i)
  {
    match env.attempt(i)
    case Complete => CheckpointSteps(d)
    case Fails(copied) => CopySteps(d, copied)
    case Busy(copied) =>
      if env.clock(i) >= deadline then CopySteps(d, copied)
      else
        assert env.clock(i) + GATE_POLL_MS <= env.clock(i + 1);
        CopySteps(d, copied)
        + GateSteps(d.(main := Some(CopyAll(d.main.value, d.wal, copied))), env, i + 1, deadline)
  }

  /** Everything before the swap that happens to the temporary files only. */
  function BuildSteps(d: Disk, b: Build): seq<Disk> {
    var clean := d.(temp := None, tempWal := []);
    CleanupSteps(d) +
    match b
    case Raised(left, leftWal) =>
      var built := clean.(temp := Some(left), tempWal := leftWal);
      [built] + CleanupSteps(built)
    case Finished(main, wal, _, _) =>
      var built := clean.(temp := Some(main), tempWal := wal);
      if !Ready(b) then [built] + CleanupSteps(built)
      else [built, built.(temp := NewView(b)), built.(temp := NewView(b), tempWal := [])]
  }

  /** The files once the old generation is out of the way. */
  ghost function ServedCleared(d: Disk, env: Environment, deadline: int): Disk
    requires Ticks(env.clock)
  {
    if d.main.None? then d.(wal := [])
    else
      var (m, verdict) := Gated(d.main.value, d.wal, env, 0, deadline);
      d.(main := Some(m), wal := if verdict.TimedOut? then d.wal else [])
  }

  /** Getting the old generation out of the way. */
  ghost function ClearSteps(d: Disk, env: Environment, deadline: int): seq<Disk>
    requires Ticks(env.clock)
  {
    if d.main.None? then [ServedCleared(d, env, deadline)]
    else
      GateSteps(d, env, 0, deadline) +
      if GateFails(d, env, deadline) then [ServedCleared(d, env, deadline)] else []
  }

  /** os.replace, then the left-over sidecars of the old generation. */
  function SwapSteps(d: Disk): seq<Disk> {
    [d.(main := d.temp, temp := None), d.(main := d.temp, temp := None, wal := [])]
  }

  /** The files after every step of one run. */
  ghost function PublishSteps(d: Disk, b: Build, env: Environment, deadline: int): seq<Disk>
    requires Ticks(env.clock)
  {
    if !Ready(b) then BuildSteps(d, b)
    else
      var built := d.(temp := NewView(b), tempWal := []);
      var cleared := ServedCleared(built, env, deadline);
      BuildSteps(d, b) + ClearSteps(built, env, deadline)
      + if GateTimesOut(d, env, deadline) then CleanupSteps(cleared) else SwapSteps(cleared)
  }

  lemma CopyStepsEnd(d: Disk, cs: seq<Copy>)
    requires d.main.Some?
    ensures After(d, CopySteps(d, cs)) == d.(main := Some(CopyAll(d.main.value, d.wal, cs)))
  {
  }

  lemma {:induction false} GateStepsEnd(d: Disk, env: Environment, i: nat, deadline: int)
    requires d.main.Some? && Ticks(env.clock)
    ensures var (m, verdict) := Gated(d.main.value, d.wal, env, i, deadline);
      After(d, GateSteps(d, env, i, deadline)) == d.(main := Some(m), wal := if verdict.Cleared? then [] else d.wal)
    decreases deadline - env.clock(i)
  {
    match env.attempt(i)
    case Complete =>
    case Fails(copied) => CopyStepsEnd(d, copied);
    case Busy(copied) =>
      CopyStepsEnd(d, copied);
      if env.clock(i) < deadline {
        assert env.clock(i) + GATE_POLL_MS <= env.clock(i + 1);
        GateStepsEnd(d.(main := Some(CopyAll(d.main.value, d.wal, copied))), env, i + 1, deadline);
      }
  }

  lemma JoinedSteps(h: seq<Disk>, a: seq<Disk>, b: seq<Disk>, c: seq<Disk>)
    ensures h + a + b + c == h + (a + b + c) && h + a + b == h + (a + b)
  {
  }

  /** A run whose build is ready, in its three parts. */
  lemma ReadySteps(d: Disk, b: Build, env: Environment, deadline: int)
    requires Ticks(env.clock) && Ready(b)
    ensures var built := d.(temp := NewView(b), tempWal := []);
      var cleared := ServedCleared(built, env, deadline);
      var last := if GateTimesOut(built, env, deadline) then CleanupSteps(cleared) else SwapSteps(cleared);
      && PublishSteps(d, b, env, deadline) == BuildSteps(d, b) + ClearSteps(built, env, deadline) + last
      && After(d, PublishSteps(d, b, env, deadline)) == After(cleared, last)
      && (GateTimesOut(built, env, deadline) <==> GateTimesOut(d, env, deadline))
  {
  }

  lemma UnreadySteps(d: Disk, b: Build)
    requires !Ready(b)
    ensures After(d, BuildSteps(d, b)) == d.(temp := None, tempWal := [])
  {
  }

  /** An attempt cut short before the deadline: its copies, then the rest of the loop. */
  lemma BusyTurn(h: seq<Disk>, d: Disk, env: Environment, i: nat, deadline: int)
    requires d.main.Some? && Ticks(env.clock) && env.attempt(i).Busy? && env.clock(i) < deadline
    ensures var cs := env.attempt(i).copied;
      var d' := d.(main := Some(CopyAll(d.main.value, d.wal, cs)));
      && Gated(d.main.value, d.wal, env, i, deadline) == Gated(d'.main.value, d.wal, env, i + 1, deadline)
      && h + GateSteps(d, env, i, deadline) == h + CopySteps(d, cs) + GateSteps(d', env, i + 1, deadline)
  {
    var cs := env.attempt(i).copied;
    assert env.clock(i) + GATE_POLL_MS <= env.clock(i + 1);
    var d' := d.(main := Some(CopyAll(d.main.value, d.wal, cs)));
    JoinedSteps(h, CopySteps(d, cs), GateSteps(d', env, i + 1, deadline), []);
  }

  /** Whatever the gate did, the old catalogue is still there: in the main file alone once it
      cleared, and by a replay otherwise. */
  lemma {:induction false} GateKeepsReplay(main: Pages, wal: seq<Frame>, env: Environment, i: nat, deadline: int)
    requires Ticks(env.clock)
    ensures var (m, v) := Gated(main, wal, env, i, deadline);
      if v.Cleared? then m == Replay(main, wal) else Replay(m, wal) == Replay(main, wal)
    decreases deadline - env.clock(i)
  {
    match env.attempt(i)
    case Complete =>
    case Fails(copied) => CopyAllKeepsReplay(main, wal, copied);
    case Busy(copied) =>
      CopyAllKeepsReplay(main, wal, copied);
      if env.clock(i) < deadline {
        assert env.clock(i) + GATE_POLL_MS <= env.clock(i + 1);
        GateKeepsReplay(CopyAll(main, wal, copied), wal, env, i + 1, deadline);
      }
  }

  lemma TimedOutView(d: Disk, env: Environment, deadline: int)
    requires Ticks(env.clock) && GateTimesOut(d, env, deadline)
    ensures ViewOf(ServedCleared(d, env, deadline)) == ViewOf(d)
  {
    GateKeepsReplay(d.main.value, d.wal, env, 0, deadline);
  }

  // ---- the program ----

  class Files {
    var main: Option<Pages>
    var wal: seq<Frame>
    var temp: Option<Pages>
    var tempWal: seq<Frame>
    /** The files after every step so far. */
    ghost var history: seq<Disk>

    constructor (d: Disk)
      ensures Now() == d && history == []
    {
      main, wal, temp, tempWal, history := d.main, d.wal, d.temp, d.tempWal, [];
    }

    ghost function Now(): Disk
      reads this
    {
      Disk(main, wal, temp, tempWal)
    }

    /** _cleanup_temp. */
    method CleanupTemp()
      modifies this`temp, this`tempWal, this`history
      ensures Now() == old(Now()).(temp := None, tempWal := [])
      ensures history == old(history) + CleanupSteps(old(Now()))
    {
      temp := None;
      history := history + [Now()];
      tempWal := [];
      history := history + [Now()];
    }

    method RemoveWal()
      modifies this`wal, this`history
      ensures Now() == old(Now()).(wal := []) && history == old(history) + [Now()]
    {
      wal := [];
      history := history + [Now()];
    }

    /** The copies a checkpoint makes before it ends or is cut short, page by page. */
    method CopyPages(cs: seq<Copy>)
      requires main.Some?
      modifies this`main, this`history
      ensures Now() == old(Now()).(main := Some(CopyAll(old(main).value, wal, cs)))
      ensures history == old(history) + CopySteps(old(Now()), cs)
    {
      ghost var d := Now();
      assert cs[..0] == [];
      for i := 0 to |cs|
        invariant Now() == d.(main := Some(CopyAll(d.main.value, d.wal, cs[..i])))
        invariant history == old(history) + CopySteps(d, cs[..i])
      {
        assert cs[..i + 1][..i] == cs[..i];
        main := Some(CopyPage(main.value, wal, cs[i]));
        history := history + [Now()];
      }
      assert cs[..|cs|] == cs;
    }

    /** A checkpoint that completes. */
    method Checkpoint()
      requires main.Some?
      modifies this`main, this`wal, this`history
      ensures Now() == old(Now()).(main := Some(Replay(old(main).value, old(wal))), wal := [])
      ensures history == old(history) + CheckpointSteps(old(Now()))
    {
      CopyPages(FullCopy(wal));
      FullCopyReplays(old(main).value, wal);
      RemoveWal();
    }

    /** _gate_old_served_db: the retry loop, within its window. */
    method Gate(env: Environment, start: int) returns (verdict: Verdict, attempts: nat)
      requires main.Some? && Ticks(env.clock) && start <= env.clock(0)
      modifies this`main, this`wal, this`history
      ensures verdict == Gated(old(main).value, old(wal), env, 0, start + GATE_TOTAL_MS).1
      ensures Now() == After(old(Now()), GateSteps(old(Now()), env, 0, start + GATE_TOTAL_MS))
      ensures history == old(history) + GateSteps(old(Now()), env, 0, start + GATE_TOTAL_MS)
      ensures attempts <= 51
    {
      attempts := 0;
      ghost var d, deadline := Now(), start + GATE_TOTAL_MS;
      GateStepsEnd(d, env, 0, deadline);
      while true
        invariant main.Some? && Now() == d.(main := main)
        invariant env.clock(attempts) >= start + GATE_POLL_MS * attempts
        invariant Gated(main.value, wal, env, attempts, deadline) == Gated(d.main.value, d.wal, env, 0, deadline)
        invariant history + GateSteps(Now(), env, attempts, deadline) == old(history) + GateSteps(d, env, 0, deadline)
        invariant attempts <= GATE_TOTAL_MS / GATE_POLL_MS
        decreases GATE_TOTAL_MS / GATE_POLL_MS - attempts
      {
        var result := env.attempt(attempts);
        ghost var turn, before := Now(), history;
        match result {
          case Complete =>
            Checkpoint();
            return Cleared, attempts + 1;
          case Fails(copied) =>
            CopyPages(copied);
            return Unusable, attempts + 1;
          case Busy(copied) =>
            CopyPages(copied);
            if env.clock(attempts) >= start + GATE_TOTAL_MS {
              return TimedOut, attempts + 1;
            }
            assert env.clock(attempts) + GATE_POLL_MS <= env.clock(attempts + 1);
            BusyTurn(before, turn, env, attempts, deadline);
            attempts := attempts + 1;
        }
      }
    }

    /** Everything before the swap that happens to the temporary files only: the build sees a
        fresh path, whatever an earlier run left there. */
    method BuildTemp(build: View -> Build) returns (failed: Option<Outcome>)
      modifies this`temp, this`tempWal, this`history
      ensures history == old(history) + BuildSteps(old(Now()), build(None))
      ensures failed == if Ready(build(None)) then None else Some(BuildFailure(build(None)))
      ensures Now() == old(Now()).(temp := if failed.Some? then None else NewView(build(None)), tempWal := [])
    {
      CleanupTemp();
      var b := build(Open(temp, tempWal));
      if b.Raised? {
        temp, tempWal := Some(b.left), b.leftWal;
        history := history + [Now()];
        CleanupTemp();
        return Some(Failed);
      }
      temp, tempWal := Some(b.main), b.wal;
      history := history + [Now()];
      if !b.stamped || !b.checkpoint.Complete? {
        CleanupTemp();
        return Some(if !b.stamped then Unstamped else if b.checkpoint.Fails? then Failed else TempNotClean);
      }
      temp := Some(Replay(b.main, b.wal));
      history := history + [Now()];
      tempWal := [];
      history := history + [Now()];
      return None;
    }

    /** The gate, or the removal of orphaned sidecars where there is nothing to gate. */
    method ClearServed(env: Environment, start: int) returns (busy: bool)
      requires Ticks(env.clock) && start <= env.clock(0)
      modifies this`main, this`wal, this`history
      ensures busy == GateTimesOut(old(Now()), env, start + GATE_TOTAL_MS)
      ensures Now() == ServedCleared(old(Now()), env, start + GATE_TOTAL_MS)
      ensures history == old(history) + ClearSteps(old(Now()), env, start + GATE_TOTAL_MS)
    {
      if main.None? {
        RemoveWal();
        return false;
      }
      GateStepsEnd(Now(), env, 0, start + GATE_TOTAL_MS);
      var verdict, attempts := Gate(env, start);
      if verdict.Unusable? {
        RemoveWal();
      }
      return verdict.TimedOut?;
    }

    /** os.replace, then the left-over sidecars. */
    method Swap()
      modifies this
      ensures Now() == old(Now()).(main := old(temp), temp := None, wal := [])
      ensures history == old(history) + SwapSteps(old(Now()))
    {
      main, temp := temp, None;
      history := history + [Now()];
      RemoveWal();
    }

    /** From any files, whatever crashed runs left of a temporary build or an orphaned WAL: the
        outcome is the specified one and the history grows by exactly the specified steps. */
    method BuildAndPublish(build: View -> Build, env: Environment, start: int) returns (r: Outcome)
      requires Ticks(env.clock) && start <= env.clock(0)
      modifies this
      ensures r == Ends(old(Now()), build(None), env, start + GATE_TOTAL_MS)
      ensures history == old(history) + PublishSteps(old(Now()), build(None), env, start + GATE_TOTAL_MS)
      ensures Now() == After(old(Now()), PublishSteps(old(Now()), build(None), env, start + GATE_TOTAL_MS))
      ensures EndsBecause(r, old(Now()), build(None), env, start + 5000)
      ensures temp == None && tempWal == []
      ensures r == Published ==> main == Some(Replay(build(None).main, build(None).wal)) && wal == []
      ensures r != Published ==> ViewOf(Now()) == ViewOf(old(Now()))
      ensures r != Published && r != GateBusy ==> main == old(main) && wal == old(wal)
    {
      OutcomeExact(Now(), build(None), env, start + GATE_TOTAL_MS);
      ghost var d, h, b, deadline := Now(), history, build(None), start + GATE_TOTAL_MS;
      var failed := BuildTemp(build);
      if failed.Some? {
        UnreadySteps(d, b);
        return failed.value;
      }
      ghost var built := Now();
      ReadySteps(d, b, env, deadline);
      var busy := ClearServed(env, start);
      ghost var cleared := Now();
      if busy {
        CleanupTemp();
        TimedOutView(d, env, deadline);
        JoinedSteps(h, BuildSteps(d, b), ClearSteps(built, env, deadline), CleanupSteps(cleared));
        return GateBusy;
      }
      Swap();
      JoinedSteps(h, BuildSteps(d, b), ClearSteps(built, env, deadline), SwapSteps(cleared));
      return Published;
    }
  }
}
