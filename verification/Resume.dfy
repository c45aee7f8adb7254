/**
 The captive-core fetcher and its cursor as a state machine: boot, fetch, emit, save, advance,
 with a failure or a crash possible at every step and any number of restarts.
 */
module Resume {
  import opened Base

  const MAX_LEDGER: int := TWO_32 - 1

  /** The cursor file. Writing it truncates it first, so a crash in between leaves no cursor that reads. */
  datatype Disk = NoFile | Saved(num: uint64) | Corrupt

  datatype Phase =
    | Stopped
    | Preparing(ledger: uint64)
    | Fetching(ledger: uint64)
    | Fetched(ledger: uint64)
    | Handled(ledger: uint64)
    | Writing(ledger: uint64)
    | Kept(ledger: uint64)

  datatype State = State(disk: Disk, phase: Phase, emitted: seq<uint64>)

  datatype Config = Config(start: uint64, stateDir: bool, ignoreCursor: bool) {
    predicate Resumes() { stateDir && !ignoreCursor }
  }

  datatype Action =
    | Boot
    | Prepare(ok: bool)
    | Fetch(ok: bool)
    | Handle(ok: bool)
    | SkipSave
    | Truncate
    | Write
    | SaveFails(truncated: bool)
    | Advance
    | Crash

  /** The block a process starts with, given what it reads from disk. */
  function Choose(cfg: Config, disk: Disk): uint64 {
    if cfg.Resumes() && disk.Saved? then
      var resumeFrom := ToUint64(disk.num + 1);
      if resumeFrom > cfg.start then resumeFrom else cfg.start
    else cfg.start
  }

  /** What one action does; None where it cannot happen. */
  function Next(cfg: Config, s: State, a: Action): Option<State> {
    match (a, s.phase)
    case (Boot, Stopped) =>
      Some(if cfg.Resumes() && s.disk.Corrupt? then s else s.(phase := Preparing(Choose(cfg, s.disk))))
    case (Prepare(ok), Preparing(n)) =>
      Some(s.(phase := if ok && 1 <= n <= MAX_LEDGER then Fetching(n) else Stopped))
    case (Fetch(ok), Fetching(n)) =>
      Some(s.(phase := if ok && n <= MAX_LEDGER then Fetched(n) else Stopped))
    case (Handle(ok), Fetched(n)) =>
      Some(if ok then s.(phase := Handled(n), emitted := s.emitted + [n]) else s.(phase := Stopped))
    case (SkipSave, Handled(n)) =>
      if cfg.stateDir then None else Some(s.(phase := Kept(n)))
    case (Truncate, Handled(n)) =>
      if cfg.stateDir then Some(s.(disk := Corrupt, phase := Writing(n))) else None
    case (Write, Writing(n)) => Some(s.(disk := Saved(n), phase := Kept(n)))
    case (SaveFails(truncated), Handled(n)) =>
      if cfg.stateDir then Some(s.(disk := if truncated then Corrupt else s.disk, phase := Stopped)) else None
    case (Advance, Kept(n)) => Some(s.(phase := Fetching(ToUint64(n + 1))))
    case (Crash, _) => Some(s.(phase := Stopped))
    case _ => None
  }

  function Init(disk: Disk): State { State(disk, Stopped, []) }

  /** The state a run of actions leads to. */
  function Exec(cfg: Config, disk: Disk, run: seq<Action>): Option<State> {
    if run == [] then Some(Init(disk))
    else
      match Exec(cfg, disk, run[..|run| - 1])
      case None => None
      case Some(s) => Next(cfg, s, run[|run| - 1])
  }

  /** Starts at `first`; each next number is the previous one or its successor. */
  predicate Steady(emitted: seq<uint64>, first: uint64) {
    && (emitted != [] ==> emitted[0] == first)
    && forall i :: 0 <= i < |emitted| - 1 ==> Follows(emitted[i], emitted[i + 1])
  }

  predicate Follows(n: int, next: int) { next == n || next == n + 1 }

  function Last(e: seq<uint64>): uint64
    requires e != []
  {
    e[|e| - 1]
  }

  predicate InRange(n: uint64) { 1 <= n <= MAX_LEDGER }

  // ---- no wrap-around ----

  /** Every number past the guards is a ledger number; the next to fetch is at most one beyond. */
  predicate Guarded(s: State) {
    && (forall i :: 0 <= i < |s.emitted| ==> InRange(s.emitted[i]))
    && match s.phase
       case Stopped | Preparing(_) => true
       case Fetching(n) => 1 <= n <= MAX_LEDGER + 1
       case _ => InRange(s.phase.ledger)
  }

  lemma GuardedStep(cfg: Config, s: State, a: Action)
    requires Guarded(s) && Next(cfg, s, a).Some?
    ensures Guarded(Next(cfg, s, a).value)
  {
    hide Choose;
  }

  /** In every run, the ledger number never wraps: when it is incremented it fits 32 bits. */
  lemma {:induction false} NumbersNeverWrap(cfg: Config, disk: Disk, run: seq<Action>)
    requires Exec(cfg, disk, run).Some?
    ensures Guarded(Exec(cfg, disk, run).value)
  {
    if run != [] {
      var init := run[..|run| - 1];
      NumbersNeverWrap(cfg, disk, init);
      var s := Exec(cfg, disk, init).value;
      hide Exec, Choose;
      GuardedStep(cfg, s, run[|run| - 1]);
    }
  }

  // ---- crash safety ----

  /** Nothing but the first block was emitted, perhaps several times. */
  predicate OnlyFirst(emitted: seq<uint64>, first: uint64) {
    forall i :: 0 <= i < |emitted| ==> emitted[i] == first
  }

  /** Until a block is saved the cursor is the initial one; then it is the last number emitted, or one below. */
  predicate CursorFits(disk: Disk, first: uint64, s: State) {
    || (s.disk == disk && OnlyFirst(s.emitted, first))
    || (s.disk.Saved? && s.emitted != [] && first <= s.disk.num <= MAX_LEDGER
        && (s.disk.num == Last(s.emitted) || s.disk.num + 1 == Last(s.emitted)))
  }

  /** What holds in every state of a run that resumes, started with `disk` on disk. */
  predicate Safe(cfg: Config, disk: Disk, s: State) {
    var first := Choose(cfg, disk);
    && Guarded(s)
    && Steady(s.emitted, first)
    && (s.emitted != [] ==> first <= Last(s.emitted))
    && (s.disk.Corrupt? || CursorFits(disk, first, s))
    && match s.phase
       case Stopped => true
       case Handled(n) => !s.disk.Corrupt? && s.emitted != [] && Last(s.emitted) == n
       case Writing(n) => s.disk.Corrupt? && s.emitted != [] && Last(s.emitted) == n
       case Kept(n) => s.disk == Saved(n) && s.emitted != [] && Last(s.emitted) == n
       case _ => !s.disk.Corrupt? && s.phase.ledger == Choose(cfg, s.disk)
  }

  lemma SafeStep(cfg: Config, disk: Disk, s: State, a: Action)
    requires cfg.Resumes() && Safe(cfg, disk, s) && Next(cfg, s, a).Some?
    ensures Safe(cfg, disk, Next(cfg, s, a).value)
  {
    if Emits(s, a) {
      SafeEmission(cfg, disk, s);
    } else {
      QuietStep(cfg, disk, s, a);
    }
  }

  /** Emitting the number that a restart would choose keeps everything in order. */
  lemma SafeEmission(cfg: Config, disk: Disk, s: State)
    requires cfg.Resumes() && Safe(cfg, disk, s) && s.phase.Fetched?
    ensures Safe(cfg, disk, Next(cfg, s, Handle(true)).value)
  {
    var first, n := Choose(cfg, disk), s.phase.ledger;
    var t := Next(cfg, s, Handle(true)).value;
    assert CursorFits(disk, first, s);
    if s.disk == disk && OnlyFirst(s.emitted, first) {
      assert n == first && OnlyFirst(t.emitted, first);
      assert s.emitted != [] ==> Last(s.emitted) == first;
    } else {
      assert n == s.disk.num + 1 && Follows(Last(s.emitted), n);
    }
    hide OnlyFirst, Choose;
    SteadyExtends(s.emitted, first, n);
  }

  lemma SteadyExtends(e: seq<uint64>, first: uint64, n: uint64)
    requires Steady(e, first) && if e == [] then n == first else Follows(Last(e), n)
    ensures Steady(e + [n], first)
  {
  }

  lemma QuietStep(cfg: Config, disk: Disk, s: State, a: Action)
    requires cfg.Resumes() && Safe(cfg, disk, s) && Next(cfg, s, a).Some? && !Emits(s, a)
    ensures Safe(cfg, disk, Next(cfg, s, a).value)
  {
    var t := Next(cfg, s, a).value;
    assert t.emitted == s.emitted;
    hide Steady, OnlyFirst;
    if s.phase.Kept? {
      ChooseAfterSave(cfg, disk, s.phase.ledger);
    }
    hide Choose;
  }

  /** A cursor at or above the first block is what a restart continues from. */
  lemma ChooseAfterSave(cfg: Config, disk: Disk, n: uint64)
    requires cfg.Resumes() && Choose(cfg, disk) <= n <= MAX_LEDGER
    ensures Choose(cfg, Saved(n)) == n + 1
  {
  }

  lemma {:induction false} RunsAreSafe(cfg: Config, disk: Disk, run: seq<Action>)
    requires cfg.Resumes() && Exec(cfg, disk, run).Some?
    ensures Safe(cfg, disk, Exec(cfg, disk, run).value)
  {
    if run != [] {
      RunsAreSafe(cfg, disk, run[..|run| - 1]);
      SafeStep(cfg, disk, Exec(cfg, disk, run[..|run| - 1]).value, run[|run| - 1]);
    }
  }

  /**
   Crash-safe emission: with a cursor in use and none on disk, in every run, whatever fails
   and however often it restarts, the emitted numbers start at the start block and each next
   one is the previous one or its successor; a cursor that reads is the highest number
   emitted or one below it.
   */
  lemma EmissionIsCrashSafe(cfg: Config, run: seq<Action>)
    requires cfg.Resumes() && Exec(cfg, NoFile, run).Some?
    ensures var s := Exec(cfg, NoFile, run).value;
      && Steady(s.emitted, cfg.start)
      && (s.disk.Saved? ==> s.emitted != [] && (s.disk.num == Last(s.emitted) || s.disk.num + 1 == Last(s.emitted)))
      && forall i :: 0 <= i < |s.emitted| ==> s.emitted[i] <= Last(s.emitted)
  {
    RunsAreSafe(cfg, NoFile, run);
    LastIsHighest(Exec(cfg, NoFile, run).value.emitted, cfg.start);
  }

  lemma {:induction false} LastIsHighest(e: seq<uint64>, first: uint64)
    requires Steady(e, first)
    ensures forall i :: 0 <= i < |e| ==> e[i] <= Last(e)
  {
    if |e| > 1 {
      LastIsHighest(e[..|e| - 1], first);
      assert forall i :: 0 <= i < |e| - 1 ==> e[i] == e[..|e| - 1][i];
    }
  }

  // ---- where emission starts ----

  /** Nothing below the start block is emitted or about to be. */
  predicate FromStart(cfg: Config, s: State) {
    && (forall i :: 0 <= i < |s.emitted| ==> cfg.start <= s.emitted[i])
    && (s.phase.Stopped? || cfg.start <= s.phase.ledger)
  }

  /** In every run, with a cursor or without, the start block is a lower bound. */
  lemma {:induction false} NeverBelowStart(cfg: Config, disk: Disk, run: seq<Action>)
    requires Exec(cfg, disk, run).Some?
    ensures FromStart(cfg, Exec(cfg, disk, run).value)
  {
    if run != [] {
      NeverBelowStart(cfg, disk, run[..|run| - 1]);
      NumbersNeverWrap(cfg, disk, run[..|run| - 1]);
    }
  }

  /**
   A run that resumes emits nothing at or below a cursor it could read, unless that is the
   last 64-bit number, and begins right after the cursor or at the start block, whichever is
   higher. A cursor that does not read stops it.
   */
  lemma ResumesAboveTheCursor(cfg: Config, disk: Disk, run: seq<Action>)
    requires cfg.Resumes() && Exec(cfg, disk, run).Some?
    ensures var e := Exec(cfg, disk, run).value.emitted;
      && (disk.Corrupt? ==> e == [])
      && (disk.Saved? && disk.num < TWO_64 - 1 ==> forall i :: 0 <= i < |e| ==> disk.num < e[i])
      && (e != [] ==> cfg.start <= e[0] && (e[0] == cfg.start || (disk.Saved? && e[0] == disk.num + 1)))
  {
    RunsAreSafe(cfg, disk, run);
    NeverBelowStart(cfg, disk, run);
    var s := Exec(cfg, disk, run).value;
    if disk.Corrupt? {
      CorruptStaysStopped(cfg, run);
    }
    NothingBelowFirst(s.emitted, Choose(cfg, disk));
    hide Exec, Safe;
  }

  lemma {:induction false} NothingBelowFirst(e: seq<uint64>, first: uint64)
    requires Steady(e, first)
    ensures forall i :: 0 <= i < |e| ==> first <= e[i]
  {
    if |e| > 1 {
      NothingBelowFirst(e[..|e| - 1], first);
      assert Follows(e[|e| - 2], e[|e| - 2 + 1]);
      assert forall i :: 0 <= i < |e| - 1 ==> e[i] == e[..|e| - 1][i];
    }
  }

  lemma {:induction false} CorruptStaysStopped(cfg: Config, run: seq<Action>)
    requires cfg.Resumes() && Exec(cfg, Corrupt, run).Some?
    ensures Exec(cfg, Corrupt, run).value == Init(Corrupt)
  {
    if run != [] { CorruptStaysStopped(cfg, run[..|run| - 1]); }
  }

  // ---- repeats ----

  /** The action stops the process after a block was emitted and before its cursor is written. */
  predicate StopsBeforeSave(s: State, a: Action) {
    s.phase.Handled? && (a.Crash? || a.SaveFails?)
  }

  predicate Emits(s: State, a: Action) { s.phase.Fetched? && a == Handle(true) }

  /** After `n` was emitted and as long as the process is not stopped before saving it, `n` is saved or about to be. */
  predicate Settled(s: State, n: uint64) {
    || s.phase == Handled(n)
    || s.phase == Writing(n)
    || (s.disk == Saved(n) && !s.phase.Handled? && !s.phase.Writing?)
    || (s.disk.Corrupt? && s.phase.Stopped?)
  }

  lemma SettledStep(cfg: Config, disk: Disk, s: State, a: Action, n: uint64)
    requires cfg.Resumes() && Safe(cfg, disk, s) && Settled(s, n) && Next(cfg, s, a).Some?
    requires !StopsBeforeSave(s, a) && !Emits(s, a)
    ensures Settled(Next(cfg, s, a).value, n)
  {
  }

  lemma {:induction false} PrefixRuns(cfg: Config, disk: Disk, run: seq<Action>, k: nat)
    requires k <= |run| && Exec(cfg, disk, run).Some?
    ensures Exec(cfg, disk, run[..k]).Some?
    decreases |run| - k
  {
    if k < |run| {
      PrefixRuns(cfg, disk, run, k + 1);
      assert run[..k + 1][..k] == run[..k];
    } else {
      assert run[..k] == run;
    }
  }

  lemma PrefixStep(cfg: Config, disk: Disk, run: seq<Action>, k: nat)
    requires k < |run| && Exec(cfg, disk, run).Some?
    ensures Exec(cfg, disk, run[..k]).Some? && Exec(cfg, disk, run[..k + 1]).Some?
    ensures Next(cfg, Exec(cfg, disk, run[..k]).value, run[k]) == Exec(cfg, disk, run[..k + 1])
  {
    PrefixRuns(cfg, disk, run, k);
    PrefixRuns(cfg, disk, run, k + 1);
    assert run[..k + 1][..k] == run[..k];
  }

  /** The state before action `k` of a run. */
  function Before(cfg: Config, disk: Disk, run: seq<Action>, k: nat): State
    requires k <= |run|
  {
    match Exec(cfg, disk, run[..k]) case Some(s) => s case None => Init(disk)
  }

  lemma {:induction false} StaysSettled(cfg: Config, disk: Disk, run: seq<Action>, i: nat, j: nat, n: uint64)
    requires cfg.Resumes() && Exec(cfg, disk, run).Some? && i < j <= |run|
    requires Emits(Before(cfg, disk, run, i), run[i]) && Before(cfg, disk, run, i).phase.ledger == n
    requires forall k :: i < k < j ==>
      !Emits(Before(cfg, disk, run, k), run[k]) && !StopsBeforeSave(Before(cfg, disk, run, k), run[k])
    ensures Settled(Before(cfg, disk, run, j), n)
    decreases j
  {
    hide Safe, Settled, Next, Exec, Emits, StopsBeforeSave;
    BeforeStep(cfg, disk, run, j - 1);
    var s := Before(cfg, disk, run, j - 1);
    hide Before;
    if j > i + 1 {
      StaysSettled(cfg, disk, run, i, j - 1, n);
      SettledStep(cfg, disk, s, run[j - 1], n);
    } else {
      EmittedIsSettled(cfg, s, run[j - 1]);
    }
  }

  lemma BeforeStep(cfg: Config, disk: Disk, run: seq<Action>, k: nat)
    requires cfg.Resumes() && Exec(cfg, disk, run).Some? && k < |run|
    ensures Next(cfg, Before(cfg, disk, run, k), run[k]) == Some(Before(cfg, disk, run, k + 1))
    ensures Safe(cfg, disk, Before(cfg, disk, run, k))
  {
    hide Next, Exec, Safe;
    PrefixStep(cfg, disk, run, k);
    RunsAreSafe(cfg, disk, run[..k]);
  }

  lemma EmittedIsSettled(cfg: Config, s: State, a: Action)
    requires Emits(s, a) && Next(cfg, s, a).Some?
    ensures Settled(Next(cfg, s, a).value, s.phase.ledger)
  {
  }

  /**
   A block is emitted twice in a row only when, in between, the process stopped after handling
   it and before its cursor was written.
   */
  lemma RepeatsOnlyAcrossAnUnsavedStop(cfg: Config, disk: Disk, run: seq<Action>, i: nat, j: nat)
    requires cfg.Resumes() && Exec(cfg, disk, run).Some? && i < j < |run|
    requires Emits(Before(cfg, disk, run, i), run[i]) && Emits(Before(cfg, disk, run, j), run[j])
    requires forall k :: i < k < j ==> !Emits(Before(cfg, disk, run, k), run[k])
    requires Before(cfg, disk, run, i).phase.ledger == Before(cfg, disk, run, j).phase.ledger
    ensures exists k :: i < k < j && StopsBeforeSave(Before(cfg, disk, run, k), run[k])
  {
    if forall k :: i < k < j ==> !StopsBeforeSave(Before(cfg, disk, run, k), run[k]) {
      var n := Before(cfg, disk, run, i).phase.ledger;
      hide Safe, Settled, Next, Exec, Before;
      StaysSettled(cfg, disk, run, i, j, n);
      PrefixRuns(cfg, disk, run, j);
      RunsAreSafe(cfg, disk, run[..j]);
      SettledEmitsNext(cfg, disk, Before(cfg, disk, run, j), n);
    }
  }

  /** From a settled state the next number emitted is another one. */
  lemma SettledEmitsNext(cfg: Config, disk: Disk, s: State, n: uint64)
    requires cfg.Resumes() && Safe(cfg, disk, s) && Settled(s, n) && s.phase.Fetched?
    ensures s.phase.ledger != n
  {
  }

  // ---- without a cursor ----

  lemma OneMore(cfg: Config, disk: Disk, run: seq<Action>, a: Action)
    requires Exec(cfg, disk, run).Some?
    ensures Exec(cfg, disk, run + [a]) == Next(cfg, Exec(cfg, disk, run).value, a)
  {
    assert (run + [a])[..|run|] == run;
  }

  /** A stopped process that does not resume emits the start block again. */
  lemma StartsOver(cfg: Config, disk: Disk, run: seq<Action>) returns (longer: seq<Action>)
    requires !cfg.Resumes() && InRange(cfg.start) && Exec(cfg, disk, run).Some?
    requires Exec(cfg, disk, run).value.phase.Stopped?
    ensures var s := Exec(cfg, disk, run).value;
      Exec(cfg, disk, longer) == Some(s.(phase := Handled(cfg.start), emitted := s.emitted + [cfg.start]))
  {
    OneMore(cfg, disk, run, Boot);
    longer := run + [Boot];
    OneMore(cfg, disk, longer, Prepare(true));
    longer := longer + [Prepare(true)];
    OneMore(cfg, disk, longer, Fetch(true));
    longer := longer + [Fetch(true)];
    OneMore(cfg, disk, longer, Handle(true));
    longer := longer + [Handle(true)];
  }

  /** A process that has handled a block may keep its cursor. */
  lemma Keeps(cfg: Config, disk: Disk, run: seq<Action>) returns (longer: seq<Action>)
    requires Exec(cfg, disk, run).Some? && Exec(cfg, disk, run).value.phase.Handled?
    ensures var s := Exec(cfg, disk, run).value; var t := Exec(cfg, disk, longer);
      t.Some? && t.value.phase == Kept(s.phase.ledger) && t.value.emitted == s.emitted
  {
    longer := run;
    if cfg.stateDir {
      OneMore(cfg, disk, longer, Truncate);
      longer := longer + [Truncate];
      OneMore(cfg, disk, longer, Write);
      longer := longer + [Write];
    } else {
      OneMore(cfg, disk, longer, SkipSave);
      longer := longer + [SkipSave];
    }
  }

  /** It may go on to the next block and then crash. */
  lemma GoesOnAndCrashes(cfg: Config, disk: Disk, run: seq<Action>) returns (longer: seq<Action>)
    requires Exec(cfg, disk, run).Some? && Exec(cfg, disk, run).value.phase.Kept?
    requires Exec(cfg, disk, run).value.phase.ledger < MAX_LEDGER
    ensures var s := Exec(cfg, disk, run).value;
      Exec(cfg, disk, longer) == Some(s.(phase := Stopped, emitted := s.emitted + [s.phase.ledger + 1]))
  {
    longer := run;
    OneMore(cfg, disk, longer, Advance);
    longer := longer + [Advance];
    OneMore(cfg, disk, longer, Fetch(true));
    longer := longer + [Fetch(true)];
    OneMore(cfg, disk, longer, Handle(true));
    longer := longer + [Handle(true)];
    OneMore(cfg, disk, longer, Crash);
    longer := longer + [Crash];
  }

  /** Without a cursor in use a restart goes back: start, start + 1, start. */
  lemma WithoutCursorGoesBack(cfg: Config) returns (run: seq<Action>)
    requires !cfg.Resumes() && 1 <= cfg.start < MAX_LEDGER
    ensures Exec(cfg, NoFile, run).Some?
    ensures Exec(cfg, NoFile, run).value.emitted == [cfg.start, cfg.start + 1, cfg.start]
  {
    run := [];
    hide Next;
    run := StartsOver(cfg, NoFile, run);
    run := Keeps(cfg, NoFile, run);
    run := GoesOnAndCrashes(cfg, NoFile, run);
    run := StartsOver(cfg, NoFile, run);
  }

  /** A process whose start block is the last ledger number, or none at all, never gets past it. */
  predicate NeverPast(cfg: Config, s: State) {
    && OnlyFirst(s.emitted, cfg.start)
    && match s.phase
       case Stopped => true
       case Fetching(n) => n == cfg.start || n > MAX_LEDGER
       case _ => s.phase.ledger == cfg.start
  }

  lemma {:induction false} LastLedgerIsNotPassed(cfg: Config, run: seq<Action>)
    requires !cfg.Resumes() && !(1 <= cfg.start < MAX_LEDGER) && Exec(cfg, NoFile, run).Some?
    ensures NeverPast(cfg, Exec(cfg, NoFile, run).value) && Guarded(Exec(cfg, NoFile, run).value)
  {
    NumbersNeverWrap(cfg, NoFile, run);
    if run != [] {
      LastLedgerIsNotPassed(cfg, run[..|run| - 1]);
    }
  }

  ghost predicate AlwaysSteady(cfg: Config) {
    forall run :: Exec(cfg, NoFile, run).Some? ==> Steady(Exec(cfg, NoFile, run).value.emitted, cfg.start)
  }

  /** Emission is in order in every run exactly when the cursor is in use, or there is no second block to emit. */
  lemma OrderedExactlyWhenResuming(cfg: Config)
    ensures AlwaysSteady(cfg) <==> cfg.Resumes() || !(1 <= cfg.start < MAX_LEDGER)
  {
    if cfg.Resumes() {
      forall run | Exec(cfg, NoFile, run).Some? ensures Steady(Exec(cfg, NoFile, run).value.emitted, cfg.start) {
        EmissionIsCrashSafe(cfg, run);
      }
    } else if 1 <= cfg.start < MAX_LEDGER {
      var run := WithoutCursorGoesBack(cfg);
      var e := Exec(cfg, NoFile, run).value.emitted;
      assert !Follows(e[1], e[2]);
      assert !Steady(e, cfg.start);
    } else {
      forall run | Exec(cfg, NoFile, run).Some? ensures Steady(Exec(cfg, NoFile, run).value.emitted, cfg.start) {
        LastLedgerIsNotPassed(cfg, run);
      }
    }
  }

  lemma Advances(cfg: Config, disk: Disk, run: seq<Action>, n: uint64)
    requires Exec(cfg, disk, run).Some? && Exec(cfg, disk, run).value.phase == Kept(n) && n <= MAX_LEDGER
    ensures Exec(cfg, disk, run + [Advance]) == Some(Exec(cfg, disk, run).value.(phase := Fetching(n + 1)))
  {
    OneMore(cfg, disk, run, Advance);
  }

  lemma Boots(cfg: Config, disk: Disk, run: seq<Action>, ok: bool)
    requires Exec(cfg, disk, run).Some? && Exec(cfg, disk, run).value.phase.Stopped?
    requires !(cfg.Resumes() && Exec(cfg, disk, run).value.disk.Corrupt?)
    ensures var s := Exec(cfg, disk, run).value; var n := Choose(cfg, s.disk);
      Exec(cfg, disk, run + [Boot, Prepare(ok)])
      == Some(s.(phase := if ok && 1 <= n <= MAX_LEDGER then Fetching(n) else Stopped))
  {
    OneMore(cfg, disk, run, Boot);
    OneMore(cfg, disk, run + [Boot], Prepare(ok));
    assert run + [Boot, Prepare(ok)] == run + [Boot] + [Prepare(ok)];
  }

  lemma FetchesAndHandles(cfg: Config, disk: Disk, run: seq<Action>, fetched: bool, handled: bool)
    requires Exec(cfg, disk, run).Some? && Exec(cfg, disk, run).value.phase.Fetching?
    ensures var s := Exec(cfg, disk, run).value; var n := s.phase.ledger;
      if fetched && n <= MAX_LEDGER
      then Exec(cfg, disk, run + [Fetch(fetched), Handle(handled)])
        == Some(if handled then s.(phase := Handled(n), emitted := s.emitted + [n]) else s.(phase := Stopped))
      else Exec(cfg, disk, run + [Fetch(fetched)]) == Some(s.(phase := Stopped))
  {
    OneMore(cfg, disk, run, Fetch(fetched));
    if fetched && Exec(cfg, disk, run).value.phase.ledger <= MAX_LEDGER {
      OneMore(cfg, disk, run + [Fetch(fetched)], Handle(handled));
      assert run + [Fetch(fetched), Handle(handled)] == run + [Fetch(fetched)] + [Handle(handled)];
    }
  }

  // ---- whether anything is emitted again ----

  /** Some continuation of the run emits another block. */
  ghost predicate EmitsAgain(cfg: Config, disk: Disk, run: seq<Action>)
    requires Exec(cfg, disk, run).Some?
  {
    exists more :: Continues(cfg, disk, run, more)
  }

  ghost predicate Continues(cfg: Config, disk: Disk, run: seq<Action>, more: seq<Action>)
    requires Exec(cfg, disk, run).Some?
  {
    var s, t := Exec(cfg, disk, run).value, Exec(cfg, disk, run + more);
    t.Some? && |t.value.emitted| > |s.emitted|
  }

  /** A restart reads its cursor and has a ledger number to start with. */
  predicate CanStart(cfg: Config, disk: Disk) {
    !(cfg.Resumes() && disk.Corrupt?) && InRange(Choose(cfg, disk))
  }

  /** A process that can start emits the block it starts with. */
  lemma StartsAndEmits(cfg: Config, disk: Disk, run: seq<Action>)
    requires Exec(cfg, disk, run).Some? && Exec(cfg, disk, run).value.phase.Stopped?
    requires CanStart(cfg, Exec(cfg, disk, run).value.disk)
    ensures EmitsAgain(cfg, disk, run)
  {
    hide Next, Exec, Choose;
    Boots(cfg, disk, run, true);
    var booted := run + [Boot, Prepare(true)];
    FetchesAndHandles(cfg, disk, booted, true, true);
    assert booted + [Fetch(true), Handle(true)] == run + [Boot, Prepare(true), Fetch(true), Handle(true)];
    assert Continues(cfg, disk, run, [Boot, Prepare(true), Fetch(true), Handle(true)]);
  }

  /** What a run is left with once its process stopped and cannot start. */
  predicate Stuck(cfg: Config, s: State, stopped: State) {
    && s.disk == stopped.disk && s.emitted == stopped.emitted
    && (s.phase.Stopped? || (s.phase.Preparing? && !InRange(s.phase.ledger)))
  }

  lemma {:induction false} StuckForGood(cfg: Config, disk: Disk, run: seq<Action>, more: seq<Action>)
    requires Exec(cfg, disk, run).Some? && Exec(cfg, disk, run).value.phase.Stopped?
    requires !CanStart(cfg, Exec(cfg, disk, run).value.disk) && Exec(cfg, disk, run + more).Some?
    ensures Stuck(cfg, Exec(cfg, disk, run + more).value, Exec(cfg, disk, run).value)
  {
    if more == [] {
      assert run + more == run;
    } else {
      var init, last := more[..|more| - 1], more[|more| - 1];
      assert run + more == (run + init) + [last] && (run + more)[..|run + more| - 1] == run + init;
      StuckForGood(cfg, disk, run, init);
      OneMore(cfg, disk, run + init, last);
      var s, stopped := Exec(cfg, disk, run + init).value, Exec(cfg, disk, run).value;
      hide Exec;
      StuckStep(cfg, s, stopped, last);
    }
  }

  lemma StuckStep(cfg: Config, s: State, stopped: State, a: Action)
    requires Stuck(cfg, s, stopped) && !CanStart(cfg, stopped.disk) && Next(cfg, s, a).Some?
    ensures Stuck(cfg, Next(cfg, s, a).value, stopped)
  {
    hide Choose;
  }

  /**
   A stopped process can emit again exactly when its cursor, if one is in use, reads, and the
   number to start with is a ledger number.
   */
  lemma EmitsAgainExactlyWhen(cfg: Config, disk: Disk, run: seq<Action>)
    requires Exec(cfg, disk, run).Some? && Exec(cfg, disk, run).value.phase.Stopped?
    ensures EmitsAgain(cfg, disk, run) <==> CanStart(cfg, Exec(cfg, disk, run).value.disk)
  {
    hide Exec, Next, Choose, CanStart;
    if CanStart(cfg, Exec(cfg, disk, run).value.disk) {
      StartsAndEmits(cfg, disk, run);
    } else if EmitsAgain(cfg, disk, run) {
      var more :| Continues(cfg, disk, run, more);
      StuckForGood(cfg, disk, run, more);
    }
  }

  /** Writing the cursor is not atomic: a crash in the middle of it is the last thing a resuming fetcher does. */
  lemma CrashWhileSavingIsFinal(cfg: Config) returns (run: seq<Action>)
    requires cfg.Resumes() && InRange(cfg.start)
    ensures Exec(cfg, NoFile, run) == Some(State(Corrupt, Stopped, [cfg.start]))
    ensures !EmitsAgain(cfg, NoFile, run)
  {
    run := [Boot, Prepare(true)];
    assert Exec(cfg, NoFile, []) == Some(Init(NoFile)) && Choose(cfg, NoFile) == cfg.start;
    hide Choose, Exec, CanStart;
    Boots(cfg, NoFile, [], true);
    assert [] + run == run;
    assert Exec(cfg, NoFile, run) == Some(State(NoFile, Fetching(cfg.start), []));
    FetchesAndHandles(cfg, NoFile, run, true, true);
    run := run + [Fetch(true), Handle(true)];
    assert [] + [cfg.start] == [cfg.start];
    assert Exec(cfg, NoFile, run) == Some(State(NoFile, Handled(cfg.start), [cfg.start]));
    OneMore(cfg, NoFile, run, Truncate);
    run := run + [Truncate];
    OneMore(cfg, NoFile, run, Crash);
    run := run + [Crash];
    EmitsAgainExactlyWhen(cfg, NoFile, run);
    CorruptCannotStart(cfg);
  }

  lemma CorruptCannotStart(cfg: Config)
    requires cfg.Resumes()
    ensures !CanStart(cfg, Corrupt)
  {
  }

  // ---- the process ----

  /**
   Whether an existing cursor file can be read, the k-th call out of the process succeeds, and
   a save that fails has truncated the file.
   */
  datatype World = World(readable: bool, succeeds: nat -> bool, truncates: nat -> bool) {
    /** Turn `i` gets as far as handing its block on. */
    predicate HandsOn(i: nat) { succeeds(3 * i + 1) && succeeds(3 * i + 2) }

    /** Turn `i` goes through. */
    predicate TurnOk(cfg: Config, i: nat) { HandsOn(i) && (!cfg.stateDir || succeeds(3 * i + 3)) }

    /** The process gets to its loop. */
    predicate Starts(cfg: Config, disk: Disk) {
      && (!cfg.Resumes() || disk.NoFile? || (readable && disk.Saved?))
      && InRange(Choose(cfg, disk)) && succeeds(0)
    }
  }

  function Consecutive(first: uint64, n: nat): seq<uint64>
    requires first + n <= TWO_64
  {
    seq(n, i requires 0 <= i < n => first + i)
  }

  lemma OneMoreNumber(before: seq<uint64>, first: uint64, n: nat)
    requires first + n < TWO_64
    ensures before + Consecutive(first, n) + [first + n] == before + Consecutive(first, n + 1)
    ensures before + Consecutive(first, 0) == before
  {
    assert Consecutive(first, n + 1) == Consecutive(first, n) + [first + n];
  }

  /** The fetcher process and what outlives it: the cursor file and the blocks handed on. */
  class Fetcher {
    var disk: Disk
    var emitted: seq<uint64>

    ghost function Snapshot(phase: Phase): State
      reads this
    {
      State(disk, phase, emitted)
    }

    constructor ()
      ensures disk == NoFile && emitted == []
    {
      disk, emitted := NoFile, [];
    }

    /**
     Load: no state directory and no file both mean no cursor; a file that cannot be read, or
     does not decode, is an error.
     */
    method Load(stateDir: bool, readable: bool) returns (ok: bool, num: Option<uint64>)
      ensures ok <==> !stateDir || disk.NoFile? || (readable && disk.Saved?)
      ensures ok ==> num == if stateDir && disk.Saved? then Some(disk.num) else None
    {
      if !stateDir {
        return true, None;
      }
      if !disk.NoFile? && !readable {
        return false, None;
      }
      match disk
      case NoFile => return true, None;
      case Saved(n) => return true, Some(n);
      case Corrupt => return false, None;
    }

    /** Save: truncates the file, then writes it; a failure may come before or after truncating. */
    method Save(stateDir: bool, num: uint64, succeeds: bool, truncates: bool) returns (ok: bool)
      modifies this`disk
      ensures ok <==> !stateDir || succeeds
      ensures disk ==
        if !stateDir then old(disk)
        else if succeeds then Saved(num)
        else if truncates then Corrupt
        else old(disk)
    {
      if !stateDir {
        return true;
      }
      if !succeeds && !truncates {
        return false;
      }
      disk := Corrupt;
      if !succeeds {
        return false;
      }
      disk := Saved(num);
      return true;
    }

    /** Where to start: after the cursor if one is in use and not below the start block. */
    method StartLedger(cfg: Config, readable: bool) returns (ok: bool, ledger: uint64)
      ensures ok <==> !cfg.Resumes() || disk.NoFile? || (readable && disk.Saved?)
      ensures ok ==> ledger == Choose(cfg, disk)
    {
      ok, ledger := true, cfg.start;
      if !cfg.ignoreCursor {
        var persisted;
        ok, persisted := Load(cfg.stateDir, readable);
        if ok && persisted.Some? {
          var last: int := persisted.value;
          var resumeFrom := ToUint64(last + 1);
          if resumeFrom > cfg.start {
            ledger := resumeFrom;
          }
        }
      }
    }

    /** The cursor file once `turns` turns from `first` on went through. */
    ghost function SavedAfter(cfg: Config, before: Disk, first: uint64, turns: nat): Disk
      requires first + turns <= TWO_64
    {
      if turns == 0 || !cfg.stateDir then before else Saved(first + turns - 1)
    }

    /**
     One process from boot to its end: it hands on consecutive ledgers from the one it starts
     with until something fails, at the latest past the last ledger number; the block of the
     failing turn is handed on when only the save failed. The actions it took are those of the
     state machine, so all of the above holds of it and of any sequence of such processes and
     crashes.
     */
    method Run(cfg: Config, world: World, ghost disk0: Disk, ghost before: seq<Action>)
      returns (ghost run: seq<Action>, ghost turns: nat)
      requires Exec(cfg, disk0, before) == Some(Snapshot(Stopped))
      modifies this
      ensures before <= run && Exec(cfg, disk0, run) == Some(Snapshot(Stopped))
      ensures !world.Starts(cfg, old(disk)) ==> emitted == old(emitted) && disk == old(disk)
      ensures world.Starts(cfg, old(disk)) ==>
        var first := Choose(cfg, old(disk));
        && first + turns <= MAX_LEDGER + 1
        && (forall i :: 0 <= i < turns ==> world.TurnOk(cfg, i))
        && if first + turns > MAX_LEDGER || !world.HandsOn(turns) then
             emitted == old(emitted) + Consecutive(first, turns) && disk == SavedAfter(cfg, old(disk), first, turns)
           else
             && cfg.stateDir && !world.succeeds(3 * turns + 3)
             && emitted == old(emitted) + Consecutive(first, turns + 1)
             && disk == if world.truncates(3 * turns + 3) then Corrupt else SavedAfter(cfg, old(disk), first, turns)
    {
      hide Exec, Next, Choose;
      run, turns := before, 0;
      var ok, ledger := StartLedger(cfg, world.readable);
      if !ok {
        return;
      }
      Boots(cfg, disk0, run, world.succeeds(0));
      run := run + [Boot, Prepare(world.succeeds(0))];
      if ledger < 1 || ledger > MAX_LEDGER || !world.succeeds(0) {
        return;
      }
      ghost var first := ledger;
      var calls := 1;
      while true
        invariant 1 <= ledger <= MAX_LEDGER + 1 && ledger == first + turns && calls == 3 * turns + 1
        invariant before <= run && Exec(cfg, disk0, run) == Some(Snapshot(Fetching(ledger)))
        invariant forall i :: 0 <= i < turns ==> world.TurnOk(cfg, i)
        invariant emitted == old(emitted) + Consecutive(first, turns)
        invariant disk == SavedAfter(cfg, old(disk), first, turns)
        decreases MAX_LEDGER + 1 - ledger
      {
        ghost var actions;
        ok, actions := Turn(cfg, ledger, world, calls, disk0, run);
        run := run + actions;
        OneMoreNumber(old(emitted), first, turns);
        if !ok {
          return;
        }
        calls, ledger, turns := calls + 3, ledger + 1, turns + 1;
      }
    }

    /** One turn of the loop: fetch, handle, save, advance. */
    method Turn(cfg: Config, ledger: uint64, world: World, call: nat, ghost disk0: Disk, ghost run: seq<Action>)
      returns (ok: bool, ghost actions: seq<Action>)
      requires 1 <= ledger <= MAX_LEDGER + 1 && Exec(cfg, disk0, run) == Some(Snapshot(Fetching(ledger)))
      modifies this
      ensures ok <==>
        && ledger <= MAX_LEDGER && world.succeeds(call) && world.succeeds(call + 1)
        && (!cfg.stateDir || world.succeeds(call + 2))
      ensures Exec(cfg, disk0, run + actions) == Some(Snapshot(if ok then Fetching(ledger + 1) else Stopped))
      ensures if ledger <= MAX_LEDGER && world.succeeds(call) && world.succeeds(call + 1) then
          && emitted == old(emitted) + [ledger]
          && disk ==
             if !cfg.stateDir then old(disk)
             else if world.succeeds(call + 2) then Saved(ledger)
             else if world.truncates(call + 2) then Corrupt
             else old(disk)
        else emitted == old(emitted) && disk == old(disk)
    {
      hide Exec, Next;
      FetchesAndHandles(cfg, disk0, run, world.succeeds(call), world.succeeds(call + 1));
      actions := [Fetch(world.succeeds(call))];
      if ledger > MAX_LEDGER || !world.succeeds(call) {
        return false, actions;
      }
      actions := [Fetch(world.succeeds(call)), Handle(world.succeeds(call + 1))];
      if !world.succeeds(call + 1) {
        return false, actions;
      }
      emitted := emitted + [ledger];
      ghost var before := run + actions;
      ghost var more;
      ok, more := SaveBlock(cfg, ledger, world, call + 2, disk0, before);
      actions := actions + more;
      assert run + actions == before + more;
      if ok {
        Advances(cfg, disk0, before + more, ledger);
        actions := actions + [Advance];
        assert run + actions == before + more + [Advance];
      }
    }

    method SaveBlock(cfg: Config, num: uint64, world: World, call: nat, ghost disk0: Disk, ghost run: seq<Action>)
      returns (ok: bool, ghost actions: seq<Action>)
      requires Exec(cfg, disk0, run) == Some(Snapshot(Handled(num)))
      modifies this`disk
      ensures Exec(cfg, disk0, run + actions) == Some(Snapshot(if ok then Kept(num) else Stopped))
      ensures ok <==> !cfg.stateDir || world.succeeds(call)
      ensures disk ==
        if !cfg.stateDir then old(disk)
        else if world.succeeds(call) then Saved(num)
        else if world.truncates(call) then Corrupt
        else old(disk)
    {
      ok := Save(cfg.stateDir, num, world.succeeds(call), world.truncates(call));
      if !cfg.stateDir {
        actions := [SkipSave];
        OneMore(cfg, disk0, run, SkipSave);
      } else if ok {
        actions := [Truncate, Write];
        OneMore(cfg, disk0, run, Truncate);
        OneMore(cfg, disk0, run + [Truncate], Write);
        assert run + actions == run + [Truncate] + [Write];
      } else {
        actions := [SaveFails(world.truncates(call))];
        OneMore(cfg, disk0, run, SaveFails(world.truncates(call)));
      }
    }
  }
}
