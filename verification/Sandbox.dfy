/**
 * Teardown of the UI sandbox. The empty-start check and the stop calls run concurrently: each await is
 * a point where the others may run. The cleanup may touch rows only when armed.
 */
module Sandbox {
  /** How many tables the sandbox can write, and how many pointer columns are cleared before. */
  const TABLES: nat := 33
  const POINTERS: nat := 16

  /** The checks of assertEmpty: 0 is the schema check, k the row count of table k - 1. */
  const CHECKS: nat := 1 + TABLES

  /** One completed statement or call. `passed` is false when it threw or found the wrong thing. */
  datatype Event =
    | Checked(pid: nat, check: nat, passed: bool)
    | StopBegan(code: int)
    | Closed(passed: bool)
    | PointerCleared(index: nat, passed: bool)
    | RowsDeleted(table: nat, passed: bool)
    | Verified(check: nat, passed: bool)
    | Disconnected(passed: bool)
    | Exited(code: int)

  /** A call of claimEmptyStart: at its next check, past all checks but not yet resumed, or finished. */
  datatype Claim = Checking(next: nat, clean: bool) | AllPassed | ClaimOver

  /** Where the one teardown is. */
  datatype Phase =
    | NotStopping
    | Closing
    | Clearing(index: nat)
    | Deleting(table: nat)
    | Verifying(next: nat, clean: bool)
    | Disconnecting
    | Exiting
    | Gone

  datatype State = State(cleanupArmed: bool, exitCode: int, phase: Phase, claims: map<nat, Claim>, trace: seq<Event>)

  datatype Step =
    | BeginClaim(pid: nat)
    | Check(pid: nat, outcome: Reply)
    | ResumeClaim(pid: nat)
    | Stop(code: int)
    | Teardown(outcome: Reply)

  /** What the awaited call gave: what was hoped for, something else (another schema, rows), or a throw. */
  datatype Reply = Good | Bad | Threw

  const INITIAL := State(false, 0, NotStopping, map[], [])

  predicate Stopping(s: State) {
    !s.phase.NotStopping?
  }

  function Log(s: State, e: Event): State {
    s.(trace := s.trace + [e])
  }

  // ----- The steps -------------------------------------------------------------------------------

  /** One check of a claim. A wrong schema and a throw end the claim at once; a table with rows ends it
      after the last count. */
  function NextCheck(next: nat, clean: bool, outcome: Reply): Claim {
    if outcome.Threw? || (outcome.Bad? && next == 0) then ClaimOver
    else if next + 1 < CHECKS then Checking(next + 1, clean && outcome.Good?)
    else if clean && outcome.Good? then AllPassed
    else ClaimOver
  }

  function CheckStep(s: State, pid: nat, outcome: Reply): State
    requires pid in s.claims && s.claims[pid].Checking?
  {
    var Checking(next, clean) := s.claims[pid];
    Log(s.(claims := s.claims[pid := NextCheck(next, clean, outcome)]), Checked(pid, next, outcome.Good?))
  }

  /** After its checks a claim arms the cleanup, unless a stop has begun. */
  function ResumeStep(s: State, pid: nat): State {
    s.(claims := s.claims[pid := ClaimOver], cleanupArmed := s.cleanupArmed || !Stopping(s))
  }

  function StopStep(s: State, code: int): State {
    if Stopping(s) then s
    else Log(s.(phase := Closing, exitCode := code), StopBegan(code))
  }

  /** What the teardown's awaited call is reported as. */
  function TeardownEvent(p: Phase, exitCode: int, passed: bool): Event
    requires !p.NotStopping? && !p.Gone?
  {
    match p
    case Closing => Closed(passed)
    case Clearing(index) => PointerCleared(index, passed)
    case Deleting(table) => RowsDeleted(table, passed)
    case Verifying(next, _) => Verified(next, passed)
    case Disconnecting => Disconnected(passed)
    case Exiting => Exited(exitCode)
  }

  function NextPhase(p: Phase, armed: bool, outcome: Reply): Phase {
    match p
    case NotStopping => NotStopping
    case Closing => if armed then Clearing(0) else Disconnecting
    case Clearing(index) =>
      if !outcome.Good? then Disconnecting else if index + 1 < POINTERS then Clearing(index + 1) else Deleting(0)
    case Deleting(table) =>
      if !outcome.Good? then Disconnecting else if table + 1 < TABLES then Deleting(table + 1) else Verifying(0, true)
    case Verifying(next, clean) =>
      var claim := NextCheck(next, clean, outcome);
      if claim.Checking? then Verifying(claim.next, claim.clean) else Disconnecting
    case Disconnecting => Exiting
    case Exiting => Gone
    case Gone => Gone
  }

  /** Whether the step ends in a catch block. */
  predicate Catches(p: Phase, outcome: Reply) {
    match p
    case Closing => !outcome.Good?
    case Clearing(_) => !outcome.Good?
    case Deleting(_) => !outcome.Good?
    case Verifying(next, clean) => NextCheck(next, clean, outcome).ClaimOver?
    case Disconnecting => !outcome.Good?
    case _ => false
  }

  function TeardownStep(s: State, outcome: Reply): State {
    if s.phase.NotStopping? || s.phase.Gone? then s
    else
      Log(s.(phase := NextPhase(s.phase, s.cleanupArmed, outcome),
             exitCode := if Catches(s.phase, outcome) then 1 else s.exitCode),
          TeardownEvent(s.phase, s.exitCode, outcome.Good?))
  }

  function Next(s: State, step: Step): State {
    match step
    case BeginClaim(pid) => if pid in s.claims then s else s.(claims := s.claims[pid := Checking(0, true)])
    case Check(pid, outcome) => if pid in s.claims && s.claims[pid].Checking? then CheckStep(s, pid, outcome) else s
    case ResumeClaim(pid) => if pid in s.claims && s.claims[pid].AllPassed? then ResumeStep(s, pid) else s
    case Stop(code) => StopStep(s, code)
    case Teardown(outcome) => TeardownStep(s, outcome)
  }

  function Run(steps: seq<Step>): State {
    if steps == [] then INITIAL else Next(Run(steps[..|steps| - 1]), steps[|steps| - 1])
  }

  /** What a teardown left alone does with the first `used` replies that its awaited calls get. */
  function Teardowns(s: State, replies: seq<Reply>, used: nat): State
    requires used <= |replies|
  {
    if used == 0 then s else TeardownStep(Teardowns(s, replies, used - 1), replies[used - 1])
  }

  lemma VerifyingStep(s: State, check: nat, clean: bool, reply: Reply)
    requires s.phase == Verifying(check, clean)
    ensures TeardownStep(s, reply) ==
      var claim := NextCheck(check, clean, reply);
      Log(s.(phase := if claim.Checking? then Verifying(claim.next, claim.clean) else Disconnecting,
             exitCode := if claim.ClaimOver? then 1 else s.exitCode),
          Verified(check, reply.Good?))
  {
  }

  /** Each step of the longest teardown. */
  const SCRIPT: nat := 3 + POINTERS + TABLES + CHECKS

  /** The lifecycle object. `phase` is where stop is suspended; the other fields are the closure's
      variables, the running claims and what happened so far. */
  class SandboxLifecycle {
    var cleanupArmed: bool
    var stopping: bool
    var exitCode: int
    var phase: Phase
    var claims: map<nat, Claim>
    var trace: seq<Event>

    ghost function Now(): State
      reads this
    {
      State(cleanupArmed, exitCode, phase, claims, trace)
    }

    ghost predicate Valid()
      reads this
    {
      stopping == Stopping(Now())
    }

    constructor ()
      ensures Valid() && Now() == INITIAL
    {
      cleanupArmed, stopping, exitCode, phase, claims, trace := false, false, 0, NotStopping, map[], [];
    }

    /** claimEmptyStart once its check succeeded. */
    method Resume(pid: nat)
      requires Valid() && pid in claims && claims[pid].AllPassed?
      modifies this
      ensures Valid() && Now() == Next(old(Now()), ResumeClaim(pid))
    {
      if !stopping {
        cleanupArmed := true;
      }
      claims := claims[pid := ClaimOver];
    }

    /** The first loop of the cleanup, up to the first statement that throws. */
    method ClearPointers(replies: seq<Reply>, from: nat, ghost start: State) returns (used: nat, ok: bool)
      requires Valid() && phase == Clearing(0) && from + POINTERS <= |replies|
      requires Now() == Teardowns(start, replies, from)
      modifies this
      ensures Valid() && from <= used <= from + POINTERS && exitCode == old(exitCode)
      ensures ok ==> Now() == Teardowns(start, replies, used) && phase == Deleting(0)
      ensures !ok ==> Now().(exitCode := 1) == Teardowns(start, replies, used) && phase == Disconnecting
    {
      used := from;
      for index := 0 to POINTERS
        invariant used == from + index && Valid() && exitCode == old(exitCode)
        invariant phase == if index < POINTERS then Clearing(index) else Deleting(0)
        invariant Now() == Teardowns(start, replies, used)
      {
        var passed := replies[used].Good?;
        used := used + 1;
        trace := trace + [PointerCleared(index, passed)];
        if !passed {
          phase := Disconnecting;
          return used, false;
        }
        phase := if index + 1 < POINTERS then Clearing(index + 1) else Deleting(0);
      }
      ok := true;
    }

    /** The second loop of the cleanup. */
    method DeleteRows(replies: seq<Reply>, from: nat, ghost start: State) returns (used: nat, ok: bool)
      requires Valid() && phase == Deleting(0) && from + TABLES <= |replies|
      requires Now() == Teardowns(start, replies, from)
      modifies this
      ensures Valid() && from <= used <= from + TABLES && exitCode == old(exitCode)
      ensures ok ==> Now() == Teardowns(start, replies, used) && phase == Verifying(0, true)
      ensures !ok ==> Now().(exitCode := 1) == Teardowns(start, replies, used) && phase == Disconnecting
    {
      used := from;
      for table := 0 to TABLES
        invariant used == from + table && Valid() && exitCode == old(exitCode)
        invariant phase == if table < TABLES then Deleting(table) else Verifying(0, true)
        invariant Now() == Teardowns(start, replies, used)
      {
        var passed := replies[used].Good?;
        used := used + 1;
        trace := trace + [RowsDeleted(table, passed)];
        if !passed {
          phase := Disconnecting;
          return used, false;
        }
        phase := if table + 1 < TABLES then Deleting(table + 1) else Verifying(0, true);
      }
      ok := true;
    }

    /** The empty check after the cleanup: every table is counted before it throws over one with rows. */
    method AssertEmpty(replies: seq<Reply>, from: nat, ghost start: State) returns (used: nat, ok: bool)
      requires Valid() && phase == Verifying(0, true) && from + CHECKS <= |replies|
      requires Now() == Teardowns(start, replies, from)
      modifies this
      ensures Valid() && phase == Disconnecting && from <= used <= from + CHECKS && exitCode == old(exitCode)
      ensures (if ok then Now() else Now().(exitCode := 1)) == Teardowns(start, replies, used)
    {
      used, ok := from, true;
      for check := 0 to CHECKS
        invariant used == from + check && Valid() && exitCode == old(exitCode)
        invariant phase == if check < CHECKS then Verifying(check, ok) else Disconnecting
        invariant (if check == CHECKS && !ok then Now().(exitCode := 1) else Now()) == Teardowns(start, replies, used)
      {
        var reply := replies[used];
        VerifyingStep(Teardowns(start, replies, used), check, ok, reply);
        used := used + 1;
        trace := trace + [Verified(check, reply.Good?)];
        if reply.Threw? || (reply.Bad? && check == 0) {
          phase := Disconnecting;
          return used, false;
        }
        ok := ok && reply.Good?;
        phase := if check + 1 < CHECKS then Verifying(check + 1, ok) else Disconnecting;
      }
    }

    /** The armed part of stop: the cleanup, then the empty check. */
    method CleanUp(replies: seq<Reply>, from: nat, ghost start: State) returns (used: nat)
      requires Valid() && phase == Clearing(0) && from + POINTERS + TABLES + CHECKS <= |replies|
      requires Now() == Teardowns(start, replies, from)
      modifies this
      ensures Valid() && phase == Disconnecting && from <= used <= from + POINTERS + TABLES + CHECKS
      ensures Now() == Teardowns(start, replies, used)
    {
      var ok;
      used, ok := ClearPointers(replies, from, start);
      if ok {
        used, ok := DeleteRows(replies, used, start);
        if ok {
          used, ok := AssertEmpty(replies, used, start);
        }
      }
      if !ok {
        exitCode := 1;
      }
    }

    /** One stop call left alone, with the reply each of its awaited calls gets. */
    method StopAndExit(code: int, replies: seq<Reply>) returns (used: nat)
      requires Valid() && |replies| >= SCRIPT
      modifies this
      ensures Valid() && used <= |replies|
      ensures Now() == Teardowns(Next(old(Now()), Stop(code)), replies, used)
      ensures old(stopping) ==> Now() == old(Now())
      ensures !old(stopping) ==> phase.Gone?
    {
      if stopping {
        return 0;
      }
      stopping := true;
      exitCode := code;
      phase := Closing;
      trace := trace + [StopBegan(code)];
      ghost var start := Now();
      assert start == Next(old(Now()), Stop(code));
      trace := trace + [Closed(replies[0].Good?)];
      if !replies[0].Good? {
        exitCode := 1;
      }
      used := 1;
      if cleanupArmed {
        phase := Clearing(0);
        used := CleanUp(replies, used, start);
      } else {
        phase := Disconnecting;
      }
      Disconnect(replies, used, start);
      used := used + 2;
    }

    /** The end of stop: the connection pool, then the exit. */
    method Disconnect(replies: seq<Reply>, from: nat, ghost start: State)
      requires Valid() && phase == Disconnecting && from + 2 <= |replies|
      requires Now() == Teardowns(start, replies, from)
      modifies this
      ensures Valid() && phase == Gone && Now() == Teardowns(start, replies, from + 2)
    {
      trace := trace + [Disconnected(replies[from].Good?)];
      if !replies[from].Good? {
        exitCode := 1;
      }
      phase := Exiting;
      assert Now() == Teardowns(start, replies, from + 1);
      trace := trace + [Exited(exitCode)];
      phase := Gone;
    }
  }

  // ----- Rows are touched only when owned --------------------------------------------------------

  /** All checks of one claim passed, within the first `end` events. */
  ghost predicate CheckedClean(trace: seq<Event>, pid: nat, upTo: nat, end: nat) {
    end <= |trace| && forall k :: 0 <= k < upTo ==> Checked(pid, k, true) in trace[..end]
  }

  /** A claim whose schema check and all table checks passed before the first stop began. */
  ghost predicate Owned(trace: seq<Event>) {
    exists pid, end :: CheckedClean(trace, pid, CHECKS, end) &&
      forall i :: 0 <= i < end ==> !trace[i].StopBegan?
  }

  predicate Writes(e: Event) {
    e.PointerCleared? || e.RowsDeleted?
  }

  /** What the trace holds about a claim that is still running. */
  ghost predicate ClaimRight(trace: seq<Event>, pid: nat, claim: Claim) {
    && (claim.Checking? ==> claim.next < CHECKS && (claim.clean ==> CheckedClean(trace, pid, claim.next, |trace|)))
    && (claim.AllPassed? ==> CheckedClean(trace, pid, CHECKS, |trace|))
  }

  ghost predicate ClaimsFollowTrace(s: State) {
    forall pid :: pid in s.claims ==> ClaimRight(s.trace, pid, s.claims[pid])
  }

  ghost predicate NoStopYet(trace: seq<Event>) {
    forall i :: 0 <= i < |trace| ==> !trace[i].StopBegan?
  }

  ghost predicate Ownership(s: State) {
    && ClaimsFollowTrace(s)
    && (Stopping(s) || NoStopYet(s.trace))
    && (s.cleanupArmed ==> Owned(s.trace))
    && (s.phase.Clearing? || s.phase.Deleting? || s.phase.Verifying? ==> s.cleanupArmed)
    && (forall i :: 0 <= i < |s.trace| && Writes(s.trace[i]) ==> Owned(s.trace))
  }

  lemma CheckedCleanGrows(trace: seq<Event>, e: Event, pid: nat, upTo: nat, end: nat)
    requires CheckedClean(trace, pid, upTo, end)
    ensures CheckedClean(trace + [e], pid, upTo, end)
  {
    assert (trace + [e])[..end] == trace[..end];
  }

  lemma OwnedGrows(trace: seq<Event>, e: Event)
    requires Owned(trace)
    ensures Owned(trace + [e])
  {
    var pid, end :| CheckedClean(trace, pid, CHECKS, end) && forall i :: 0 <= i < end ==> !trace[i].StopBegan?;
    CheckedCleanGrows(trace, e, pid, CHECKS, end);
  }

  lemma WholeTraceGrows(trace: seq<Event>, e: Event, pid: nat, upTo: nat)
    requires CheckedClean(trace, pid, upTo, |trace|)
    ensures CheckedClean(trace + [e], pid, upTo, |trace| + 1)
    ensures e == Checked(pid, upTo, true) ==> CheckedClean(trace + [e], pid, upTo + 1, |trace| + 1)
  {
    assert (trace + [e])[..|trace| + 1] == trace + [e];
    assert trace[..|trace|] == trace;
    forall k | 0 <= k < upTo
      ensures Checked(pid, k, true) in trace + [e]
    {
      assert Checked(pid, k, true) in trace[..|trace|];
    }
  }

  /** Logging an event that is no check keeps what the claims know. */
  lemma ClaimsKept(s: State, s': State, e: Event)
    requires ClaimsFollowTrace(s) && s'.claims == s.claims && s'.trace == s.trace + [e]
    ensures ClaimsFollowTrace(s')
  {
    forall pid | pid in s.claims
      ensures ClaimRight(s'.trace, pid, s.claims[pid])
    {
      if s.claims[pid].Checking? && s.claims[pid].clean {
        WholeTraceGrows(s.trace, e, pid, s.claims[pid].next);
      }
      if s.claims[pid].AllPassed? {
        WholeTraceGrows(s.trace, e, pid, CHECKS);
      }
    }
  }

  lemma CheckKeepsClaims(s: State, pid: nat, outcome: Reply)
    requires ClaimsFollowTrace(s) && pid in s.claims && s.claims[pid].Checking?
    ensures ClaimsFollowTrace(CheckStep(s, pid, outcome))
  {
    var Checking(next, clean) := s.claims[pid];
    var e := Checked(pid, next, outcome.Good?);
    ClaimsKept(s, s.(trace := s.trace + [e]), e);
    if clean {
      WholeTraceGrows(s.trace, e, pid, next);
    }
  }

  lemma StepKeepsOwnership(s: State, step: Step)
    requires Ownership(s)
    ensures Ownership(Next(s, step))
  {
    var s' := Next(s, step);
    if |s'.trace| > |s.trace| {
      var e := s'.trace[|s.trace|];
      assert s'.trace == s.trace + [e];
      if Owned(s.trace) {
        OwnedGrows(s.trace, e);
      }
      match step
      case Check(pid, outcome) => CheckKeepsClaims(s, pid, outcome);
      case _ => ClaimsKept(s, s', e);
    } else if step.ResumeClaim? && s'.cleanupArmed && !s.cleanupArmed {
      assert CheckedClean(s.trace, step.pid, CHECKS, |s.trace|);
    }
  }

  /** Main result: in every interleaving, an UPDATE or DELETE occurs only if some claim's schema check and
      all its table checks passed before the first stop began. */
  lemma {:induction false} WritesOnlyOwnedRows(steps: seq<Step>)
    ensures Ownership(Run(steps))
    ensures forall i :: 0 <= i < |Run(steps).trace| && Writes(Run(steps).trace[i]) ==> Owned(Run(steps).trace)
  {
    if steps != [] {
      WritesOnlyOwnedRows(steps[..|steps| - 1]);
      StepKeepsOwnership(Run(steps[..|steps| - 1]), steps[|steps| - 1]);
    }
  }

  // ----- One teardown, in order, one exit --------------------------------------------------------

  /** The place of an event in the teardown; checks of a claim have none. */
  function Rank(e: Event): int {
    match e
    case Checked(_, _, _) => -1
    case StopBegan(_) => 0
    case Closed(_) => 1
    case PointerCleared(index, _) => 2 + index
    case RowsDeleted(table, _) => 2 + POINTERS + table
    case Verified(check, _) => 2 + POINTERS + TABLES + check
    case Disconnected(_) => 2 + POINTERS + TABLES + CHECKS
    case Exited(_) => 3 + POINTERS + TABLES + CHECKS
  }

  /** The teardown events of a trace. */
  function TeardownOf(trace: seq<Event>): seq<Event> {
    if trace == [] then []
    else
      var init, last := TeardownOf(trace[..|trace| - 1]), trace[|trace| - 1];
      if last.Checked? then init else init + [last]
  }

  /** Each event comes later in the teardown than the one before it. */
  ghost predicate InOrder(events: seq<Event>) {
    forall i :: 0 <= i < |events| - 1 ==> Rank(events[i]) < Rank(events[i + 1])
  }

  predicate Failed(e: Event) {
    (e.Closed? || e.PointerCleared? || e.RowsDeleted? || e.Verified? || e.Disconnected?) && !e.passed
  }

  ghost predicate AnyFailed(events: seq<Event>) {
    exists e :: e in events && Failed(e)
  }

  /** The rank that the next event of the phase will have. */
  function NextRank(p: Phase): int {
    match p
    case NotStopping => 0
    case Closing => 1
    case Clearing(index) => 2 + index
    case Deleting(table) => 2 + POINTERS + table
    case Verifying(next, _) => 2 + POINTERS + TABLES + next
    case Disconnecting => 2 + POINTERS + TABLES + CHECKS
    case Exiting => 3 + POINTERS + TABLES + CHECKS
    case Gone => 4 + POINTERS + TABLES + CHECKS
  }

  predicate InRange(p: Phase) {
    (p.Clearing? ==> p.index < POINTERS) && (p.Deleting? ==> p.table < TABLES) && (p.Verifying? ==> p.next < CHECKS)
  }

  predicate CleanupEvent(e: Event) {
    e.PointerCleared? || e.RowsDeleted? || e.Verified?
  }

  ghost predicate CleanupFailed(events: seq<Event>) {
    exists e :: e in events && CleanupEvent(e) && Failed(e)
  }

  /** An armed teardown whose cleanup did not fail is the whole script up to the phase; an unarmed one
      issues no statement at all. */
  ghost predicate Complete(s: State, events: seq<Event>) {
    && (s.cleanupArmed && !CleanupFailed(events) ==>
          |events| == NextRank(s.phase) && forall k :: 0 <= k < |events| ==> Rank(events[k]) == k)
    && (!s.cleanupArmed ==> forall e :: e in events ==> !CleanupEvent(e))
  }

  /** The exit code is the first stop's, or 1 once a step failed. A count that found rows is only
      reported after the last count. */
  ghost predicate CodeRight(s: State, events: seq<Event>) {
    if events == [] then s.phase.NotStopping?
    else
      && events[0].StopBegan?
      && (s.phase.Verifying? && !s.phase.clean ==> CleanupFailed(events))
      && (!(s.phase.Verifying? && !s.phase.clean) ==>
            s.exitCode == if AnyFailed(events) then 1 else events[0].code)
  }

  /** While statements run, none has failed. */
  ghost predicate NoneFailedYet(s: State, events: seq<Event>) {
    s.phase.Clearing? || s.phase.Deleting? || (s.phase.Verifying? && s.phase.clean) ==> !CleanupFailed(events)
  }

  ghost predicate Ordered(s: State, events: seq<Event>) {
    && InRange(s.phase) && InOrder(events)
    && (s.phase.NotStopping? <==> events == [])
    && (forall i :: 0 <= i < |events| ==> Rank(events[i]) < NextRank(s.phase))
    && (s.phase.Gone? <==> events != [] && events[|events| - 1].Exited?)
    && (s.phase.Gone? ==> events[|events| - 1].code == s.exitCode)
    && (s.phase.Clearing? || s.phase.Deleting? || s.phase.Verifying? ==> s.cleanupArmed)
  }

  ghost predicate Discipline(s: State, events: seq<Event>) {
    Ordered(s, events) && Complete(s, events) && CodeRight(s, events) && NoneFailedYet(s, events)
  }

  lemma TeardownGrows(trace: seq<Event>, e: Event)
    ensures TeardownOf(trace + [e]) == if e.Checked? then TeardownOf(trace) else TeardownOf(trace) + [e]
  {
    assert (trace + [e])[..|trace|] == trace;
  }

  lemma FailuresGrow(events: seq<Event>, e: Event)
    ensures AnyFailed(events + [e]) <==> AnyFailed(events) || Failed(e)
    ensures CleanupFailed(events + [e]) <==> CleanupFailed(events) || (CleanupEvent(e) && Failed(e))
  {
    if AnyFailed(events) {
      var f :| f in events && Failed(f);
      assert f in events + [e];
    }
    if CleanupFailed(events) {
      var f :| f in events && CleanupEvent(f) && Failed(f);
      assert f in events + [e];
    }
    assert e in events + [e];
  }

  /** What the lemmas on one teardown step start from. */
  ghost predicate Tears(s: State, outcome: Reply, e: Event) {
    && !s.phase.NotStopping? && !s.phase.Gone?
    && e == TeardownEvent(s.phase, s.exitCode, outcome.Good?)
  }

  lemma TeardownKeepsOrder(s: State, outcome: Reply, events: seq<Event>, e: Event)
    requires Ordered(s, events) && Tears(s, outcome, e)
    ensures Ordered(TeardownStep(s, outcome), events + [e])
  {
    assert Rank(e) == NextRank(s.phase);
    assert Rank(e) < NextRank(NextPhase(s.phase, s.cleanupArmed, outcome));
  }

  lemma TeardownKeepsComplete(s: State, outcome: Reply, events: seq<Event>, e: Event)
    requires Ordered(s, events) && Complete(s, events) && NoneFailedYet(s, events) && Tears(s, outcome, e)
    ensures Complete(TeardownStep(s, outcome), events + [e])
    ensures NoneFailedYet(TeardownStep(s, outcome), events + [e])
  {
    FailuresGrow(events, e);
    assert Rank(e) == NextRank(s.phase);
  }

  lemma TeardownKeepsCode(s: State, outcome: Reply, events: seq<Event>, e: Event)
    requires Ordered(s, events) && CodeRight(s, events) && NoneFailedYet(s, events) && Tears(s, outcome, e)
    ensures CodeRight(TeardownStep(s, outcome), events + [e])
  {
    FailuresGrow(events, e);
    if CleanupFailed(events) {
      assert AnyFailed(events);
    }
  }

  lemma StopKeepsDiscipline(s: State, code: int)
    requires Discipline(s, []) && !Stopping(s)
    ensures Discipline(StopStep(s, code), [StopBegan(code)])
  {
  }

  lemma TeardownKeepsDiscipline(s: State, outcome: Reply)
    requires Discipline(s, TeardownOf(s.trace))
    ensures Discipline(TeardownStep(s, outcome), TeardownOf(TeardownStep(s, outcome).trace))
  {
    if !s.phase.NotStopping? && !s.phase.Gone? {
      var events, e := TeardownOf(s.trace), TeardownEvent(s.phase, s.exitCode, outcome.Good?);
      TeardownGrows(s.trace, e);
      TeardownKeepsOrder(s, outcome, events, e);
      TeardownKeepsComplete(s, outcome, events, e);
      TeardownKeepsCode(s, outcome, events, e);
    }
  }

  lemma StepKeepsDiscipline(s: State, step: Step)
    requires Discipline(s, TeardownOf(s.trace))
    ensures Discipline(Next(s, step), TeardownOf(Next(s, step).trace))
  {
    match step
    case Teardown(outcome) => TeardownKeepsDiscipline(s, outcome);
    case Stop(code) =>
      if !Stopping(s) {
        TeardownGrows(s.trace, StopBegan(code));
        StopKeepsDiscipline(s, code);
      }
    case Check(pid, outcome) =>
      if pid in s.claims && s.claims[pid].Checking? {
        TeardownGrows(s.trace, Checked(pid, s.claims[pid].next, outcome.Good?));
      }
      ClaimsKeepDiscipline(s, Next(s, step), TeardownOf(s.trace));
    case _ => ClaimsKeepDiscipline(s, Next(s, step), TeardownOf(s.trace));
  }

  /** Claims leave the teardown alone, and arm the cleanup only before it. */
  lemma ClaimsKeepDiscipline(s: State, s': State, events: seq<Event>)
    requires Discipline(s, events) && s'.phase == s.phase && s'.exitCode == s.exitCode
    requires s'.cleanupArmed == s.cleanupArmed || !Stopping(s)
    ensures Discipline(s', events)
  {
  }

  lemma {:induction false} RunKeepsDiscipline(steps: seq<Step>)
    ensures Discipline(Run(steps), TeardownOf(Run(steps).trace))
  {
    if steps != [] {
      RunKeepsDiscipline(steps[..|steps| - 1]);
      StepKeepsDiscipline(Run(steps[..|steps| - 1]), steps[|steps| - 1]);
    }
  }

  lemma {:induction false} RankGrows(events: seq<Event>, i: nat, j: nat)
    requires InOrder(events) && i < j < |events|
    ensures Rank(events[i]) < Rank(events[j])
    decreases j
  {
    assert Rank(events[j - 1]) < Rank(events[j - 1 + 1]);
    if i < j - 1 {
      RankGrows(events, i, j - 1);
    }
  }

  /** Main result: in every interleaving of claims and stop calls, teardown steps run at most once and in
      order; exit comes last and at most once, with the first stop's code, or 1 exactly when a step
      failed; and a finished teardown was either unarmed, and issued no statement, or ran the whole
      cleanup unless a statement of it failed. */
  lemma OneOrderlyTeardown(steps: seq<Step>)
    ensures var events := TeardownOf(Run(steps).trace);
      && (forall i, j :: 0 <= i < j < |events| ==> Rank(events[i]) < Rank(events[j]))
      && (forall i :: 0 <= i < |events| && events[i].Exited? ==>
            i == |events| - 1 && events[0].StopBegan? &&
            events[i].code == if AnyFailed(events) then 1 else events[0].code)
      && (Run(steps).phase.Gone? ==>
            if !Run(steps).cleanupArmed then forall e :: e in events ==> !CleanupEvent(e)
            else
              CleanupFailed(events) ||
              (|events| == NextRank(Gone) && forall k :: 0 <= k < |events| ==> Rank(events[k]) == k))
  {
    RunKeepsDiscipline(steps);
    var events := TeardownOf(Run(steps).trace);
    RanksGrow(events);
    ExitIsLast(Run(steps), events);
    if Run(steps).phase.Gone? {
      TeardownIsWhole(Run(steps), events);
    }
  }

  lemma RanksGrow(events: seq<Event>)
    requires InOrder(events)
    ensures forall i, j :: 0 <= i < j < |events| ==> Rank(events[i]) < Rank(events[j])
  {
    forall i, j | 0 <= i < j < |events|
      ensures Rank(events[i]) < Rank(events[j])
    {
      RankGrows(events, i, j);
    }
  }

  lemma ExitIsLast(s: State, events: seq<Event>)
    requires Discipline(s, events)
    ensures forall i :: 0 <= i < |events| && events[i].Exited? ==>
      i == |events| - 1 && events[0].StopBegan? && events[i].code == if AnyFailed(events) then 1 else events[0].code
  {
    forall i | 0 <= i < |events| && events[i].Exited?
      ensures i == |events| - 1 && s.phase.Gone?
    {
      assert Rank(events[i]) < NextRank(s.phase);
      if i < |events| - 1 {
        RankGrows(events, i, |events| - 1);
      }
    }
  }

  lemma TeardownIsWhole(s: State, events: seq<Event>)
    requires Discipline(s, events) && s.phase.Gone?
    ensures !s.cleanupArmed ==> forall e :: e in events ==> !CleanupEvent(e)
    ensures s.cleanupArmed && !CleanupFailed(events) ==>
      |events| == NextRank(Gone) && forall k :: 0 <= k < |events| ==> Rank(events[k]) == k
  {
  }

  // ----- A verified claim arms the cleanup -------------------------------------------------------

  /** The schema check and every table count of the claim have passed. */
  ghost predicate AllChecksPassed(trace: seq<Event>, pid: nat) {
    forall k :: 0 <= k < 34 ==> Checked(pid, k, true) in trace
  }

  ghost predicate StopHasBegun(trace: seq<Event>) {
    exists i :: 0 <= i < |trace| && trace[i].StopBegan?
  }

  /** No check of the claim from `next` on has been made. */
  ghost predicate NoneFrom(trace: seq<Event>, pid: nat, next: nat) {
    forall k: nat, passed :: Checked(pid, k, passed) in trace ==> k < next
  }

  ghost predicate MissesOne(trace: seq<Event>, pid: nat, next: nat) {
    exists k :: 0 <= k < next && Checked(pid, k, true) !in trace
  }

  /** Where a claim stands: it has not begun, is at its next check, has passed all, or is over, and then one
      check of it did not pass, or it armed the cleanup, or a stop had begun. */
  ghost predicate ClaimStands(s: State, pid: nat) {
    if pid !in s.claims then NoneFrom(s.trace, pid, 0)
    else
      match s.claims[pid]
      case Checking(next, clean) =>
        next < CHECKS && NoneFrom(s.trace, pid, next) && (!clean ==> MissesOne(s.trace, pid, next))
      case AllPassed => true
      case ClaimOver => s.cleanupArmed || StopHasBegun(s.trace) || MissesOne(s.trace, pid, CHECKS)
  }

  ghost predicate Standing(s: State) {
    (Stopping(s) <==> StopHasBegun(s.trace)) && forall pid: nat :: ClaimStands(s, pid)
  }

  lemma StoppedGrows(trace: seq<Event>, e: Event)
    ensures StopHasBegun(trace + [e]) <==> StopHasBegun(trace) || e.StopBegan?
  {
    var longer := trace + [e];
    if StopHasBegun(trace) {
      var i :| 0 <= i < |trace| && trace[i].StopBegan?;
      assert longer[i].StopBegan?;
    }
    assert longer[|trace|] == e;
  }

  /** An event that is not a check of the claim leaves it where it stands. */
  lemma OtherEvent(s: State, s': State, e: Event, pid: nat)
    requires ClaimStands(s, pid) && s'.trace == s.trace + [e] && (e.Checked? ==> e.pid != pid)
    requires (pid in s.claims <==> pid in s'.claims) && (pid in s.claims ==> s'.claims[pid] == s.claims[pid])
    requires s.cleanupArmed ==> s'.cleanupArmed
    ensures ClaimStands(s', pid)
  {
    StoppedGrows(s.trace, e);
    forall k: nat, passed
      ensures Checked(pid, k, passed) in s'.trace <==> Checked(pid, k, passed) in s.trace
    {
    }
  }

  lemma OwnCheck(s: State, pid: nat, outcome: Reply)
    requires ClaimStands(s, pid) && pid in s.claims && s.claims[pid].Checking?
    ensures ClaimStands(CheckStep(s, pid, outcome), pid)
  {
    var Checking(next, clean) := s.claims[pid];
    var e, s' := Checked(pid, next, outcome.Good?), CheckStep(s, pid, outcome);
    assert s'.trace == s.trace + [e];
    assert NoneFrom(s'.trace, pid, next + 1);
    if MissesOne(s.trace, pid, next) {
      var k :| 0 <= k < next && Checked(pid, k, true) !in s.trace;
      assert Checked(pid, k, true) !in s'.trace;
      assert MissesOne(s'.trace, pid, next + 1) && MissesOne(s'.trace, pid, CHECKS);
    }
    if !outcome.Good? {
      assert Checked(pid, next, true) !in s'.trace;
      assert MissesOne(s'.trace, pid, next + 1) && MissesOne(s'.trace, pid, CHECKS);
    }
  }

  lemma StepKeepsStanding(s: State, step: Step)
    requires Standing(s)
    ensures Standing(Next(s, step))
    ensures s.cleanupArmed ==> Next(s, step).cleanupArmed
  {
    var s' := Next(s, step);
    if s'.trace != s.trace {
      var e := s'.trace[|s.trace|];
      assert s'.trace == s.trace + [e];
      StoppedGrows(s.trace, e);
      forall pid: nat
        ensures ClaimStands(s', pid)
      {
        assert ClaimStands(s, pid);
        if step.Check? && step.pid == pid {
          OwnCheck(s, pid, step.outcome);
        } else {
          OtherEvent(s, s', e, pid);
        }
      }
    } else {
      forall pid: nat
        ensures ClaimStands(s', pid)
      {
        assert ClaimStands(s, pid);
      }
    }
  }

  lemma {:induction false} RunKeepsStanding(steps: seq<Step>)
    ensures Standing(Run(steps))
  {
    if steps != [] {
      RunKeepsStanding(steps[..|steps| - 1]);
      StepKeepsStanding(Run(steps[..|steps| - 1]), steps[|steps| - 1]);
    }
  }

  lemma {:induction false} StaysArmed(steps: seq<Step>, i: nat)
    requires i <= |steps| && Run(steps[..i]).cleanupArmed
    ensures Run(steps).cleanupArmed
    decreases |steps|
  {
    if i == |steps| {
      assert steps[..i] == steps;
    } else {
      var init := steps[..|steps| - 1];
      assert init[..i] == steps[..i];
      StaysArmed(init, i);
      RunKeepsStanding(init);
      StepKeepsStanding(Run(init), steps[|steps| - 1]);
    }
  }

  lemma PassedClaimArms(s: State, pid: nat)
    requires Standing(s) && AllChecksPassed(s.trace, pid) && !StopHasBegun(s.trace)
    ensures Next(s, ResumeClaim(pid)).cleanupArmed
  {
    assert ClaimStands(s, pid);
    assert Checked(pid, 0, true) in s.trace;
    var next := if s.claims[pid].Checking? then s.claims[pid].next else 0;
    assert Checked(pid, next, true) in s.trace;
  }

  // ----- What a whole teardown consists of -------------------------------------------------------

  lemma {:induction false} TeardownElements(trace: seq<Event>)
    ensures forall e :: e in TeardownOf(trace) <==> e in trace && !e.Checked?
    decreases |trace|
  {
    if trace != [] {
      var init, last := trace[..|trace| - 1], trace[|trace| - 1];
      TeardownElements(init);
      assert trace == init + [last];
    }
  }

  /** The statement is one of the script. */
  predicate Scripted(e: Event) {
    && (e.PointerCleared? ==> e.index < 16) && (e.RowsDeleted? ==> e.table < 33) && (e.Verified? ==> e.check < 34)
  }

  lemma {:induction false} RunIsScripted(steps: seq<Step>)
    ensures forall e :: e in Run(steps).trace ==> Scripted(e)
  {
    if steps != [] {
      var s, step := Run(steps[..|steps| - 1]), steps[|steps| - 1];
      RunIsScripted(steps[..|steps| - 1]);
      RunKeepsDiscipline(steps[..|steps| - 1]);
      if step.Teardown? && !s.phase.NotStopping? && !s.phase.Gone? {
        assert Scripted(TeardownEvent(s.phase, s.exitCode, step.outcome.Good?));
      }
    }
  }

  /** The event at each place of the script. */
  lemma WholeScript(events: seq<Event>)
    requires (forall e :: e in events ==> Scripted(e)) && !CleanupFailed(events)
    requires |events| == NextRank(Gone) && forall k :: 0 <= k < |events| ==> Rank(events[k]) == k
    ensures forall k :: 0 <= k < 16 ==> PointerCleared(k, true) in events
    ensures forall k :: 0 <= k < 33 ==> RowsDeleted(k, true) in events
    ensures forall k :: 0 <= k < 34 ==> Verified(k, true) in events
  {
    forall k | 0 <= k < 16
      ensures PointerCleared(k, true) in events
    {
      AtPlace(events, 2 + k);
    }
    forall k | 0 <= k < 33
      ensures RowsDeleted(k, true) in events
    {
      AtPlace(events, 18 + k);
    }
    forall k | 0 <= k < 34
      ensures Verified(k, true) in events
    {
      AtPlace(events, 51 + k);
    }
  }

  lemma AtPlace(events: seq<Event>, place: nat)
    requires (forall e :: e in events ==> Scripted(e)) && !CleanupFailed(events)
    requires 2 <= place < 85 && place < |events| && Rank(events[place]) == place
    ensures events[place] in events && events[place] ==
      if place < 18 then PointerCleared(place - 2, true)
      else if place < 51 then RowsDeleted(place - 18, true) else Verified(place - 51, true)
  {
    assert events[place] in events && Scripted(events[place]);
  }

  lemma ExitedIsWhole(steps: seq<Step>)
    requires Run(steps).cleanupArmed
    requires exists e :: e in Run(steps).trace && e.Exited?
    requires !CleanupFailed(Run(steps).trace)
    ensures forall k :: 0 <= k < 16 ==> PointerCleared(k, true) in Run(steps).trace
    ensures forall k :: 0 <= k < 33 ==> RowsDeleted(k, true) in Run(steps).trace
    ensures forall k :: 0 <= k < 34 ==> Verified(k, true) in Run(steps).trace
  {
    var s, events := Run(steps), TeardownOf(Run(steps).trace);
    RunKeepsDiscipline(steps);
    RunIsScripted(steps);
    TeardownElements(s.trace);
    var e :| e in s.trace && e.Exited?;
    var i :| 0 <= i < |events| && events[i] == e;
    ExitIsLast(s, events);
    assert !CleanupFailed(events);
    TeardownIsWhole(s, events);
    WholeScript(events);
  }

  /** Main result: in every run, a claim whose schema check and 33 counts have all passed arms the cleanup
      when it is resumed before any stop; and a teardown that exits after that has run the whole cleanup,
      every pointer, every table and every check after it, unless a statement of it failed. */
  lemma VerifiedClaimCleansUp(steps: seq<Step>, i: nat, pid: nat)
    requires i < |steps| && steps[i] == ResumeClaim(pid)
    requires AllChecksPassed(Run(steps[..i]).trace, pid) && !StopHasBegun(Run(steps[..i]).trace)
    ensures Run(steps).cleanupArmed
    ensures var trace := Run(steps).trace;
      (exists e :: e in trace && e.Exited?) && !CleanupFailed(trace) ==>
        && (forall k :: 0 <= k < 16 ==> PointerCleared(k, true) in trace)
        && (forall k :: 0 <= k < 33 ==> RowsDeleted(k, true) in trace)
        && (forall k :: 0 <= k < 34 ==> Verified(k, true) in trace)
  {
    var before := steps[..i];
    RunKeepsStanding(before);
    PassedClaimArms(Run(before), pid);
    assert steps[..i + 1][..i] == before;
    StaysArmed(steps, i + 1);
    var trace := Run(steps).trace;
    if (exists e :: e in trace && e.Exited?) && !CleanupFailed(trace) {
      ExitedIsWhole(steps);
    }
  }
}
