/** What the experiment commands do to an experiment, and what holds along every run of them. Times
    are seconds as the clock reads them. */
module ExperimentRuns {

  const INT64_MAX := 0x7fff_ffff_ffff_ffff
  const MAX_EXPERIMENT_PERIOD := 30 * 24 * 60 * 60

  datatype Status = WAITING | RUNNING | STOPPED | FORCE_STOPPED

  datatype State = State(
    status: Status, startAt: int, stopAt: int, stopped: bool, stoppedAt: int,
    archived: bool, deleted: bool, name: string, description: string)

  datatype Command =
    | Start
    | Finish
    | Stop
    | ChangePeriod(newStartAt: int, newStopAt: int)
    | ChangeStartAt(newStartAt: int)
    | ChangeStopAt(newStopAt: int)
    | ChangeName(newName: string)
    | ChangeDescription(newDescription: string)
    | SetArchived
    | SetDeleted

  function Initial(startAt: int, stopAt: int, name: string, description: string): State {
    State(WAITING, startAt, stopAt, false, INT64_MAX, false, false, name, description)
  }

  predicate Accepts(s: State, c: Command, now: int) {
    match c
    case Start => s.status == WAITING && s.startAt <= now
    case Finish => (s.status == WAITING || s.status == RUNNING) && s.stopAt <= now
    case Stop => !s.stopped
    case ChangePeriod(a, b) => a < b && now < b
    case ChangeStartAt(a) => a < s.stopAt
    case ChangeStopAt(b) => s.startAt < b && now < b
    case _ => true
  }

  function Applied(s: State, c: Command, now: int): State {
    match c
    case Start => s.(status := RUNNING)
    case Finish => s.(status := STOPPED)
    case Stop => s.(stopped := true, status := FORCE_STOPPED, stoppedAt := now)
    case ChangePeriod(a, b) => s.(startAt := a, stopAt := b)
    case ChangeStartAt(a) => s.(startAt := a)
    case ChangeStopAt(b) => s.(stopAt := b)
    case ChangeName(n) => s.(name := n)
    case ChangeDescription(d) => s.(description := d)
    case SetArchived => s.(archived := true)
    case SetDeleted => s.(deleted := true)
  }

  // ----- Runs -----

  /** A command at a time. Its transaction can fail after the experiment was changed in memory, for
      one when the event cannot be published. */
  datatype Step = Step(c: Command, now: int, commits: bool)

  predicate Succeeds(s: State, step: Step) {
    Accepts(s, step.c, step.now) && step.commits
  }

  function Next(s: State, step: Step): State {
    if Succeeds(s, step) then Applied(s, step.c, step.now) else s
  }

  function After(s: State, steps: seq<Step>): State
    decreases steps
  {
    if steps == [] then s else After(Next(s, steps[0]), steps[1..])
  }

  /** The clock does not reach the end of int64. */
  predicate Clocked(steps: seq<Step>) {
    forall i :: 0 <= i < |steps| ==> steps[i].now < INT64_MAX
  }

  // ----- Progress -----

  function Rank(status: Status): nat {
    match status case WAITING => 0 case RUNNING => 1 case STOPPED => 2 case FORCE_STOPPED => 3
  }

  predicate IsTransition(c: Command) {
    c.Start? || c.Finish? || c.Stop?
  }

  function Transitions(s: State, steps: seq<Step>): nat
    decreases steps
  {
    if steps == [] then 0
    else
      var first := if Succeeds(s, steps[0]) && IsTransition(steps[0].c) then 1 else 0;
      first + Transitions(Next(s, steps[0]), steps[1..])
  }

  /** What ties the three signs of a forced stop together. */
  predicate Agrees(s: State) {
    (s.stopped <==> s.status == FORCE_STOPPED) && (s.stopped <==> s.stoppedAt < INT64_MAX)
  }

  predicate Ordered(s: State) {
    s.startAt < s.stopAt
  }

  lemma RankRises(s: State, step: Step)
    requires Agrees(s) && step.now < INT64_MAX
    ensures Agrees(Next(s, step))
    ensures if Succeeds(s, step) && IsTransition(step.c) then Rank(Next(s, step).status) > Rank(s.status)
            else Next(s, step).status == s.status
    ensures Ordered(s) ==> Ordered(Next(s, step))
  {
  }

  /** Every successful start, finish or stop raises the rank, so a run has at most three; the three
      signs of a forced stop always agree, and the period stays in order. */
  lemma {:induction false} RunProgresses(s: State, steps: seq<Step>)
    requires Agrees(s) && Clocked(steps)
    ensures Agrees(After(s, steps))
    ensures Rank(s.status) + Transitions(s, steps) <= Rank(After(s, steps).status) <= 3
    ensures Transitions(s, steps) == 0 ==> After(s, steps).status == s.status
    ensures Ordered(s) ==> Ordered(After(s, steps))
    decreases steps
  {
    if steps != [] {
      RankRises(s, steps[0]);
      RunProgresses(Next(s, steps[0]), steps[1..]);
    }
  }

  // ----- When an experiment is over -----

  predicate IsNotFinished(s: State, t: int) {
    !s.deleted && t < s.stopAt && t < s.stoppedAt
  }

  /** A forced stop is for good: the stop time never changes again. */
  lemma {:induction false} StoppedStaysStopped(s: State, steps: seq<Step>)
    requires s.stopped
    ensures After(s, steps).stopped && After(s, steps).stoppedAt == s.stoppedAt
    decreases steps
  {
    if steps != [] {
      StoppedStaysStopped(Next(s, steps[0]), steps[1..]);
    }
  }

  /** Once Stop succeeds, no later command makes the experiment unfinished again. */
  lemma StopIsFinal(s: State, stop: Step, steps: seq<Step>, t: int)
    requires stop.c.Stop? && Succeeds(s, stop) && stop.now <= t
    ensures !IsNotFinished(After(s, [stop] + steps), t)
  {
    assert ([stop] + steps)[1..] == steps;
    StoppedStaysStopped(Next(s, stop), steps);
  }

  /** A deleted experiment is over for good too. */
  lemma {:induction false} DeletedIsFinal(s: State, steps: seq<Step>, t: int)
    requires s.deleted
    ensures !IsNotFinished(After(s, steps), t)
    decreases steps
  {
    if steps != [] {
      DeletedIsFinal(Next(s, steps[0]), steps[1..], t);
    }
  }

  predicate ChangesStopAt(c: Command) {
    c.ChangePeriod? || c.ChangeStopAt?
  }

  /** An experiment past its stop time stays finished unless a command changes that time. */
  lemma {:induction false} FinishedUntilExtended(s: State, steps: seq<Step>, t: int)
    requires s.stopAt <= t
    requires forall i :: 0 <= i < |steps| ==> !ChangesStopAt(steps[i].c)
    ensures !IsNotFinished(After(s, steps), t)
    decreases steps
  {
    if steps != [] {
      FinishedUntilExtended(Next(s, steps[0]), steps[1..], t);
    }
  }

  lemma FinishHolds(s: State, finish: Step, steps: seq<Step>, t: int)
    requires finish.c.Finish? && Succeeds(s, finish) && finish.now <= t
    requires forall i :: 0 <= i < |steps| ==> !ChangesStopAt(steps[i].c)
    ensures !IsNotFinished(After(s, [finish] + steps), t)
  {
    assert ([finish] + steps)[1..] == steps;
    FinishedUntilExtended(Next(s, finish), steps, t);
  }

  /** Finish, then a later stop time: the status says stopped, the feature is blocked again. */
  lemma FinishIsNotFinal(s: State, finish: Step, extend: Step, t: int)
    requires finish.c.Finish? && Succeeds(s, finish)
    requires extend.c.ChangeStopAt? && Succeeds(Next(s, finish), extend)
    requires finish.now <= extend.now <= t
    ensures var s' := After(s, [finish, extend]);
            s'.status == STOPPED &&
            (IsNotFinished(s', t) <==> !s.deleted && t < s.stoppedAt && t < extend.c.newStopAt)
  {
    assert [finish, extend][1..] == [extend] && [extend][1..] == [];
    assert After(s, [finish, extend]) == After(Next(s, finish), [extend]) == Next(Next(s, finish), extend);
  }

  // ----- When a finished experiment counts as unfinished again -----

  lemma {:induction false} AfterSnoc(s: State, steps: seq<Step>, step: Step)
    ensures After(s, steps + [step]) == Next(After(s, steps), step)
    decreases steps
  {
    if steps == [] {
      assert [step][1..] == [];
    } else {
      assert (steps + [step])[1..] == steps[1..] + [step];
      AfterSnoc(Next(s, steps[0]), steps[1..], step);
    }
  }

  /** The i-th step successfully changes the stop time. */
  predicate Extends(s: State, steps: seq<Step>, i: nat)
    requires i < |steps|
  {
    ChangesStopAt(steps[i].c) && Succeeds(After(s, steps[..i]), steps[i])
  }

  predicate ExtendsLast(s: State, steps: seq<Step>, i: nat)
    requires i < |steps|
  {
    Extends(s, steps, i) && forall j :: i < j < |steps| ==> !Extends(s, steps, j)
  }

  /** The stop time is that of the last successful change. */
  lemma {:induction false} StopAtAfter(s: State, steps: seq<Step>)
    ensures (forall i :: 0 <= i < |steps| ==> !Extends(s, steps, i)) ==> After(s, steps).stopAt == s.stopAt
    ensures forall i :: 0 <= i < |steps| && ExtendsLast(s, steps, i) ==> After(s, steps).stopAt == steps[i].c.newStopAt
    decreases |steps|
  {
    if steps != [] {
      var n := |steps| - 1;
      assert steps == steps[..n] + [steps[n]];
      AfterSnoc(s, steps[..n], steps[n]);
      hide After;
      forall i | 0 <= i < n ensures Extends(s, steps[..n], i) <==> Extends(s, steps, i) {
        assert steps[..n][..i] == steps[..i];
      }
      StopAtAfter(s, steps[..n]);
      var last := After(s, steps[..n]);
      assert Extends(s, steps, n) <==> ChangesStopAt(steps[n].c) && Succeeds(last, steps[n]);
      assert Next(last, steps[n]).stopAt == if Extends(s, steps, n) then steps[n].c.newStopAt else last.stopAt;
      hide Extends;
      forall i | 0 <= i < n
        ensures ExtendsLast(s, steps, i) <==> !Extends(s, steps, n) && ExtendsLast(s, steps[..n], i)
      {
      }
    }
  }

  predicate Commits(steps: seq<Step>, c: Command) {
    exists i :: 0 <= i < |steps| && steps[i].c == c && steps[i].commits
  }

  /** An experiment is stopped or deleted exactly when a command to that effect was committed. */
  lemma {:induction false} EndsExactly(s: State, steps: seq<Step>, t: int)
    requires forall i :: 0 <= i < |steps| ==> steps[i].now <= t
    ensures After(s, steps).deleted <==> s.deleted || Commits(steps, SetDeleted)
    ensures After(s, steps).stopped <==> s.stopped || Commits(steps, Stop)
    ensures if After(s, steps).stopped && !s.stopped then After(s, steps).stoppedAt <= t
            else After(s, steps).stoppedAt == s.stoppedAt
    decreases steps
  {
    if steps != [] {
      forall c ensures Commits(steps, c) <==> (steps[0].c == c && steps[0].commits) || Commits(steps[1..], c) {
        if Commits(steps[1..], c) {
          var i :| 0 <= i < |steps[1..]| && steps[1..][i].c == c && steps[1..][i].commits;
          assert steps[i + 1].c == c;
        }
        if i :| 0 < i < |steps| && steps[i].c == c && steps[i].commits {
          assert steps[1..][i - 1].c == c;
        }
      }
      hide Commits;
      EndsExactly(Next(s, steps[0]), steps[1..], t);
    }
  }

  /** Whatever commands follow a finish: the experiment is unfinished at a later moment if and only if no
      stop and no deletion was committed and the last successful change of the stop time put it after
      that moment. */
  lemma FinishedExactly(s: State, finish: Step, steps: seq<Step>, t: int)
    requires Agrees(s) && finish.c.Finish? && Succeeds(s, finish) && finish.now <= t < INT64_MAX
    requires forall i :: 0 <= i < |steps| ==> steps[i].now <= t
    ensures IsNotFinished(After(s, [finish] + steps), t) <==>
            && !s.deleted && !Commits(steps, Stop) && !Commits(steps, SetDeleted)
            && exists i :: 0 <= i < |steps| && ExtendsLast(Next(s, finish), steps, i) && t < steps[i].c.newStopAt
  {
    var s' := Next(s, finish);
    assert ([finish] + steps)[1..] == steps;
    EndsExactly(s', steps, t);
    StopAtAfter(s', steps);
    hide After, Commits, Extends;
    if exists i :: 0 <= i < |steps| && Extends(s', steps, i) {
      LastOne(s', steps, |steps|);
    }
  }

  lemma {:induction false} LastOne(s: State, steps: seq<Step>, n: nat)
    requires n <= |steps| && forall j :: n <= j < |steps| ==> !Extends(s, steps, j)
    requires exists i :: 0 <= i < |steps| && Extends(s, steps, i)
    ensures exists i :: 0 <= i < |steps| && ExtendsLast(s, steps, i)
  {
    hide Extends;
    if n > 0 && Extends(s, steps, n - 1) {
      assert ExtendsLast(s, steps, n - 1);
    } else if n > 0 {
      LastOne(s, steps, n - 1);
    }
  }

  /** Along every run of a new experiment: when IsNotFinished agrees with its comment, which speaks of the
      status alone. */
  lemma CommentAgreesExactly(startAt: int, stopAt: int, name: string, description: string, steps: seq<Step>, t: int)
    requires t < INT64_MAX && forall i :: 0 <= i < |steps| ==> steps[i].now <= t
    ensures var s := After(Initial(startAt, stopAt, name, description), steps);
            (IsNotFinished(s, t) <==> s.status == WAITING || s.status == RUNNING) <==>
            match s.status
            case FORCE_STOPPED => true
            case STOPPED => s.deleted || s.stopAt <= t
            case _ => !s.deleted && t < s.stopAt
  {
    var s := Initial(startAt, stopAt, name, description);
    RunProgresses(s, steps);
    EndsExactly(s, steps, t);
  }

  // ----- The whole state, read off the commands -----

  /** The period after the commands: a change counts when it is committed, keeps the start before the end
      and, if it moves the end, keeps that ahead of the clock. */
  function PeriodAfter(startAt: int, stopAt: int, steps: seq<Step>): (int, int)
    decreases |steps|
  {
    if steps == [] then (startAt, stopAt)
    else
      var (a, b), x := PeriodAfter(startAt, stopAt, steps[..|steps| - 1]), steps[|steps| - 1];
      if !x.commits then (a, b)
      else match x.c
        case ChangePeriod(a', b') => if a' < b' && x.now < b' then (a', b') else (a, b)
        case ChangeStartAt(a') => if a' < b then (a', b) else (a, b)
        case ChangeStopAt(b') => if a < b' && x.now < b' then (a, b') else (a, b)
        case _ => (a, b)
  }

  /** A committed start, no earlier than the start of the period at the time. */
  predicate StartDue(startAt: int, stopAt: int, steps: seq<Step>, i: nat)
    requires i < |steps|
  {
    steps[i].c == Start && steps[i].commits && PeriodAfter(startAt, stopAt, steps[..i]).0 <= steps[i].now
  }

  /** A committed finish, no earlier than the end of the period at the time. */
  predicate FinishDue(startAt: int, stopAt: int, steps: seq<Step>, i: nat)
    requires i < |steps|
  {
    steps[i].c == Finish && steps[i].commits && PeriodAfter(startAt, stopAt, steps[..i]).1 <= steps[i].now
  }

  predicate Started(startAt: int, stopAt: int, steps: seq<Step>) {
    exists i :: 0 <= i < |steps| && StartDue(startAt, stopAt, steps, i)
  }

  predicate Finished(startAt: int, stopAt: int, steps: seq<Step>) {
    exists i :: 0 <= i < |steps| && FinishDue(startAt, stopAt, steps, i)
  }

  lemma DueSnoc(startAt: int, stopAt: int, steps: seq<Step>)
    requires steps != []
    ensures var n, before := |steps| - 1, steps[..|steps| - 1];
            && (Started(startAt, stopAt, steps) <==>
                  Started(startAt, stopAt, before) || StartDue(startAt, stopAt, steps, n))
            && (Finished(startAt, stopAt, steps) <==>
                  Finished(startAt, stopAt, before) || FinishDue(startAt, stopAt, steps, n))
            && forall c :: Commits(steps, c) <==> Commits(before, c) || (steps[n].c == c && steps[n].commits)
  {
    var n, before := |steps| - 1, steps[..|steps| - 1];
    hide PeriodAfter;
    forall i | 0 <= i < n
      ensures StartDue(startAt, stopAt, before, i) <==> StartDue(startAt, stopAt, steps, i)
      ensures FinishDue(startAt, stopAt, before, i) <==> FinishDue(startAt, stopAt, steps, i)
    {
      assert before[..i] == steps[..i];
    }
    hide StartDue, FinishDue;
    forall c ensures Commits(steps, c) <==> Commits(before, c) || (steps[n].c == c && steps[n].commits) {
      if Commits(before, c) {
        var i :| 0 <= i < n && before[i].c == c && before[i].commits;
        assert steps[i].c == c;
      }
      if i :| 0 <= i < n && steps[i].c == c && steps[i].commits {
        assert before[i].c == c;
      }
    }
  }

  /** Every run of a new experiment: it has been stopped by force if and only if a stop was committed,
      otherwise it is over if and only if a finish was due, otherwise it is running if and only if a start
      was due, otherwise it waits; and its period is the one the changes left. */
  lemma {:induction false} StatusExactly(
    startAt: int, stopAt: int, name: string, description: string, steps: seq<Step>)
    ensures var s := After(Initial(startAt, stopAt, name, description), steps);
            && (s.startAt, s.stopAt) == PeriodAfter(startAt, stopAt, steps)
            && (s.status == FORCE_STOPPED <==> Commits(steps, Stop))
            && (s.status == STOPPED <==> !Commits(steps, Stop) && Finished(startAt, stopAt, steps))
            && (s.status == RUNNING <==>
                  !Commits(steps, Stop) && !Finished(startAt, stopAt, steps) && Started(startAt, stopAt, steps))
            && (s.status == WAITING <==>
                  !Commits(steps, Stop) && !Finished(startAt, stopAt, steps) && !Started(startAt, stopAt, steps))
            && (s.stopped <==> s.status == FORCE_STOPPED)
    decreases |steps|
  {
    if steps != [] {
      var n := |steps| - 1;
      StatusExactly(startAt, stopAt, name, description, steps[..n]);
      assert steps == steps[..n] + [steps[n]];
      AfterSnoc(Initial(startAt, stopAt, name, description), steps[..n], steps[n]);
      DueSnoc(startAt, stopAt, steps);
      hide After, Started, Finished, Commits;
    }
  }

  /** The moment of the first committed stop. */
  predicate StopsFirst(steps: seq<Step>, i: nat)
    requires i < |steps|
  {
    steps[i].c == Stop && steps[i].commits && !Commits(steps[..i], Stop)
  }

  lemma NextFlags(s: State, step: Step)
    ensures var s' := Next(s, step);
            && s'.archived == (s.archived || (step.c == SetArchived && step.commits))
            && s'.deleted == (s.deleted || (step.c == SetDeleted && step.commits))
            && s'.stoppedAt == if step.c == Stop && step.commits && !s.stopped then step.now else s.stoppedAt
  {
  }

  /** A forced stop keeps the moment of the first one, and the two flags are those of committed
      commands. */
  lemma {:induction false} FlagsExactly(
    startAt: int, stopAt: int, name: string, description: string, steps: seq<Step>)
    ensures var s := After(Initial(startAt, stopAt, name, description), steps);
            && (!Commits(steps, Stop) ==> s.stoppedAt == INT64_MAX)
            && (forall i :: 0 <= i < |steps| && StopsFirst(steps, i) ==> s.stoppedAt == steps[i].now)
            && (s.archived <==> Commits(steps, SetArchived)) && (s.deleted <==> Commits(steps, SetDeleted))
    decreases |steps|
  {
    if steps != [] {
      var n, before := |steps| - 1, steps[..|steps| - 1];
      FlagsExactly(startAt, stopAt, name, description, before);
      StatusExactly(startAt, stopAt, name, description, before);
      assert steps == before + [steps[n]];
      AfterSnoc(Initial(startAt, stopAt, name, description), before, steps[n]);
      NextFlags(After(Initial(startAt, stopAt, name, description), before), steps[n]);
      DueSnoc(startAt, stopAt, steps);
      hide After, Started, Finished, PeriodAfter, Next;
      forall i | 0 <= i < n && StopsFirst(steps, i)
        ensures StopsFirst(before, i) && Commits(before, Stop)
      {
        assert before[..i] == steps[..i] && before[i] == steps[i];
      }
      hide Commits;
    }
  }

  /** Every run of a new experiment: it still blocks edits of its feature if and only if no stop and no
      deletion was committed and the end of its period lies ahead. */
  lemma NotFinishedExactly(
    startAt: int, stopAt: int, name: string, description: string, steps: seq<Step>, t: int)
    requires t < INT64_MAX && forall i :: 0 <= i < |steps| ==> steps[i].now <= t
    ensures IsNotFinished(After(Initial(startAt, stopAt, name, description), steps), t) <==>
            !Commits(steps, Stop) && !Commits(steps, SetDeleted) && t < PeriodAfter(startAt, stopAt, steps).1
  {
    StatusExactly(startAt, stopAt, name, description, steps);
    EndsExactly(Initial(startAt, stopAt, name, description), steps, t);
  }

  predicate Renames(step: Step) {
    step.c.ChangeName? && step.commits
  }

  predicate Describes(step: Step) {
    step.c.ChangeDescription? && step.commits
  }

  /** Name and description are those of the last committed change. */
  lemma {:induction false} TextsExactly(s: State, steps: seq<Step>, i: nat)
    requires i < |steps|
    ensures Renames(steps[i]) && (forall j :: i < j < |steps| ==> !Renames(steps[j])) ==>
              After(s, steps).name == steps[i].c.newName
    ensures Describes(steps[i]) && (forall j :: i < j < |steps| ==> !Describes(steps[j])) ==>
              After(s, steps).description == steps[i].c.newDescription
    decreases |steps|
  {
    var n, before := |steps| - 1, steps[..|steps| - 1];
    assert steps == before + [steps[n]];
    AfterSnoc(s, before, steps[n]);
    hide After;
    if i < n {
      TextsExactly(s, before, i);
    }
  }

  lemma {:induction false} TextsStay(s: State, steps: seq<Step>)
    ensures (forall j :: 0 <= j < |steps| ==> !Renames(steps[j])) ==> After(s, steps).name == s.name
    ensures (forall j :: 0 <= j < |steps| ==> !Describes(steps[j])) ==> After(s, steps).description == s.description
    decreases |steps|
  {
    if steps != [] {
      var n, before := |steps| - 1, steps[..|steps| - 1];
      assert steps == before + [steps[n]];
      AfterSnoc(s, before, steps[n]);
      hide After;
      TextsStay(s, before);
    }
  }

  // ----- The period the API accepts -----

  /** Go's int64 subtraction wraps around. */
  function Int64(x: int): (r: int)
    ensures -INT64_MAX - 1 <= r <= INT64_MAX && (x - r) % 0x1_0000_0000_0000_0000 == 0
  {
    (x + INT64_MAX + 1) % 0x1_0000_0000_0000_0000 - INT64_MAX - 1
  }

  predicate IsInt64(x: int) {
    -INT64_MAX - 1 <= x <= INT64_MAX
  }

  /** The creation request's check. */
  predicate PeriodValid(startAt: int, stopAt: int) {
    0 < Int64(stopAt - startAt) <= MAX_EXPERIMENT_PERIOD
  }

  /** The check is about the wrapped difference: an accepted period is in order exactly when the end
      does not lie beyond the range of int64, as it cannot for a start within range. */
  lemma PeriodOrderedExactly(startAt: int, stopAt: int)
    requires IsInt64(startAt) && IsInt64(stopAt) && PeriodValid(startAt, stopAt)
    ensures Ordered(Initial(startAt, stopAt, "", "")) <==> IsInt64(startAt + Int64(stopAt - startAt))
    ensures startAt <= INT64_MAX - MAX_EXPERIMENT_PERIOD ==> startAt < stopAt <= startAt + MAX_EXPERIMENT_PERIOD
  {
  }

  lemma WrappedPeriodAccepted()
    ensures PeriodValid(INT64_MAX, -INT64_MAX - 1) && !Ordered(Initial(INT64_MAX, -INT64_MAX - 1, "", ""))
  {
  }
}
