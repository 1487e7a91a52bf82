/** The experiment object and the check by which a running experiment blocks edits of its feature. */
module ExperimentDomain {
  import opened ExperimentRuns

  /** The goal ids without repetitions, in the order of their first occurrences. */
  function FirstOccurrences(args: seq<string>): (r: seq<string>)
    ensures forall s :: s in r <==> s in args
  {
    if args == [] then []
    else
      var n := |args| - 1;
      assert args == args[..n] + [args[n]];
      if args[n] in args[..n] then FirstOccurrences(args[..n]) else FirstOccurrences(args[..n]) + [args[n]]
  }

  lemma {:induction false} FirstOccurrencesDistinct(args: seq<string>)
    ensures forall i, j :: 0 <= i < j < |FirstOccurrences(args)| ==>
            FirstOccurrences(args)[i] != FirstOccurrences(args)[j]
    ensures (forall i, j :: 0 <= i < j < |args| ==> args[i] != args[j]) ==> FirstOccurrences(args) == args
  {
    if args != [] {
      var n := |args| - 1;
      FirstOccurrencesDistinct(args[..n]);
      assert args == args[..n] + [args[n]];
      var r := FirstOccurrences(args[..n]);
      assert args[n] !in args[..n] ==> forall i :: 0 <= i < |r| ==> r[i] in r && r[i] != args[n];
    }
  }

  method RemoveDuplicated(args: seq<string>) returns (results: seq<string>)
    ensures results == FirstOccurrences(args)
  {
    results := [];
    var encountered: map<string, bool> := map[];
    for i := 0 to |args|
      invariant results == FirstOccurrences(args[..i])
      invariant forall s :: s in encountered <==> s in args[..i]
    {
      assert args[..i + 1][..i] == args[..i];
      if args[i] !in encountered {
        results := results + [args[i]];
        encountered := encountered[args[i] := true];
      }
    }
    assert args[..|args|] == args;
  }

  class Experiment {
    var goalIds: seq<string>
    var status: Status
    var startAt: int
    var stopAt: int
    var stopped: bool
    var stoppedAt: int
    var archived: bool
    var deleted: bool
    var name: string
    var description: string
    var updatedAt: int

    ghost function Abstract(): State
      reads this
    {
      State(status, startAt, stopAt, stopped, stoppedAt, archived, deleted, name, description)
    }

    /** What every command does: all of it, or nothing and an error. */
    twostate predicate Obeys(c: Command, now: int, ok: bool)
      reads this
    {
      && ok == Accepts(old(Abstract()), c, now)
      && Abstract() == (if ok then Applied(old(Abstract()), c, now) else old(Abstract()))
      && updatedAt == (if ok then now else old(updatedAt))
      && goalIds == old(goalIds)
    }

    constructor (ids: seq<string>, startAt: int, stopAt: int, name: string, description: string, now: int)
      ensures Abstract() == Initial(startAt, stopAt, name, description)
      ensures goalIds == FirstOccurrences(ids) && updatedAt == now
    {
      var goals := RemoveDuplicated(ids);
      goalIds := goals;
      this.startAt, this.stopAt, this.name, this.description := startAt, stopAt, name, description;
      stopped, stoppedAt, status, archived, deleted, updatedAt := false, INT64_MAX, WAITING, false, false, now;
    }

    method StartExperiment(now: int) returns (ok: bool)
      modifies this
      ensures Obeys(Start, now, ok)
    {
      if status != WAITING {
        return false;
      }
      if startAt > now {
        return false;
      }
      status := RUNNING;
      updatedAt := now;
      return true;
    }

    method FinishExperiment(now: int) returns (ok: bool)
      modifies this
      ensures Obeys(Finish, now, ok)
    {
      if status != WAITING && status != RUNNING {
        return false;
      }
      if stopAt > now {
        return false;
      }
      status := STOPPED;
      updatedAt := now;
      return true;
    }

    method StopExperiment(now: int) returns (ok: bool)
      modifies this
      ensures Obeys(Stop, now, ok)
    {
      if stopped {
        return false;
      }
      stopped := true;
      status := FORCE_STOPPED;
      stoppedAt := now;
      updatedAt := now;
      return true;
    }

    predicate ValidatePeriod(newStartAt: int, newStopAt: int, now: int) {
      !(newStartAt >= newStopAt) && !(newStopAt <= now)
    }

    method ChangeExperimentPeriod(newStartAt: int, newStopAt: int, now: int) returns (ok: bool)
      modifies this
      ensures Obeys(ChangePeriod(newStartAt, newStopAt), now, ok)
    {
      if !ValidatePeriod(newStartAt, newStopAt, now) {
        return false;
      }
      startAt := newStartAt;
      stopAt := newStopAt;
      updatedAt := now;
      return true;
    }

    method ChangeExperimentStartAt(newStartAt: int, now: int) returns (ok: bool)
      modifies this
      ensures Obeys(ChangeStartAt(newStartAt), now, ok)
    {
      if newStartAt >= stopAt {
        return false;
      }
      startAt := newStartAt;
      updatedAt := now;
      return true;
    }

    method ChangeExperimentStopAt(newStopAt: int, now: int) returns (ok: bool)
      modifies this
      ensures Obeys(ChangeStopAt(newStopAt), now, ok)
    {
      if newStopAt <= startAt {
        return false;
      }
      if newStopAt <= now {
        return false;
      }
      stopAt := newStopAt;
      updatedAt := now;
      return true;
    }

    method NotFinished(t: int) returns (r: bool)
      ensures r == IsNotFinished(Abstract(), t)
    {
      if deleted {
        return false;
      }
      if stopAt <= t {
        return false;
      }
      if stoppedAt <= t {
        return false;
      }
      return true;
    }

    /** The command handler; the caller stores the experiment only when this succeeds. */
    method Handle(c: Command, now: int) returns (ok: bool)
      modifies this
      ensures Obeys(c, now, ok)
    {
      match c
      case Start => ok := StartExperiment(now);
      case Finish => ok := FinishExperiment(now);
      case Stop => ok := StopExperiment(now);
      case ChangePeriod(a, b) => ok := ChangeExperimentPeriod(a, b, now);
      case ChangeStartAt(a) => ok := ChangeExperimentStartAt(a, now);
      case ChangeStopAt(b) => ok := ChangeExperimentStopAt(b, now);
      case ChangeName(n) => name, updatedAt, ok := n, now, true;
      case ChangeDescription(d) => description, updatedAt, ok := d, now, true;
      case SetArchived => archived, updatedAt, ok := true, now, true;
      case SetDeleted => deleted, updatedAt, ok := true, now, true;
    }
  }

  /** Whether any experiment of a feature forbids editing the feature now. */
  method ContainsRunningExperiment(experiments: seq<Experiment>, now: int) returns (r: bool)
    ensures r <==> exists i :: 0 <= i < |experiments| && IsNotFinished(experiments[i].Abstract(), now)
  {
    for i := 0 to |experiments|
      invariant forall k :: 0 <= k < i ==> !IsNotFinished(experiments[k].Abstract(), now)
    {
      var running := experiments[i].NotFinished(now);
      if running {
        return true;
      }
    }
    return false;
  }
}
