/** The auto-ops endpoints: load the rule, run the commands on it, store it, all in one transaction. */
module AutoOpsService {
  import opened AutoOpsRule
  import opened AutoOpsRequests
  import opened AutoOpsEdits
  import opened Sequences

  datatype Outcome = OK | AlreadyTriggered | NotFound | Failed

  /** Runs one command on the loaded rule. */
  method Handle(rule: Rule, c: Command, now: int) returns (ok: bool)
    requires rule.Valid() && DistinctIds(rule.Value().clauses)
    modifies rule, rule.backing
    ensures rule.Valid() && (rule.backing == old(rule.backing) || fresh(rule.backing))
    ensures ok <==> Apply(old(rule.Value()), c, now).Some?
    ensures ok ==> rule.Value() == Apply(old(rule.Value()), c, now).value
  {
    match c {
      case ChangeOpsType(t) =>
        rule.SetOpsType(t, now);
        ok := true;
      case AddClause(clause) =>
        rule.AddClause(clause, now);
        ok := true;
      case ChangeClause(id, body) =>
        ok := rule.ChangeClause(id, body, now);
      case DeleteClause(id) =>
        var r := rule.DeleteClause(id, now);
        ok := r == Deleted;
    }
  }

  lemma FreshIsDistinct(clauses: seq<Clause>, added: seq<string>)
    requires NoDuplicates(Ids(clauses) + added)
    ensures DistinctIds(clauses)
  {
    var all := Ids(clauses) + added;
    forall i, j | 0 <= i < j < |clauses| ensures clauses[i].id != clauses[j].id {
      assert all[i] != all[j];
    }
  }

  method HandleAll(rule: Rule, cs: seq<Command>, now: int) returns (ok: bool)
    requires rule.Valid() && NoDuplicates(Ids(rule.Value().clauses) + AddedIds(cs))
    modifies rule, rule.backing
    ensures rule.Valid()
    ensures ok <==> ApplyAll(old(rule.Value()), cs, now).Some?
    ensures ok ==> rule.Value() == ApplyAll(old(rule.Value()), cs, now).value
  {
    hide Apply, NoDuplicates, DistinctIds;
    for i := 0 to |cs|
      invariant rule.Valid() && (rule.backing == old(rule.backing) || fresh(rule.backing))
      invariant NoDuplicates(Ids(rule.Value().clauses) + AddedIds(cs[i..]))
      invariant ApplyAll(old(rule.Value()), cs, now) == ApplyAll(rule.Value(), cs[i..], now)
    {
      ghost var rest := cs[i..];
      assert rest[0] == cs[i] && rest[1..] == cs[i + 1..];
      FreshIsDistinct(rule.Value().clauses, AddedIds(rest));
      ghost var row := rule.Value();
      ok := Handle(rule, cs[i], now);
      if !ok {
        return;
      }
      ApplyKeepsFresh(row, rest, now);
    }
    ok := true;
  }

  class Service {
    var rules: map<string, Row>
    /** Calls to the feature service that enabled or disabled a feature. */
    var operations: seq<Operation>
    ghost var executions: seq<string>
    ghost var lost: seq<string>
    ghost var edits: seq<string>

    ghost function World(): World
      reads this
    {
      AutoOpsRequests.World.World(rules, operations, executions, lost, edits)
    }

    method CreateAutoOpsRule(id: string, opsType: OpsType, clauses: seq<Clause>, env: Env) returns (r: Outcome)
      modifies this
      ensures World() == Step(old(World()), Create(id, opsType, clauses, env))
      ensures r == OK <==> id !in old(rules) && clauses != [] && env.published && env.committed
      ensures rules == if r == OK then old(rules)[id := Row(opsType, clauses, 0, env.now, false)] else old(rules)
    {
      var rule := new Rule.Load(Row(opsType, [], 0, env.now, false));
      for i := 0 to |clauses|
        invariant fresh(rule) && fresh(rule.backing) && rule.Valid()
        invariant rule.Value() == Created(opsType, clauses[..i], env.now)
        invariant World() == old(World())
      {
        assert clauses[..i + 1] == clauses[..i] + [clauses[i]];
        rule.AddClause(clauses[i], env.now);
      }
      assert clauses[..|clauses|] == clauses;
      if rule.len == 0 || id in rules || !env.published || !env.committed {
        return Failed;
      }
      rules := rules[id := rule.Value()];
      return OK;
    }

    method UpdateAutoOpsRule(id: string, edit: Edit, env: Env) returns (r: Outcome)
      requires FreshInputs(World(), Update(id, edit, env))
      modifies this
      ensures World() == Step(old(World()), Update(id, edit, env))
      ensures r == OK <==> |edits| == |old(edits)| + 1
      ensures id in old(rules) && WellFormed(old(rules)[id]) ==>
                (r == OK <==> IsAccepted(old(rules)[id], edit) && env.published && env.committed)
      ensures r == OK ==>
                id in old(rules) && id in rules && EditedTo(old(rules)[id], edit, env.now, rules[id])
      ensures rules == if r == OK then old(rules)[id := rules[id]] else old(rules)
    {
      hide ApplyAll, UpdateCommands, EditedTo;
      EmptyEdit(edit);
      var commands := UpdateCommands(edit);
      if commands == [] {
        return Failed;
      }
      if id !in rules {
        return NotFound;
      }
      var rule := new Rule.Load(rules[id]);
      if !Compatible(rules[id], edit) {
        return Failed;
      }
      if WellFormed(rules[id]) {
        EditOutcome(rules[id], edit, env.now);
      }
      AddedIdsOfEdit(edit);
      DistinctIdsMeans(rules[id].clauses + NewClauses(edit));
      assert Ids(rules[id].clauses + NewClauses(edit)) == Ids(rules[id].clauses) + Ids(NewClauses(edit));
      var ok := HandleAll(rule, commands, env.now);
      if !ok || !env.published || !env.committed {
        return Failed;
      }
      EditApplied(rules[id], edit, env.now);
      rules := rules[id := rule.Value()];
      edits := edits + [id];
      return OK;
    }

    method DeleteAutoOpsRule(id: string, env: Env) returns (r: Outcome)
      modifies this
      ensures World() == Step(old(World()), Delete(id, env))
      ensures r == OK <==> id in old(rules) && env.published && env.committed
      ensures rules == if r == OK then old(rules)[id := old(rules)[id].(deleted := true, updatedAt := env.now)]
                       else old(rules)
    {
      if id !in rules {
        return NotFound;
      }
      var rule := new Rule.Load(rules[id]);
      rule.SetDeleted(env.now);
      if !env.published || !env.committed {
        return Failed;
      }
      rules := rules[id := rule.Value()];
      return OK;
    }

    /** The trigger time is written before the feature is switched, and both are undone together only
        on the rule's side. */
    method ExecuteAutoOps(id: string, env: Env) returns (r: Outcome)
      modifies this
      ensures World() == Step(old(World()), Execute(id, env))
      ensures r == OK <==> |executions| == |old(executions)| + 1
      ensures r == AlreadyTriggered <==> id in old(rules) && old(rules)[id].triggeredAt > 0
      ensures r == OK <==> id in old(rules) && old(rules)[id].triggeredAt <= 0 && AllSucceed(env)
      ensures r == OK ==> operations == old(operations) + [Operation(id, old(rules)[id].opsType)]
      ensures rules == if r == OK
                       then old(rules)[id := old(rules)[id].(triggeredAt := env.now, updatedAt := env.now)]
                       else old(rules)
    {
      if id !in rules {
        return NotFound;
      }
      var rule := new Rule.Load(rules[id]);
      if rule.triggeredAt > 0 {
        return AlreadyTriggered;
      }
      rule.SetTriggeredAt(env.now);
      if !env.published {
        return Failed;
      }
      if !env.operated {
        return Failed;
      }
      operations := operations + [Operation(id, rule.opsType)];
      if !env.committed {
        lost := lost + [id];
        return Failed;
      }
      rules := rules[id := rule.Value()];
      executions := executions + [id];
      return OK;
    }
  }
}
