/** What the auto-ops requests do to the stored rules, and the two facts that hold over every run:
    a rule always has clauses with distinct ids, and it fires at most once per re-arming edit. */
module AutoOpsRequests {
  import opened AutoOpsRule
  import opened Sequences
  import opened Wrappers

  datatype Command =
    | ChangeOpsType(opsType: OpsType)
    | AddClause(clause: Clause)
    | ChangeClause(id: string, body: Body)
    | DeleteClause(id: string)

  /** An edit request. The ids of added clauses are the fresh UUIDs drawn while handling it. */
  datatype Edit = Edit(
    opsType: Option<OpsType>,
    addRate: seq<Clause>, changeRate: seq<Clause>,
    addDatetime: seq<Clause>, changeDatetime: seq<Clause>,
    addWebhook: seq<Clause>, changeWebhook: seq<Clause>,
    deletes: seq<string>)

  /** What happens around a transaction: whether the domain events are published, whether the call
      that enables or disables the feature succeeds, and whether the database commits. */
  datatype Env = Env(now: int, published: bool, operated: bool, committed: bool)

  datatype Request =
    | Create(id: string, opsType: OpsType, clauses: seq<Clause>, env: Env)
    | Update(id: string, edit: Edit, env: Env)
    | Delete(id: string, env: Env)
    | Execute(id: string, env: Env)

  /** A call to the feature service on behalf of a rule, that enables or disables the rule's feature. */
  datatype Operation = Operation(id: string, opsType: OpsType)

  /** The stored rules and the history of effects: feature operations performed, executions
      committed, operations whose transaction was then lost, and committed edits. */
  datatype World = World(
    rules: map<string, Row>,
    operations: seq<Operation>, executions: seq<string>, lost: seq<string>, edits: seq<string>)

  // ----- Commands -----

  function Apply(row: Row, c: Command, now: int): Option<Row> {
    match c
    case ChangeOpsType(t) => Some(row.(opsType := t, updatedAt := now, triggeredAt := 0))
    case AddClause(clause) => Some(row.(clauses := row.clauses + [clause], updatedAt := now, triggeredAt := 0))
    case ChangeClause(id, body) =>
      if id !in Ids(row.clauses) then None
      else Some(row.(clauses := WithBody(row.clauses, id, body), updatedAt := now, triggeredAt := 0))
    case DeleteClause(id) =>
      if |row.clauses| <= 1 || id !in Ids(row.clauses) then None
      else Some(row.(clauses := Without(row.clauses, id), updatedAt := now, triggeredAt := 0))
  }

  function ApplyAll(row: Row, cs: seq<Command>, now: int): Option<Row>
    decreases cs
  {
    if cs == [] then Some(row)
    else match Apply(row, cs[0], now)
      case None => None
      case Some(row') => ApplyAll(row', cs[1..], now)
  }

  function Adds(clauses: seq<Clause>): (cs: seq<Command>)
    ensures |cs| == |clauses|
  {
    seq(|clauses|, i requires 0 <= i < |clauses| => AddClause(clauses[i]))
  }

  function Changes(clauses: seq<Clause>): (cs: seq<Command>)
    ensures |cs| == |clauses|
  {
    seq(|clauses|, i requires 0 <= i < |clauses| => ChangeClause(clauses[i].id, clauses[i].body))
  }

  function Deletes(ids: seq<string>): (cs: seq<Command>)
    ensures |cs| == |ids|
  {
    seq(|ids|, i requires 0 <= i < |ids| => DeleteClause(ids[i]))
  }

  /** The order in which an edit request is carried out: deletions come last. */
  function UpdateCommands(e: Edit): seq<Command> {
    (if e.opsType.Some? then [ChangeOpsType(e.opsType.value)] else [])
    + Adds(e.addRate) + Changes(e.changeRate)
    + Adds(e.addDatetime) + Changes(e.changeDatetime)
    + Adds(e.addWebhook) + Changes(e.changeWebhook)
    + Deletes(e.deletes)
  }

  predicate WellFormed(row: Row) {
    row.clauses != [] && DistinctIds(row.clauses)
  }

  // ----- Requests -----

  /** Rate clauses may not be added to a rule that enables the feature. */
  predicate Compatible(row: Row, e: Edit) {
    |e.addRate| > 0 ==> (if e.opsType.Some? then e.opsType.value else row.opsType) != EnableFeature
  }

  function Created(opsType: OpsType, clauses: seq<Clause>, now: int): Row {
    Row(opsType, clauses, 0, now, false)
  }

  function Step(w: World, r: Request): World {
    match r
    case Create(id, opsType, clauses, env) =>
      if id in w.rules || clauses == [] || !env.published || !env.committed then w
      else w.(rules := w.rules[id := Created(opsType, clauses, env.now)])
    case Update(id, e, env) =>
      if id !in w.rules || UpdateCommands(e) == [] || !Compatible(w.rules[id], e) then w
      else match ApplyAll(w.rules[id], UpdateCommands(e), env.now) {
        case None => w
        case Some(row) =>
          if !env.published || !env.committed then w
          else w.(rules := w.rules[id := row], edits := w.edits + [id])
      }
    case Delete(id, env) =>
      if id !in w.rules || !env.published || !env.committed then w
      else w.(rules := w.rules[id := w.rules[id].(deleted := true, updatedAt := env.now)])
    case Execute(id, env) =>
      if id !in w.rules || w.rules[id].triggeredAt > 0 || !env.published || !env.operated then w
      else if !env.committed then
        w.(operations := w.operations + [Operation(id, w.rules[id].opsType)], lost := w.lost + [id])
      else w.(rules := w.rules[id := w.rules[id].(triggeredAt := env.now, updatedAt := env.now)],
              operations := w.operations + [Operation(id, w.rules[id].opsType)], executions := w.executions + [id])
  }

  function Run(w: World, rs: seq<Request>): World
    decreases |rs|
  {
    if rs == [] then w else Step(Run(w, rs[..|rs| - 1]), rs[|rs| - 1])
  }

  function NewClauses(e: Edit): seq<Clause> {
    e.addRate + e.addDatetime + e.addWebhook
  }

  /** Changes and deletions name stored clauses, not the ones the same edit adds. */
  predicate NamesStored(e: Edit) {
    && (forall c :: c in e.changeRate + e.changeDatetime + e.changeWebhook ==> c.id !in Ids(NewClauses(e)))
    && (forall d :: d in e.deletes ==> d !in Ids(NewClauses(e)))
  }

  /** The UUIDs drawn are fresh, also among the ids the request names, and the clock is past the
      epoch. */
  predicate FreshInputs(w: World, r: Request) {
    match r
    case Create(_, _, clauses, env) => DistinctIds(clauses) && env.now > 0
    case Update(id, e, env) =>
      env.now > 0 && NamesStored(e) && (id in w.rules ==> DistinctIds(w.rules[id].clauses + NewClauses(e)))
    case Delete(_, env) => env.now > 0
    case Execute(_, env) => env.now > 0
  }

  ghost predicate FreshRun(w: World, rs: seq<Request>) {
    forall n :: 0 <= n < |rs| ==> FreshInputs(Run(w, rs[..n]), rs[n])
  }

  // ----- Clauses: never empty, ids distinct -----

  lemma DropOne(ids: seq<string>, k: nat)
    requires k < |ids| && NoDuplicates(ids)
    ensures NoDuplicates(ids[..k] + ids[k + 1..])
    ensures forall x :: x in ids[..k] + ids[k + 1..] <==> x in ids && x != ids[k]
  {
  }

  lemma DistinctIdsMeans(clauses: seq<Clause>)
    ensures DistinctIds(clauses) <==> NoDuplicates(Ids(clauses))
  {
  }

  lemma WithoutIds(clauses: seq<Clause>, id: string)
    requires DistinctIds(clauses) && id in Ids(clauses)
    ensures DistinctIds(Without(clauses, id)) && |Without(clauses, id)| == |clauses| - 1
    ensures forall x :: x in Ids(Without(clauses, id)) <==> x in Ids(clauses) && x != id
  {
    hide Without, NoDuplicates;
    var k :| 0 <= k < |clauses| && Ids(clauses)[k] == id;
    assert OnlyAt(clauses, k);
    hide DistinctIds;
    WithoutAt(clauses, k);
    DistinctIdsMeans(clauses);
    DropOne(Ids(clauses), k);
    assert Ids(clauses[..k] + clauses[k + 1..]) == Ids(clauses)[..k] + Ids(clauses)[k + 1..];
    DistinctIdsMeans(Without(clauses, id));
  }

  lemma {:induction false} ApplyConcat(row: Row, a: seq<Command>, b: seq<Command>, now: int)
    ensures ApplyAll(row, a + b, now) ==
            if ApplyAll(row, a, now).None? then None else ApplyAll(ApplyAll(row, a, now).value, b, now)
    decreases a
  {
    if a == [] {
      assert a + b == b;
    } else {
      assert (a + b)[1..] == a[1..] + b;
      if Apply(row, a[0], now).Some? {
        ApplyConcat(Apply(row, a[0], now).value, a[1..], b, now);
      }
    }
  }

  /** Every successful command re-arms the rule. */
  lemma {:induction false} ApplyRearms(row: Row, cs: seq<Command>, now: int)
    requires ApplyAll(row, cs, now).Some? && cs != []
    ensures ApplyAll(row, cs, now).value.triggeredAt == 0
    decreases cs
  {
    if |cs| > 1 {
      ApplyRearms(Apply(row, cs[0], now).value, cs[1..], now);
    }
  }

  lemma {:induction false} ApplyAdds(row: Row, clauses: seq<Clause>, now: int)
    ensures ApplyAll(row, Adds(clauses), now).Some?
    ensures ApplyAll(row, Adds(clauses), now).value.clauses == row.clauses + clauses
    decreases clauses
  {
    if clauses != [] {
      assert Adds(clauses)[1..] == Adds(clauses[1..]);
      ApplyAdds(Apply(row, AddClause(clauses[0]), now).value, clauses[1..], now);
    }
  }

  lemma {:induction false} ApplyChanges(row: Row, clauses: seq<Clause>, now: int)
    ensures ApplyAll(row, Changes(clauses), now).Some? <==> forall c :: c in clauses ==> c.id in Ids(row.clauses)
    ensures ApplyAll(row, Changes(clauses), now).Some? ==>
            Ids(ApplyAll(row, Changes(clauses), now).value.clauses) == Ids(row.clauses)
    decreases clauses
  {
    if clauses != [] {
      assert Changes(clauses)[1..] == Changes(clauses[1..]);
      assert forall c :: c in clauses <==> c == clauses[0] || c in clauses[1..];
      if clauses[0].id in Ids(row.clauses) {
        assert Ids(WithBody(row.clauses, clauses[0].id, clauses[0].body)) == Ids(row.clauses);
        ApplyChanges(Apply(row, Changes(clauses)[0], now).value, clauses[1..], now);
      }
    }
  }

  predicate Deletable(ids: seq<string>, clauses: seq<Clause>) {
    NoDuplicates(ids) && (forall d :: d in ids ==> d in Ids(clauses)) && (ids == [] || |ids| < |clauses|)
  }

  lemma {:induction false} ApplyDeletes(row: Row, ids: seq<string>, now: int)
    requires WellFormed(row)
    ensures ApplyAll(row, Deletes(ids), now).Some? <==> Deletable(ids, row.clauses)
    ensures ApplyAll(row, Deletes(ids), now).Some? ==>
            WellFormed(ApplyAll(row, Deletes(ids), now).value) &&
            forall x :: x in Ids(ApplyAll(row, Deletes(ids), now).value.clauses) <==> x in Ids(row.clauses) && x !in ids
    decreases ids
  {
    if ids != [] {
      assert Deletes(ids)[1..] == Deletes(ids[1..]);
      assert forall d :: d in ids <==> d == ids[0] || d in ids[1..];
      NoDuplicatesHead(ids);
      if Apply(row, DeleteClause(ids[0]), now).Some? {
        WithoutIds(row.clauses, ids[0]);
        ApplyDeletes(Apply(row, DeleteClause(ids[0]), now).value, ids[1..], now);
      }
    }
  }

  /** Every change names one of the ids. */
  predicate Names(changes: seq<Clause>, ids: seq<string>) {
    forall c :: c in changes ==> c.id in ids
  }

  /** One kind of clause in an edit: first the additions, then the changes. */
  lemma AddThenChange(row: Row, adds: seq<Clause>, changes: seq<Clause>, rest: seq<Command>, now: int)
    returns (row': Row)
    ensures Ids(row'.clauses) == Ids(row.clauses) + Ids(adds)
    ensures ApplyAll(row, Adds(adds) + Changes(changes) + rest, now) ==
            if Names(changes, Ids(row.clauses) + Ids(adds)) then ApplyAll(row', rest, now) else None
  {
    ApplyConcat(row, Adds(adds) + Changes(changes), rest, now);
    ApplyConcat(row, Adds(adds), Changes(changes), now);
    ApplyAdds(row, adds, now);
    var added := ApplyAll(row, Adds(adds), now).value;
    assert Ids(added.clauses) == Ids(row.clauses) + Ids(adds);
    ApplyChanges(added, changes, now);
    row' := if ApplyAll(added, Changes(changes), now).Some?
        then ApplyAll(added, Changes(changes), now).value else added;
  }

  predicate EditAccepted(row: Row, e: Edit) {
    && Names(e.changeRate, Ids(row.clauses)) && Names(e.changeDatetime, Ids(row.clauses))
        && Names(e.changeWebhook, Ids(row.clauses))
    && Deletable(e.deletes, row.clauses + NewClauses(e))
  }

  lemma OpsTypeFirst(row: Row, e: Edit, now: int) returns (row': Row)
    ensures ApplyAll(row, if e.opsType.Some? then [ChangeOpsType(e.opsType.value)] else [], now) == Some(row')
    ensures row'.clauses == row.clauses
  {
    row' := if e.opsType.Some? then row.(opsType := e.opsType.value, updatedAt := now, triggeredAt := 0) else row;
    assert ApplyAll(row', [], now) == Some(row');
  }

  /** Whether a change names a stored clause does not depend on the clauses added before it. */
  lemma NamesIgnoresNew(changes: seq<Clause>, stored: seq<string>, added: seq<string>, fresh': seq<string>)
    requires forall x :: x in added ==> x in fresh'
    requires forall c :: c in changes ==> c.id !in fresh'
    ensures Names(changes, stored + added) <==> Names(changes, stored)
  {
  }

  lemma EditReducesToDeletes(row: Row, e: Edit, now: int) returns (row': Row)
    requires NamesStored(e)
    ensures Ids(row'.clauses) == Ids(row.clauses + NewClauses(e))
    ensures ApplyAll(row, UpdateCommands(e), now) ==
            if Names(e.changeRate, Ids(row.clauses)) && Names(e.changeDatetime, Ids(row.clauses))
                && Names(e.changeWebhook, Ids(row.clauses))
            then ApplyAll(row', Deletes(e.deletes), now) else None
  {
    hide Apply, ApplyAll, WithBody, Without, Names, Adds, Changes, Deletes, Ids, NewClauses;
    var opt := if e.opsType.Some? then [ChangeOpsType(e.opsType.value)] else [];
    var rest3 := Deletes(e.deletes);
    var rest2 := Adds(e.addWebhook) + Changes(e.changeWebhook) + rest3;
    var rest1 := Adds(e.addDatetime) + Changes(e.changeDatetime) + rest2;
    var rest0 := Adds(e.addRate) + Changes(e.changeRate) + rest1;
    assert UpdateCommands(e) == opt + rest0;
    ApplyConcat(row, opt, rest0, now);
    var row0 := OpsTypeFirst(row, e, now);
    var row1 := AddThenChange(row0, e.addRate, e.changeRate, rest1, now);
    var row2 := AddThenChange(row1, e.addDatetime, e.changeDatetime, rest2, now);
    row' := AddThenChange(row2, e.addWebhook, e.changeWebhook, rest3, now);
    NamesSettled(row, e);
  }

  lemma NamesSettled(row: Row, e: Edit)
    requires NamesStored(e)
    ensures Ids(row.clauses + NewClauses(e)) ==
            Ids(row.clauses) + Ids(e.addRate) + Ids(e.addDatetime) + Ids(e.addWebhook)
    ensures var stored, a1, a2, a3 := Ids(row.clauses), Ids(e.addRate), Ids(e.addDatetime), Ids(e.addWebhook);
            && (Names(e.changeRate, stored + a1) <==> Names(e.changeRate, stored))
            && (Names(e.changeDatetime, stored + a1 + a2) <==> Names(e.changeDatetime, stored))
            && (Names(e.changeWebhook, stored + a1 + a2 + a3) <==> Names(e.changeWebhook, stored))
  {
    hide Names;
    var a1, a2, a3 := Ids(e.addRate), Ids(e.addDatetime), Ids(e.addWebhook);
    var stored, new' := Ids(row.clauses), Ids(NewClauses(e));
    assert new' == a1 + a2 + a3;
    NamesIgnoresNew(e.changeRate, stored, a1, new');
    NamesIgnoresNew(e.changeDatetime, stored, a1 + a2, new');
    NamesIgnoresNew(e.changeWebhook, stored, a1 + a2 + a3, new');
    assert stored + a1 + a2 == stored + (a1 + a2) && stored + a1 + a2 + a3 == stored + (a1 + a2 + a3);
    assert Ids(row.clauses + NewClauses(e)) == stored + new';
  }

  /** An edit goes through exactly when it changes and deletes stored clauses, each deleted once, and
      does not delete more clauses than the additions leave room for; the result keeps the rest. */
  lemma EditOutcome(row: Row, e: Edit, now: int)
    requires WellFormed(row) && DistinctIds(row.clauses + NewClauses(e)) && NamesStored(e)
    ensures ApplyAll(row, UpdateCommands(e), now).Some? <==> EditAccepted(row, e)
    ensures ApplyAll(row, UpdateCommands(e), now).Some? ==>
            WellFormed(ApplyAll(row, UpdateCommands(e), now).value) &&
            forall x :: x in Ids(ApplyAll(row, UpdateCommands(e), now).value.clauses) <==>
                        x in Ids(row.clauses + NewClauses(e)) && x !in e.deletes
  {
    hide Apply, ApplyAll, UpdateCommands, Names;
    var row' := EditReducesToDeletes(row, e, now);
    var all := row.clauses + NewClauses(e);
    DistinctIdsMeans(all);
    DistinctIdsMeans(row'.clauses);
    assert |row'.clauses| == |Ids(all)| >= |row.clauses| > 0;
    ApplyDeletes(row', e.deletes, now);
  }

  /** The ids of the clauses a command list still has to add. */
  function AddedIds(cs: seq<Command>): seq<string> {
    if cs == [] then [] else (if cs[0].AddClause? then [cs[0].clause.id] else []) + AddedIds(cs[1..])
  }

  lemma {:induction false} AddedIdsConcat(a: seq<Command>, b: seq<Command>)
    ensures AddedIds(a + b) == AddedIds(a) + AddedIds(b)
  {
    if a == [] {
      assert a + b == b;
    } else {
      assert (a + b)[1..] == a[1..] + b;
      AddedIdsConcat(a[1..], b);
    }
  }

  lemma {:induction false} AddedIdsOfAdds(clauses: seq<Clause>)
    ensures AddedIds(Adds(clauses)) == Ids(clauses)
  {
    if clauses != [] {
      assert Adds(clauses)[1..] == Adds(clauses[1..]);
      AddedIdsOfAdds(clauses[1..]);
    }
  }

  lemma {:induction false} NothingAdded(cs: seq<Command>)
    requires forall c :: c in cs ==> !c.AddClause?
    ensures AddedIds(cs) == []
  {
    if cs != [] {
      NothingAdded(cs[1..]);
    }
  }

  lemma AddedIdsOfEdit(e: Edit)
    ensures AddedIds(UpdateCommands(e)) == Ids(NewClauses(e))
  {
    hide AddedIds, Adds, Changes, Deletes, Ids, NewClauses;
    var opt := if e.opsType.Some? then [ChangeOpsType(e.opsType.value)] else [];
    var p1 := opt + Adds(e.addRate);
    var p2 := p1 + Changes(e.changeRate);
    var p3 := p2 + Adds(e.addDatetime);
    var p4 := p3 + Changes(e.changeDatetime);
    var p5 := p4 + Adds(e.addWebhook);
    var p6 := p5 + Changes(e.changeWebhook);
    AddedIdsConcat(opt, Adds(e.addRate));
    AddedIdsConcat(p1, Changes(e.changeRate));
    AddedIdsConcat(p2, Adds(e.addDatetime));
    AddedIdsConcat(p3, Changes(e.changeDatetime));
    AddedIdsConcat(p4, Adds(e.addWebhook));
    AddedIdsConcat(p5, Changes(e.changeWebhook));
    AddedIdsConcat(p6, Deletes(e.deletes));
    AddedIdsOfAdds(e.addRate);
    AddedIdsOfAdds(e.addDatetime);
    AddedIdsOfAdds(e.addWebhook);
    OnlyAddsAdd(e.opsType, e.changeRate, e.deletes);
    OnlyAddsAdd(e.opsType, e.changeDatetime, e.deletes);
    OnlyAddsAdd(e.opsType, e.changeWebhook, e.deletes);
    NewIds(e);
  }

  lemma NewIds(e: Edit)
    ensures Ids(NewClauses(e)) == Ids(e.addRate) + Ids(e.addDatetime) + Ids(e.addWebhook)
  {
  }

  lemma OnlyAddsAdd(t: Option<OpsType>, changes: seq<Clause>, deletes: seq<string>)
    ensures AddedIds(if t.Some? then [ChangeOpsType(t.value)] else []) == []
    ensures AddedIds(Changes(changes)) == [] && AddedIds(Deletes(deletes)) == []
  {
    NothingAdded(if t.Some? then [ChangeOpsType(t.value)] else []);
    NothingAdded(Changes(changes));
    NothingAdded(Deletes(deletes));
  }

  /** Clause ids stay distinct from command to command. */
  lemma ApplyKeepsFresh(row: Row, cs: seq<Command>, now: int)
    requires cs != [] && Apply(row, cs[0], now).Some? && NoDuplicates(Ids(row.clauses) + AddedIds(cs))
    ensures NoDuplicates(Ids(Apply(row, cs[0], now).value.clauses) + AddedIds(cs[1..]))
  {
    hide NoDuplicates;
    var ids, rest := Ids(row.clauses), AddedIds(cs[1..]);
    match cs[0]
    case ChangeOpsType(_) => assert ids + AddedIds(cs) == ids + rest;
    case AddClause(c) =>
      assert Ids(row.clauses + [c]) == ids + [c.id];
      assert (ids + [c.id]) + rest == ids + AddedIds(cs);
    case ChangeClause(id, body) =>
      assert Ids(WithBody(row.clauses, id, body)) == ids;
      assert ids + AddedIds(cs) == ids + rest;
    case DeleteClause(id) =>
      assert ids + AddedIds(cs) == ids + rest;
      DeleteKeepsFresh(row.clauses, id, rest);
  }

  lemma DeleteKeepsFresh(clauses: seq<Clause>, id: string, rest: seq<string>)
    requires id in Ids(clauses) && NoDuplicates(Ids(clauses) + rest)
    ensures NoDuplicates(Ids(Without(clauses, id)) + rest)
  {
    var k :| 0 <= k < |clauses| && Ids(clauses)[k] == id;
    var all := Ids(clauses) + rest;
    forall j | 0 <= j < |clauses| && j != k ensures clauses[j].id != clauses[k].id {
      assert all[j] == clauses[j].id && all[k] == id;
    }
    hide NoDuplicates, Without;
    WithoutAt(clauses, k);
    DropKeepsFresh(clauses, k, rest);
  }

  lemma DropKeepsFresh(clauses: seq<Clause>, k: nat, rest: seq<string>)
    requires k < |clauses| && NoDuplicates(Ids(clauses) + rest)
    ensures NoDuplicates(Ids(clauses[..k] + clauses[k + 1..]) + rest)
  {
    var ids, all := Ids(clauses), Ids(clauses) + rest;
    DropOne(all, k);
    hide NoDuplicates;
    assert Ids(clauses[..k] + clauses[k + 1..]) == ids[..k] + ids[k + 1..];
    assert all[..k] + all[k + 1..] == (ids[..k] + ids[k + 1..]) + rest;
  }

  // ----- Every run -----

  /** Adding and changing alone never empties a rule; the deletions check before each removal. */
  lemma StepKeepsWellFormed(w: World, r: Request)
    requires forall id :: id in w.rules ==> WellFormed(w.rules[id])
    requires FreshInputs(w, r)
    ensures forall id :: id in Step(w, r).rules ==> WellFormed(Step(w, r).rules[id])
  {
    if r.Update? && r.id in w.rules {
      hide UpdateCommands, ApplyAll;
      EditOutcome(w.rules[r.id], r.edit, r.env.now);
    }
  }

  /** Along every run that starts without rules, every rule keeps at least one clause and distinct
      clause ids. */
  lemma {:induction false} RunKeepsClauses(w: World, rs: seq<Request>)
    requires w.rules == map[] && FreshRun(w, rs)
    ensures forall id :: id in Run(w, rs).rules ==> WellFormed(Run(w, rs).rules[id])
    decreases |rs|
  {
    if rs != [] {
      var n := |rs| - 1;
      forall k | 0 <= k < n ensures FreshInputs(Run(w, rs[..n][..k]), rs[..n][k]) {
        assert rs[..n][..k] == rs[..k];
      }
      RunKeepsClauses(w, rs[..n]);
      StepKeepsWellFormed(Run(w, rs[..n]), rs[n]);
    }
  }

  function Count(log: seq<string>, id: string): nat {
    multiset(log)[id]
  }

  function RuleIds(operations: seq<Operation>): (ids: seq<string>)
    ensures |ids| == |operations| && forall i :: 0 <= i < |ids| ==> ids[i] == operations[i].id
  {
    seq(|operations|, i requires 0 <= i < |operations| => operations[i].id)
  }

  lemma OneOperation(operations: seq<Operation>, o: Operation)
    ensures RuleIds(operations + [o]) == RuleIds(operations) + [o.id]
  {
  }

  function Spent(w: World, id: string): nat {
    if id in w.rules && w.rules[id].triggeredAt > 0 then 1 else 0
  }

  lemma StepSpends(w: World, r: Request, id: string)
    requires FreshInputs(w, r)
    requires id !in w.rules ==> Count(w.executions, id) == 0
    ensures Count(Step(w, r).executions, id) - Count(w.executions, id)
         <= Count(Step(w, r).edits, id) - Count(w.edits, id) + Spent(Step(w, r), id) - Spent(w, id)
    ensures id !in Step(w, r).rules ==> Count(Step(w, r).executions, id) == 0
    ensures Count(RuleIds(Step(w, r).operations), id) - Count(RuleIds(w.operations), id)
         == Count(Step(w, r).executions, id) - Count(w.executions, id) + Count(Step(w, r).lost, id) - Count(w.lost, id)
  {
    hide UpdateCommands;
    if r.Execute? && r.id in w.rules {
      OneOperation(w.operations, Operation(r.id, w.rules[r.id].opsType));
    }
    if r.Update? && r.id in w.rules && UpdateCommands(r.edit) != []
       && ApplyAll(w.rules[r.id], UpdateCommands(r.edit), r.env.now).Some? {
      ApplyRearms(w.rules[r.id], UpdateCommands(r.edit), r.env.now);
    }
    hide ApplyAll;
  }

  /** At most once per arming: along every run the committed executions of a rule are at most one
      plus its committed edits, and the feature operations performed are those executions plus the
      ones whose transaction failed to commit afterwards. */
  lemma {:induction false} ExecutesOncePerEdit(w: World, rs: seq<Request>, id: string)
    requires w == World(map[], [], [], [], []) && FreshRun(w, rs)
    ensures Count(Run(w, rs).executions, id) <= Count(Run(w, rs).edits, id) + Spent(Run(w, rs), id)
         <= Count(Run(w, rs).edits, id) + 1
    ensures Count(RuleIds(Run(w, rs).operations), id) == Count(Run(w, rs).executions, id) + Count(Run(w, rs).lost, id)
    ensures id !in Run(w, rs).rules ==> Count(Run(w, rs).executions, id) == 0
    decreases |rs|
  {
    hide Step, Count, Spent, RuleIds, FreshInputs;
    if rs == [] {
      NothingRun(id);
    } else {
      var n := |rs| - 1;
      forall k | 0 <= k < n ensures FreshInputs(Run(w, rs[..n][..k]), rs[..n][k]) {
        assert rs[..n][..k] == rs[..k];
      }
      ExecutesOncePerEdit(w, rs[..n], id);
      assert rs[..n] == rs[..|rs| - 1];
      StepSpends(Run(w, rs[..n]), rs[n], id);
      SpentOnce(Run(w, rs), id);
    }
  }

  lemma NothingRun(id: string)
    ensures Count([], id) == 0 && Count(RuleIds([]), id) == 0 && Spent(World(map[], [], [], [], []), id) == 0
  {
  }

  lemma SpentOnce(w: World, id: string)
    ensures 0 <= Spent(w, id) <= 1
  {
  }
}
