/** What a rule looks like after an edit request, field by field and clause by clause, and when it fires
    next. */
module AutoOpsEdits {
  import opened AutoOpsRule
  import opened AutoOpsRequests
  import opened Wrappers

  // ----- The clauses -----

  function AllChanges(e: Edit): seq<Clause> {
    e.changeRate + e.changeDatetime + e.changeWebhook
  }

  predicate LastNaming(changes: seq<Clause>, id: string, i: int) {
    0 <= i < |changes| && changes[i].id == id && forall j :: i < j < |changes| ==> changes[j].id != id
  }

  /** The clause after the changes: it has the body of the last change that names it, and is as it was if
      none does. */
  ghost predicate Changed(changes: seq<Clause>, was: Clause, now: Clause) {
    && now.id == was.id
    && (forall i :: LastNaming(changes, was.id, i) ==> now.body == changes[i].body)
    && ((forall i :: 0 <= i < |changes| ==> changes[i].id != was.id) ==> now == was)
  }

  ghost predicate ChangedAll(changes: seq<Clause>, was: seq<Clause>, now: seq<Clause>) {
    |now| == |was| && forall k :: 0 <= k < |was| ==> Changed(changes, was[k], now[k])
  }

  lemma ChangedMore(a: seq<Clause>, b: seq<Clause>, x: Clause, y: Clause, z: Clause)
    requires Changed(a, x, y) && Changed(b, y, z)
    ensures Changed(a + b, x, z)
  {
    var changes := a + b;
    forall i | LastNaming(changes, x.id, i) ensures z.body == changes[i].body {
      if i < |a| {
        assert LastNaming(a, x.id, i) by {
          assert forall j :: i < j < |a| ==> changes[j] == a[j];
        }
        assert forall j :: 0 <= j < |b| ==> changes[|a| + j] == b[j];
      } else {
        assert LastNaming(b, x.id, i - |a|) by {
          assert forall j :: 0 <= j < |b| ==> changes[|a| + j] == b[j];
        }
      }
    }
    if forall i :: 0 <= i < |changes| ==> changes[i].id != x.id {
      assert forall i :: 0 <= i < |a| ==> changes[i] == a[i];
      assert forall i :: 0 <= i < |b| ==> changes[|a| + i] == b[i];
    }
  }

  lemma ChangedNone(clauses: seq<Clause>)
    ensures ChangedAll([], clauses, clauses)
  {
  }

  /** More changes, and clauses added in between that the earlier changes do not name. */
  lemma ChangedAllMore(
    a: seq<Clause>, b: seq<Clause>, was: seq<Clause>, mid: seq<Clause>, added: seq<Clause>, now: seq<Clause>)
    requires ChangedAll(a, was, mid) && ChangedAll(b, mid + added, now)
    requires forall c, d :: c in a && d in added ==> c.id != d.id
    ensures ChangedAll(a + b, was + added, now)
  {
    forall k | 0 <= k < |was + added| ensures Changed(a + b, (was + added)[k], now[k]) {
      if k < |was| {
        assert (mid + added)[k] == mid[k];
        ChangedMore(a, b, was[k], mid[k], now[k]);
      } else {
        var d := added[k - |was|];
        assert (mid + added)[k] == d && Changed(a, d, d);
        ChangedMore(a, b, d, d, now[k]);
      }
    }
  }

  /** A row with other clauses, after successful commands. */
  predicate SameRule(row: Row, row': Row) {
    row'.opsType == row.opsType && row'.deleted == row.deleted
  }

  lemma {:induction false} AddsApplied(row: Row, clauses: seq<Clause>, now: int)
    ensures var r := ApplyAll(row, Adds(clauses), now);
            r.Some? && r.value.clauses == row.clauses + clauses && SameRule(row, r.value)
    decreases clauses
  {
    if clauses == [] {
      assert row.clauses + [] == row.clauses;
    } else {
      assert Adds(clauses)[1..] == Adds(clauses[1..]);
      AddsApplied(Apply(row, AddClause(clauses[0]), now).value, clauses[1..], now);
    }
  }

  lemma ChangeOneApplied(row: Row, c: Clause, now: int)
    requires c.id in Ids(row.clauses)
    ensures var r := Apply(row, ChangeClause(c.id, c.body), now);
            r.Some? && SameRule(row, r.value) && ChangedAll([c], row.clauses, r.value.clauses)
  {
    var clauses' := Apply(row, ChangeClause(c.id, c.body), now).value.clauses;
    forall k | 0 <= k < |row.clauses| ensures Changed([c], row.clauses[k], clauses'[k]) {
      assert clauses'[k] == if row.clauses[k].id == c.id then Clause(c.id, c.body) else row.clauses[k];
      assert row.clauses[k].id != c.id ==> forall i :: 0 <= i < 1 ==> [c][i].id != row.clauses[k].id;
      assert [c][0].id == c.id;
    }
  }

  lemma {:induction false} ChangesApplied(row: Row, changes: seq<Clause>, now: int)
    requires ApplyAll(row, Changes(changes), now).Some?
    ensures var r := ApplyAll(row, Changes(changes), now).value;
            ChangedAll(changes, row.clauses, r.clauses) && SameRule(row, r)
    decreases changes
  {
    if changes == [] {
      ChangedNone(row.clauses);
    } else {
      hide ChangedAll, WithBody;
      assert Changes(changes)[1..] == Changes(changes[1..]);
      ChangeOneApplied(row, changes[0], now);
      var row' := Apply(row, Changes(changes)[0], now).value;
      ChangesApplied(row', changes[1..], now);
      var end := ApplyAll(row', Changes(changes[1..]), now).value;
      assert row'.clauses + [] == row'.clauses && row.clauses + [] == row.clauses;
      ChangedAllMore([changes[0]], changes[1..], row.clauses, row'.clauses, [], end.clauses);
      assert [changes[0]] + changes[1..] == changes;
    }
  }

  /** The clauses of `left` are clauses of `all`, in the same order. */
  ghost predicate InOrder(all: seq<Clause>, left: seq<Clause>) {
    forall i, j, p, q ::
      0 <= i < j < |left| && 0 <= p < |all| && 0 <= q < |all| && all[p].id == left[i].id && all[q].id == left[j].id ==>
        p < q
  }

  lemma InOrderCut(all: seq<Clause>, left: seq<Clause>, k: nat)
    requires InOrder(all, left) && k < |left|
    ensures InOrder(all, left[..k] + left[k + 1..])
  {
    var cut := left[..k] + left[k + 1..];
    assert forall i :: 0 <= i < |cut| ==> cut[i] == left[if i < k then i else i + 1];
  }

  /** Deletions keep the other clauses as they are. */
  lemma {:induction false} DeletesApplied(row: Row, ids: seq<string>, all: seq<Clause>, now: int)
    requires ApplyAll(row, Deletes(ids), now).Some? && DistinctIds(row.clauses) && InOrder(all, row.clauses)
    ensures var r := ApplyAll(row, Deletes(ids), now).value;
            && SameRule(row, r) && InOrder(all, r.clauses) && DistinctIds(r.clauses)
            && forall c :: c in r.clauses <==> c in row.clauses && c.id !in ids
    decreases ids
  {
    if ids != [] {
      hide InOrder, DistinctIds, Without;
      assert Deletes(ids)[1..] == Deletes(ids[1..]);
      assert forall d :: d in ids <==> d == ids[0] || d in ids[1..];
      DeleteOne(row.clauses, ids[0], all);
      DeletesApplied(Apply(row, DeleteClause(ids[0]), now).value, ids[1..], all, now);
    }
  }

  lemma DeleteOne(clauses: seq<Clause>, id: string, all: seq<Clause>)
    requires id in Ids(clauses) && DistinctIds(clauses) && InOrder(all, clauses)
    ensures InOrder(all, Without(clauses, id)) && DistinctIds(Without(clauses, id))
    ensures forall c :: c in Without(clauses, id) <==> c in clauses && c.id != id
  {
    hide InOrder, Without;
    var k :| 0 <= k < |clauses| && Ids(clauses)[k] == id;
    assert OnlyAt(clauses, k);
    WithoutAt(clauses, k);
    WithoutIds(clauses, id);
    InOrderCut(all, clauses, k);
    var cut := clauses[..k] + clauses[k + 1..];
    forall c ensures c in cut <==> c in clauses && c.id != id {
      assert c in clauses <==> c in clauses[..k] || c == clauses[k] || c in clauses[k + 1..];
    }
  }

  // ----- The whole edit -----

  /** One kind of clause: first the additions, then the changes. */
  lemma GroupApplied(row: Row, adds: seq<Clause>, changes: seq<Clause>, rest: seq<Command>, now: int,
                     all: seq<Clause>, before: seq<Clause>) returns (row': Row)
    requires ApplyAll(row, Adds(adds) + Changes(changes) + rest, now).Some?
    requires ChangedAll(before, all, row.clauses) && forall c, d :: c in before && d in adds ==> c.id != d.id
    ensures ApplyAll(row, Adds(adds) + Changes(changes) + rest, now) == ApplyAll(row', rest, now)
    ensures SameRule(row, row') && ChangedAll(before + changes, all + adds, row'.clauses)
  {
    hide Apply, ChangedAll;
    ApplyConcat(row, Adds(adds) + Changes(changes), rest, now);
    ApplyConcat(row, Adds(adds), Changes(changes), now);
    AddsApplied(row, adds, now);
    var added := ApplyAll(row, Adds(adds), now).value;
    ChangesApplied(added, changes, now);
    row' := ApplyAll(added, Changes(changes), now).value;
    ChangedAllMore(before, changes, all, row.clauses, adds, row'.clauses);
  }

  ghost predicate ComesFrom(changes: seq<Clause>, all: seq<Clause>, now: Clause) {
    exists k :: 0 <= k < |all| && Changed(changes, all[k], now)
  }

  ghost predicate IsThere(changes: seq<Clause>, was: Clause, clauses: seq<Clause>) {
    exists i :: 0 <= i < |clauses| && Changed(changes, was, clauses[i])
  }

  /** What an edit makes of the clauses. Those deleted are gone. Each of the others, stored or added, is there
      with the body of the last change that names it, in the order in which they were stored and added. */
  ghost predicate ClausesAfter(row: Row, e: Edit, clauses: seq<Clause>) {
    var all := row.clauses + NewClauses(e);
    && (forall i :: 0 <= i < |clauses| ==> clauses[i].id !in e.deletes)
    && (forall i :: 0 <= i < |clauses| ==> ComesFrom(AllChanges(e), all, clauses[i]))
    && (forall k :: 0 <= k < |all| && all[k].id !in e.deletes ==> IsThere(AllChanges(e), all[k], clauses))
    && InOrder(all, clauses)
  }

  /** A rule after an accepted edit. */
  ghost predicate EditedTo(row: Row, e: Edit, now: int, row': Row) {
    && row'.opsType == (if e.opsType.Some? then e.opsType.value else row.opsType)
    && row'.deleted == row.deleted && row'.triggeredAt == 0 && row'.updatedAt == now
    && ClausesAfter(row, e, row'.clauses)
  }

  lemma Grouped(row: Row, e: Edit, now: int) returns (row': Row)
    requires NamesStored(e) && ApplyAll(row, UpdateCommands(e), now).Some?
    ensures ApplyAll(row, UpdateCommands(e), now) == ApplyAll(row', Deletes(e.deletes), now)
    ensures row'.opsType == (if e.opsType.Some? then e.opsType.value else row.opsType) && row'.deleted == row.deleted
    ensures ChangedAll(AllChanges(e), row.clauses + NewClauses(e), row'.clauses)
  {
    hide Apply, ApplyAll, ChangedAll;
    var opt := if e.opsType.Some? then [ChangeOpsType(e.opsType.value)] else [];
    var rest3 := Deletes(e.deletes);
    var rest2 := Adds(e.addWebhook) + Changes(e.changeWebhook) + rest3;
    var rest1 := Adds(e.addDatetime) + Changes(e.changeDatetime) + rest2;
    var rest0 := Adds(e.addRate) + Changes(e.changeRate) + rest1;
    assert UpdateCommands(e) == opt + rest0;
    ApplyConcat(row, opt, rest0, now);
    var row0 := OpsTypeApplied(row, e, now);
    ChangedNone(row.clauses);
    NamesApart(e);
    var all1, all2 := row.clauses + e.addRate, row.clauses + e.addRate + e.addDatetime;
    var row1 := GroupApplied(row0, e.addRate, e.changeRate, rest1, now, row.clauses, []);
    assert [] + e.changeRate == e.changeRate;
    var row2 := GroupApplied(row1, e.addDatetime, e.changeDatetime, rest2, now, all1, e.changeRate);
    row' := GroupApplied(row2, e.addWebhook, e.changeWebhook, rest3, now, all2, e.changeRate + e.changeDatetime);
    assert all2 + e.addWebhook == row.clauses + NewClauses(e);
  }

  lemma OpsTypeApplied(row: Row, e: Edit, now: int) returns (row': Row)
    ensures ApplyAll(row, if e.opsType.Some? then [ChangeOpsType(e.opsType.value)] else [], now) == Some(row')
    ensures row'.clauses == row.clauses && row'.deleted == row.deleted
    ensures row'.opsType == (if e.opsType.Some? then e.opsType.value else row.opsType)
  {
    row' := if e.opsType.Some? then Apply(row, ChangeOpsType(e.opsType.value), now).value else row;
    assert ApplyAll(row', [], now) == Some(row');
  }

  lemma NamesApart(e: Edit)
    requires NamesStored(e)
    ensures forall c, d :: c in e.changeRate && d in e.addDatetime ==> c.id != d.id
    ensures forall c, d :: c in e.changeRate + e.changeDatetime && d in e.addWebhook ==> c.id != d.id
  {
    forall d | d in NewClauses(e) ensures d.id in Ids(NewClauses(e)) {
      var k :| 0 <= k < |NewClauses(e)| && NewClauses(e)[k] == d;
      assert Ids(NewClauses(e))[k] == d.id;
    }
  }

  lemma {:induction false} ApplyStamps(row: Row, cs: seq<Command>, now: int)
    requires ApplyAll(row, cs, now).Some? && cs != []
    ensures ApplyAll(row, cs, now).value.triggeredAt == 0 && ApplyAll(row, cs, now).value.updatedAt == now
    decreases cs
  {
    if |cs| > 1 {
      ApplyStamps(Apply(row, cs[0], now).value, cs[1..], now);
    }
  }

  /** An edit does exactly what its request says. */
  lemma EditApplied(row: Row, e: Edit, now: int)
    requires DistinctIds(row.clauses + NewClauses(e)) && NamesStored(e) && UpdateCommands(e) != []
    requires ApplyAll(row, UpdateCommands(e), now).Some?
    ensures EditedTo(row, e, now, ApplyAll(row, UpdateCommands(e), now).value)
  {
    hide Apply, ApplyAll, UpdateCommands;
    ApplyStamps(row, UpdateCommands(e), now);
    var row' := Grouped(row, e, now);
    var all := row.clauses + NewClauses(e);
    ChangedOrder(all, row'.clauses, AllChanges(e));
    DeletesApplied(row', e.deletes, all, now);
    LeftAfter(row, e, row'.clauses, ApplyAll(row', Deletes(e.deletes), now).value.clauses);
  }

  /** The edit asks for something, adds no rate clause to a rule that then enables the feature, and changes
      and deletes stored clauses, never all of them. */
  predicate IsAccepted(row: Row, e: Edit) {
    && e != Edit(None, [], [], [], [], [], [], [])
    && (e.addRate != [] ==> (if e.opsType.Some? then e.opsType.value else row.opsType) != EnableFeature)
    && EditAccepted(row, e)
  }

  lemma EmptyEdit(e: Edit)
    ensures UpdateCommands(e) == [] <==> e == Edit(None, [], [], [], [], [], [], [])
  {
  }

  lemma ChangedOrder(all: seq<Clause>, clauses: seq<Clause>, changes: seq<Clause>)
    requires ChangedAll(changes, all, clauses) && DistinctIds(all)
    ensures DistinctIds(clauses) && InOrder(all, clauses)
  {
    hide LastNaming;
    assert forall k :: 0 <= k < |all| ==> clauses[k].id == all[k].id;
  }

  lemma LeftAfter(row: Row, e: Edit, clauses: seq<Clause>, left: seq<Clause>)
    requires ChangedAll(AllChanges(e), row.clauses + NewClauses(e), clauses)
    requires InOrder(row.clauses + NewClauses(e), left)
    requires forall c :: c in left <==> c in clauses && c.id !in e.deletes
    ensures ClausesAfter(row, e, left)
  {
    hide InOrder, LastNaming;
    var all := row.clauses + NewClauses(e);
    forall i | 0 <= i < |left| ensures left[i].id !in e.deletes {
      assert left[i] in left;
    }
    forall i | 0 <= i < |left| ensures ComesFrom(AllChanges(e), all, left[i]) {
      assert left[i] in left;
      var k :| 0 <= k < |clauses| && clauses[k] == left[i];
      assert Changed(AllChanges(e), all[k], left[i]);
    }
    forall k | 0 <= k < |all| && all[k].id !in e.deletes ensures IsThere(AllChanges(e), all[k], left) {
      assert Changed(AllChanges(e), all[k], clauses[k]);
      assert clauses[k] in left;
      var i :| 0 <= i < |left| && left[i] == clauses[k];
    }
  }

  // ----- Firing -----

  /** The request creates or edits the rule and is carried out. */
  predicate Arms(w: World, r: Request) {
    match r
    case Create(id, _, _, _) => id !in w.rules && id in Step(w, r).rules
    case Update(id, _, _) => Step(w, r).edits == w.edits + [id]
    case _ => false
  }

  predicate AllSucceed(env: Env) {
    env.published && env.operated && env.committed
  }

  lemma {:induction false} OthersLeave(w: World, rs: seq<Request>, id: string)
    requires forall r :: r in rs ==> r.id != id
    ensures id in Run(w, rs).rules <==> id in w.rules
    ensures id in w.rules ==> Run(w, rs).rules[id] == w.rules[id]
    decreases |rs|
  {
    if rs != [] {
      hide ApplyAll, UpdateCommands;
      OthersLeave(w, rs[..|rs| - 1], id);
      assert rs[|rs| - 1] in rs;
    }
  }

  /** A rule that was just created or edited fires on its next execution request whose calls all succeed,
      whatever happens to other rules in between; and then it does not fire again. */
  lemma ArmedFires(w: World, r: Request, others: seq<Request>, env: Env)
    requires Arms(w, r) && FreshInputs(w, r) && AllSucceed(env) && env.now > 0
    requires forall x :: x in others ==> x.id != r.id
    ensures var w1 := Run(Step(w, r), others);
            var w2 := Step(w1, Execute(r.id, env));
            && r.id in w1.rules && w1.rules[r.id].triggeredAt == 0
            && w2.executions == w1.executions + [r.id]
            && w2.operations == w1.operations + [Operation(r.id, Step(w, r).rules[r.id].opsType)]
            && w2.rules == w1.rules[r.id := w1.rules[r.id].(triggeredAt := env.now, updatedAt := env.now)]
            && forall env' :: Step(w2, Execute(r.id, env')) == w2
  {
    hide UpdateCommands;
    if r.Update? {
      ApplyRearms(w.rules[r.id], UpdateCommands(r.edit), r.env.now);
    }
    hide ApplyAll;
    OthersLeave(Step(w, r), others, r.id);
  }
}
