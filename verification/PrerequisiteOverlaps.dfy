/** Requests that overlap in time. Each transaction checks and handles what it has read, and then writes
    one whole row over whatever is stored by then; nothing it has read is locked. */
module PrerequisiteOverlaps {
  import opened PrerequisiteGraph
  import opened PrerequisiteCommands
  import opened PrerequisiteRequests
  import opened Sequences

  /** The request is carried out on `db` after its checks saw `checked`, and, for archiving, whose checks
      come before the transaction, its row was read from `read`. */
  ghost predicate CommitsLate(checked: Db, read: Db, db: Db, r: Request, db': Db) {
    match r
    case UpdateFeatureTargeting(id, cmds) =>
      && TargetingAccepted(checked, id, cmds) && Outcome(checked[id], cmds, true).Some? && id in db
      && db' == db[id := Outcome(checked[id], cmds, true).value]
    case UpdateFeatureVariations(id, cmds) =>
      && VariationsAccepted(checked, id, cmds) && Outcome(checked[id], cmds, false).Some? && id in db
      && db' == db[id := Outcome(checked[id], cmds, false).value]
    case ArchiveFeature(id) =>
      ArchiveAccepted(checked, id) && id in read && id in db && db' == db[id := read[id].(archived := true)]
    case CreateFeature(id, variations) =>
      id !in db && db' == db[id := Row(variations, [], false)]
  }

  /** Requests that do not overlap are those of PrerequisiteRequests. */
  lemma AloneIsCommits(db: Db, r: Request, db': Db)
    ensures CommitsLate(db, db, db, r, db') <==> Commits(db, r, db')
  {
  }

  /** The row can replace whatever is stored for the feature. An archived one: no other feature depends on
      it. Another: its links are offered, it has the variations that others depend on, and none of its
      targets reaches the feature. */
  ghost predicate RowFits(db: Db, id: string, row: Row) {
    if row.archived then forall a :: Live(db, a) && a != id ==> id !in TargetsOf(db[a].links)
    else
      && (forall l :: l in row.links ==> Offered(db, l))
      && (forall a, l :: Live(db, a) && a != id && l in db[a].links && l.target == id ==> l.variation in row.variations)
      && forall t :: t in TargetsOf(row.links) ==> !Reaches(LiveGraph(db), t, id)
  }

  lemma ArchivedRowFits(db: Db, id: string, row: Row)
    requires Sound(db) && row.archived
    ensures Sound(db[id := row]) <==> RowFits(db, id, row)
  {
    var db' := db[id := row];
    assert Subgraph(LiveGraph(db'), LiveGraph(db));
    CycleInSubgraph(LiveGraph(db'), LiveGraph(db));
    hide HasCycle, Subgraph;
    forall a, k | Live(db, a) && a != id && 0 <= k < |db[a].links|
      ensures Offered(db', db[a].links[k]) <==> TargetsOf(db[a].links)[k] != id
    {
      assert Offered(db, db[a].links[k]);
    }
    if Sound(db') {
      forall a | Live(db, a) && a != id ensures id !in TargetsOf(db[a].links) {
        assert Live(db', a) && db'[a] == db[a];
        forall k | 0 <= k < |db[a].links| ensures TargetsOf(db[a].links)[k] != id {
          assert Offered(db', db'[a].links[k]);
        }
      }
    }
  }

  /** A link of another feature stays offered exactly when the row keeps its variation. */
  lemma LinkStaysOffered(db: Db, id: string, row: Row, l: Link)
    requires Offered(db, l) && !row.archived
    ensures Offered(db[id := row], l) <==> l.target != id || l.variation in row.variations
  {
  }

  lemma LiveRowFits(db: Db, id: string, row: Row)
    requires Sound(db) && !row.archived
    ensures Sound(db[id := row]) <==> RowFits(db, id, row)
  {
    var db', ts := db[id := row], TargetsOf(row.links);
    assert LiveGraph(db') == LiveGraph(db)[id := ts];
    NewEdgesCloseCycle(LiveGraph(db), id, ts);
    hide HasCycle, Reaches, LiveGraph;
    forall l | l in row.links && l.target != id ensures Offered(db', l) <==> Offered(db, l) {
    }
    forall a, l | Live(db, a) && l in db[a].links ensures Offered(db, l) {
      var k :| 0 <= k < |db[a].links| && db[a].links[k] == l;
      assert Offered(db, db[a].links[k]);
    }
    if forall t :: t in ts ==> !Reaches(LiveGraph(db), t, id) {
      forall l | l in row.links ensures l.target != id {
        var k :| 0 <= k < |row.links| && row.links[k] == l;
        assert ts[k] == l.target;
        ReachesItself(LiveGraph(db), id);
      }
      OfferedAll(db, id, row);
    }
  }

  lemma ReachesItself(g: Graph, a: string)
    ensures Reaches(g, a, a)
  {
    assert PathBetween(g, [a], a, a);
  }

  lemma OfferedAll(db: Db, id: string, row: Row)
    requires !row.archived && forall l :: l in row.links ==> l.target != id
    requires forall a, l :: Live(db, a) && l in db[a].links ==> Offered(db, l)
    ensures var db' := db[id := row];
            (forall a, k :: Live(db', a) && 0 <= k < |db'[a].links| ==> Offered(db', db'[a].links[k])) <==>
            && (forall l :: l in row.links ==> Offered(db, l))
            && forall a, l :: Live(db, a) && a != id && l in db[a].links && l.target == id ==>
                 l.variation in row.variations
  {
    var db' := db[id := row];
    forall l | Offered(db, l) ensures Offered(db', l) <==> l.target != id || l.variation in row.variations {
      LinkStaysOffered(db, id, row, l);
    }
    if forall a, k :: Live(db', a) && 0 <= k < |db'[a].links| ==> Offered(db', db'[a].links[k]) {
      forall l | l in row.links ensures Offered(db, l) {
        var k :| 0 <= k < |row.links| && row.links[k] == l;
        assert Offered(db', db'[id].links[k]);
      }
      forall a, l | Live(db, a) && a != id && l in db[a].links && l.target == id ensures l.variation in row.variations {
        var k :| 0 <= k < |db[a].links| && db[a].links[k] == l;
        assert Offered(db', db'[a].links[k]);
      }
    }
  }

  /** The check of an archive request refuses exactly what would break the graph. */
  lemma ArchiveCheckExactly(db: Db, id: string)
    requires Sound(db) && id in db && id != ""
    ensures ArchiveAccepted(db, id) <==> Sound(db[id := db[id].(archived := true)])
  {
    ArchivedRowFits(db, id, db[id].(archived := true));
    NoSelfEdges(db);
    hide Sound;
  }

  /** The checks of added prerequisites refuse exactly what would repeat a target or break the graph. */
  lemma AddCheckExactly(db: Db, id: string, adds: seq<Link>)
    requires Sound(db) && Live(db, id) && adds != []
    ensures AddsAccepted(db, id, adds) <==>
            && NoDuplicates(TargetsOf(adds)) && (forall l :: l in adds ==> l.target !in TargetsOf(db[id].links))
            && Sound(db[id := db[id].(links := db[id].links + adds)])
  {
    var row := db[id].(links := db[id].links + adds);
    var g, ts := LiveGraph(db), TargetsOf(row.links);
    assert ts == TargetsOf(db[id].links) + TargetsOf(adds);
    assert g[id := ts] == WithLinks(db, id, adds);
    LiveRowFits(db, id, row);
    NewEdgesCloseCycle(g, id, ts);
    NoSelfEdges(db);
    OldLinksFit(db, id);
    hide HasCycle, Reaches, LiveGraph, Sound;
    assert forall k :: 0 <= k < |adds| ==> TargetsOf(adds)[k] == adds[k].target && adds[k] in adds;
    if RowFits(db, id, row) {
      SelfNotTarget(db, id, adds);
      ClosedWith(db, id, adds);
    }
  }

  /** The links stored in a sound graph fit. */
  lemma OldLinksFit(db: Db, id: string)
    requires Sound(db) && Live(db, id)
    ensures forall l :: l in db[id].links ==> Offered(db, l)
    ensures forall a, l :: Live(db, a) && l in db[a].links && l.target == id ==> l.variation in db[id].variations
    ensures Closed(LiveGraph(db))
  {
    SoundMeans(db);
    hide HasCycle, Closed;
    forall a, l | Live(db, a) && l in db[a].links ensures Offered(db, l) {
      var k :| 0 <= k < |db[a].links| && db[a].links[k] == l;
      assert Offered(db, db[a].links[k]);
    }
  }

  lemma SelfNotTarget(db: Db, id: string, adds: seq<Link>)
    requires id in db && forall t :: t in TargetsOf(db[id].links + adds) ==> !Reaches(LiveGraph(db), t, id)
    ensures forall l :: l in adds ==> l.target != id
  {
    ReachesItself(LiveGraph(db), id);
    hide Reaches, LiveGraph;
    forall l | l in adds ensures l.target != id {
      var k :| 0 <= k < |adds| && adds[k] == l;
      assert TargetsOf(db[id].links + adds)[|db[id].links| + k] == l.target;
    }
  }

  lemma ClosedWith(db: Db, id: string, adds: seq<Link>)
    requires Live(db, id) && Closed(LiveGraph(db)) && forall l :: l in adds ==> Offered(db, l)
    ensures Closed(WithLinks(db, id, adds))
  {
    var g := WithLinks(db, id, adds);
    forall a, b | Edge(g, a, b) ensures b in g {
      if a == id && b in TargetsOf(adds) {
        var k :| 0 <= k < |adds| && TargetsOf(adds)[k] == b;
        assert adds[k] in adds;
      } else {
        assert Edge(LiveGraph(db), a, b);
      }
    }
  }

  /** Whatever a transaction had read: writing its row keeps the graph sound if and only if the row fits
      what is stored by then. */
  lemma LateCommitSoundExactly(checked: Db, read: Db, db: Db, r: Request, db': Db)
    requires Sound(db) && CommitsLate(checked, read, db, r, db')
    ensures r.id in db' && (Sound(db') <==> RowFits(db, r.id, db'[r.id]))
  {
    hide Sound, RowFits, Outcome;
    var row := db'[r.id];
    assert db' == db[r.id := row];
    if row.archived {
      ArchivedRowFits(db, r.id, row);
    } else {
      LiveRowFits(db, r.id, row);
    }
  }

  /** A run in which request `i` was checked against state `checked[i]` and read its row in state
      `read[i]`, both no later than state `i`, on which it is carried out or not. */
  ghost predicate IsOverlappingRun(dbs: seq<Db>, requests: seq<Request>, checked: seq<nat>, read: seq<nat>) {
    && |dbs| == |requests| + 1 && |checked| == |read| == |requests|
    && forall i :: 0 <= i < |requests| ==>
         && checked[i] <= read[i] <= i
         && (dbs[i + 1] == dbs[i] || CommitsLate(dbs[checked[i]], dbs[read[i]], dbs[i], requests[i], dbs[i + 1]))
  }

  /** Request `i` wrote nothing, or a row that fitted. */
  ghost predicate FitsAt(dbs: seq<Db>, requests: seq<Request>, i: nat)
    requires i < |requests| < |dbs|
  {
    dbs[i + 1] == dbs[i] ||
    (requests[i].id in dbs[i + 1] && RowFits(dbs[i], requests[i].id, dbs[i + 1][requests[i].id]))
  }

  /** From rows without prerequisites, all states of a run of overlapping requests are sound if and only if
      every row fitted when it was written. */
  lemma {:induction false} OverlappingRunSoundExactly(
    dbs: seq<Db>, requests: seq<Request>, checked: seq<nat>, read: seq<nat>, n: nat)
    requires IsOverlappingRun(dbs, requests, checked, read) && n < |dbs|
    requires forall id :: id in dbs[0] ==> dbs[0][id].links == []
    ensures (forall i :: 0 <= i <= n ==> Sound(dbs[i])) <==> forall i :: 0 <= i < n ==> FitsAt(dbs, requests, i)
  {
    hide Sound, RowFits, CommitsLate;
    if n == 0 {
      SoundAtFirst(dbs[0]);
    } else {
      OverlappingRunSoundExactly(dbs, requests, checked, read, n - 1);
      if Sound(dbs[n - 1]) {
        if dbs[n] != dbs[n - 1] {
          LateCommitSoundExactly(dbs[checked[n - 1]], dbs[read[n - 1]], dbs[n - 1], requests[n - 1], dbs[n]);
        }
        assert Sound(dbs[n]) <==> FitsAt(dbs, requests, n - 1);
      }
    }
  }

  // ----- Two accepted additions that close a cycle -----

  function Pair(f: seq<Link>, g: seq<Link>): Db {
    map["f" := Row(["v"], f, false), "g" := Row(["v"], g, false)]
  }

  /** Each of two requests, sent through the endpoint that checks it, is accepted on the empty graph: one
      makes f depend on g, the other g on f. Carried out one after the other's checks, both are stored, and
      the second closes a cycle. */
  lemma OverlappingAddsCloseCycle() returns (dbs: seq<Db>, requests: seq<Request>, checked: seq<nat>)
    ensures IsOverlappingRun(dbs, requests, checked, checked) && |requests| == 2
    ensures forall r :: r in requests ==> Routed(r)
    ensures dbs[1] != dbs[0] && dbs[2] != dbs[1] && Sound(dbs[0]) && Sound(dbs[1]) && !Sound(dbs[2])
  {
    hide Outcome, Sound, TargetingAccepted;
    var l, m := Link("g", "v"), Link("f", "v");
    var db0, db1, db2 := Pair([], []), Pair([l, l], []), Pair([l, l], [m, m]);
    requests := [UpdateFeatureTargeting("f", [AddPrerequisite(l)]), UpdateFeatureTargeting("g", [AddPrerequisite(m)])];
    dbs, checked := [db0, db1, db2], [0, 0];
    AddAccepted("f", l);
    AddAccepted("g", m);
    AddOutcome(db0["f"], l, true);
    AddOutcome(db0["g"], m, true);
    assert [] + [l, l] == [l, l] && [] + [m, m] == [m, m];
    assert db1 == db0["f" := Row(["v"], [l, l], false)] && db2 == db1["g" := Row(["v"], [m, m], false)];
    assert CommitsLate(db0, db0, db0, requests[0], db1) && CommitsLate(db0, db0, db1, requests[1], db2);
    PairStates();
  }

  lemma AddAccepted(id: string, l: Link)
    requires (id == "f" && l == Link("g", "v")) || (id == "g" && l == Link("f", "v"))
    ensures TargetingAccepted(Pair([], []), id, [AddPrerequisite(l)])
  {
    hide HasCycle, Closed;
    OneCommand(AddPrerequisite(l), 0);
    assert TargetsOf([l]) == [l.target];
    AddedGraph(id, l);
  }

  lemma AddedGraph(id: string, l: Link)
    requires (id == "f" && l == Link("g", "v")) || (id == "g" && l == Link("f", "v"))
    ensures var g := WithLinks(Pair([], []), id, [l]); Closed(g) && !HasCycle(g)
  {
    var g := WithLinks(Pair([], []), id, [l]);
    assert TargetsOf([l]) == [l.target] && TargetsOf([]) == [] && [] + [l.target] == [l.target];
    assert g == map[id := [l.target], l.target := []];
    assert [l.target, id][..1] == [l.target];
    OrderedIsAcyclic(g, [l.target, id]);
  }

  lemma PairStates()
    ensures Sound(Pair([], [])) && Sound(Pair([Link("g", "v"), Link("g", "v")], []))
    ensures !Sound(Pair([Link("g", "v"), Link("g", "v")], [Link("f", "v"), Link("f", "v")]))
  {
    SoundAtFirst(Pair([], []));
    OneWay(Pair([Link("g", "v"), Link("g", "v")], []));
    BothWays(Pair([Link("g", "v"), Link("g", "v")], [Link("f", "v"), Link("f", "v")]));
  }

  lemma OneWay(db: Db)
    requires db == Pair([Link("g", "v"), Link("g", "v")], [])
    ensures Sound(db)
  {
    assert TargetsOf([Link("g", "v"), Link("g", "v")]) == ["g", "g"] && TargetsOf([]) == [];
    assert ["g", "f"][..1] == ["g"];
    OrderedIsAcyclic(LiveGraph(db), ["g", "f"]);
  }

  lemma BothWays(db: Db)
    requires db == Pair([Link("g", "v"), Link("g", "v")], [Link("f", "v"), Link("f", "v")])
    ensures !Sound(db)
  {
    assert TargetsOf(db["f"].links)[0] == "g" && TargetsOf(db["g"].links)[0] == "f";
    assert Edge(LiveGraph(db), "f", "g") && Edge(LiveGraph(db), "g", "f");
    assert IsCycle(LiveGraph(db), ["f", "g", "f"]);
  }
}
