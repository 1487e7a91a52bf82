/** What the feature service's requests do to the stored prerequisites, stated on the stored rows,
    and the invariant that every run of requests keeps. FeatureService proves that the request
    code, with its shared pointers, does exactly this. */
module PrerequisiteRequests {
  import opened PrerequisiteGraph
  import opened PrerequisiteCommands
  import opened PrerequisiteEffects
  import opened PrerequisiteLinks
  import opened Sequences

  type Db = map<string, Row>

  datatype Request =
    | UpdateFeatureTargeting(id: string, cmds: seq<Cmd>)
    | UpdateFeatureVariations(id: string, cmds: seq<Cmd>)
    | ArchiveFeature(id: string)
    | CreateFeature(id: string, variations: seq<string>)

  predicate Live(db: Db, id: string) {
    id in db && !db[id].archived
  }

  /** The prerequisite graph over the unarchived features. */
  function LiveGraph(db: Db): Graph {
    map id | id in db && !db[id].archived :: TargetsOf(db[id].links)
  }

  predicate Offered(db: Db, link: Link) {
    Live(db, link.target) && link.variation in db[link.target].variations
  }

  /** Every prerequisite names an unarchived feature and a variation it has, and there is no cycle
      (in particular no feature is its own prerequisite). */
  ghost predicate Sound(db: Db) {
    && (forall id, k :: Live(db, id) && 0 <= k < |db[id].links| ==> Offered(db, db[id].links[k]))
    && !HasCycle(LiveGraph(db))
  }

  // ----- Acceptance: what the checks of a request let through -----

  function WithLinks(db: Db, id: string, extra: seq<Link>): Graph
    requires Live(db, id)
  {
    LiveGraph(db)[id := TargetsOf(db[id].links) + TargetsOf(extra)]
  }

  /** The graph with all the new edges is closed and acyclic, no new edge is a self edge or repeats
      a target, and each names a variation that exists. */
  ghost predicate AddsAccepted(db: Db, id: string, adds: seq<Link>)
    requires Live(db, id)
  {
    adds == [] ||
    (&& (forall k :: 0 <= k < |adds| ==>
         adds[k].target != id && adds[k].target !in TargetsOf(db[id].links) && Offered(db, adds[k]))
     && NoDuplicates(TargetsOf(adds))
     && Closed(WithLinks(db, id, adds)) && !HasCycle(WithLinks(db, id, adds)))
  }

  ghost predicate TargetingAccepted(db: Db, id: string, cmds: seq<Cmd>) {
    && Live(db, id)
    && (forall c :: c in cmds && c.ChangePrerequisiteVariation? ==> Offered(db, c.link))
    && (forall c :: c in cmds && c.OtherCommand? ==> c.valid)
    && AddsAccepted(db, id, Added(cmds))
  }

  ghost predicate VariationUnused(db: Db, variation: string) {
    forall id :: Live(db, id) ==> forall l :: l in db[id].links ==> l.variation != variation
  }

  ghost predicate VariationsAccepted(db: Db, id: string, cmds: seq<Cmd>) {
    && Live(db, id)
    && forall c :: c in cmds && (c.RemoveVariation? || c.ChangeVariationValue?) ==> VariationUnused(db, c.variation)
  }

  ghost predicate ArchiveAccepted(db: Db, id: string) {
    id != "" && forall a :: Live(db, a) ==> id !in TargetsOf(db[a].links)
  }

  /** The request is carried out. */
  ghost predicate Commits(db: Db, r: Request, db': Db) {
    match r
    case UpdateFeatureTargeting(id, cmds) =>
      && TargetingAccepted(db, id, cmds) && Outcome(db[id], cmds, true).Some?
      && db' == db[id := Outcome(db[id], cmds, true).value]
    case UpdateFeatureVariations(id, cmds) =>
      && VariationsAccepted(db, id, cmds) && Outcome(db[id], cmds, false).Some?
      && db' == db[id := Outcome(db[id], cmds, false).value]
    case ArchiveFeature(id) =>
      ArchiveAccepted(db, id) && id in db && db' == db[id := db[id].(archived := true)]
    case CreateFeature(id, variations) =>
      id !in db && db' == db[id := Row(variations, [], false)]
  }

  /** Every link to the feature names a variation that the commands leave. */
  ghost predicate LinksSurvive(db: Db, id: string, cmds: seq<Cmd>)
    requires id in db
  {
    forall a, l :: Live(db, a) && l in db[a].links && l.target == id ==> Survives(db[id].variations, cmds, l.variation)
  }

  /** Every link that the commands leave names an unarchived feature and a variation it has, and no target
      added more often than removed already reaches the feature. */
  ghost predicate WritesSafely(db: Db, id: string, cmds: seq<Cmd>)
    requires id in db
  {
    && (forall t, v :: v in FinalVariations(db[id].links, cmds, t) ==> Offered(db, Link(t, v)))
    && forall t :: Removals(cmds, t) < Count(TargetsOf(Added(cmds)), t) ==> !Reaches(LiveGraph(db), t, id)
  }

  /** What a request must satisfy beyond the checks of its own endpoint. */
  ghost predicate Safe(db: Db, r: Request) {
    match r
    case UpdateFeatureTargeting(id, cmds) => id in db ==> LinksSurvive(db, id, cmds)
    case UpdateFeatureVariations(id, cmds) => id in db ==> WritesSafely(db, id, cmds)
    case _ => true
  }

  // ----- Which requests keep the stored graph sound -----

  lemma TargetingKeepsAcyclic(db: Db, id: string, cmds: seq<Cmd>, db': Db)
    requires Sound(db) && Commits(db, UpdateFeatureTargeting(id, cmds), db')
    ensures !HasCycle(LiveGraph(db'))
  {
    OutcomeViews(db[id], cmds, true);
    hide Outcome;
    var g, g' := WithLinks(db, id, Added(cmds)), LiveGraph(db');
    forall a, b | Edge(g', a, b) ensures Edge(g, a, b) {
      if a == id {
        TargetsComeFrom(db[id], cmds, b);
      }
    }
    CycleInSubgraph(g', g);
    if Added(cmds) == [] {
      assert TargetsOf(db[id].links) + TargetsOf(Added(cmds)) == TargetsOf(db[id].links);
      assert g == LiveGraph(db);
    }
  }

  /** A link that was offered before is offered after a rewrite of the row of `id`, unless it names a
      variation of `id` that is gone. */
  lemma OfferedAfter(db: Db, id: string, db': Db, l: Link)
    requires Live(db, id) && Live(db', id) && db' == db[id := db'[id]] && Offered(db, l)
    ensures Offered(db', l) <==> (l.target == id ==> l.variation in db'[id].variations)
  {
  }

  /** Every link stored after an accepted targeting request was offered before it. */
  lemma TargetingLinksOffered(db: Db, id: string, cmds: seq<Cmd>, db': Db, a: string, l: Link)
    requires Sound(db) && Commits(db, UpdateFeatureTargeting(id, cmds), db')
    requires Live(db', a) && l in db'[a].links
    ensures Offered(db, l)
  {
    OutcomeViews(db[id], cmds, true);
    hide Outcome;
    if a == id && l !in db[id].links {
      AddedMembership(cmds, l);
    }
  }

  /** A targeting request keeps the graph sound exactly when the links to its feature keep their
      variations. */
  lemma TargetingSoundExactly(db: Db, id: string, cmds: seq<Cmd>, db': Db)
    requires Sound(db) && Commits(db, UpdateFeatureTargeting(id, cmds), db')
    ensures Sound(db') <==> LinksSurvive(db, id, cmds)
  {
    OutcomeViews(db[id], cmds, true);
    TargetingKeepsAcyclic(db, id, cmds, db');
    forall v ensures v in db'[id].variations <==> Survives(db[id].variations, cmds, v) {
      SurvivesExactly(Shape(TargetsOf(db[id].links) + TargetsOf(Added(cmds)), db[id].variations), cmds, v);
    }
    hide Survives, HandleAll;
    NoSelfEdges(db);
    NoSelfEdges(db');
    if LinksSurvive(db, id, cmds) {
      forall a, k | Live(db', a) && 0 <= k < |db'[a].links| ensures Offered(db', db'[a].links[k]) {
        var l := db'[a].links[k];
        TargetingLinksOffered(db, id, cmds, db', a, l);
        assert TargetsOf(db'[a].links)[k] == l.target;
        OfferedAfter(db, id, db', l);
      }
    }
    if Sound(db') {
      forall a, l | Live(db, a) && l in db[a].links && l.target == id
        ensures Survives(db[id].variations, cmds, l.variation)
      {
        var k :| 0 <= k < |db[a].links| && db[a].links[k] == l;
        assert TargetsOf(db[a].links)[k] == id;
        assert Offered(db', db'[a].links[k]);
      }
    }
  }

  lemma NoSelfEdges(db: Db)
    requires !HasCycle(LiveGraph(db))
    ensures forall id :: Live(db, id) ==> id !in TargetsOf(db[id].links)
  {
    forall id | Live(db, id) ensures id !in TargetsOf(db[id].links) {
      if id in TargetsOf(db[id].links) {
        SelfEdgeIsCycle(LiveGraph(db), id);
      }
    }
  }

  /** The same on the list of commands, for distinct variation ids and new ids of added variations: no
      command removes a variation that an unarchived feature depends on. */
  lemma TargetingSoundOnCommands(db: Db, id: string, cmds: seq<Cmd>, db': Db)
    requires Sound(db) && Commits(db, UpdateFeatureTargeting(id, cmds), db')
    requires NoDuplicates(db[id].variations)
    requires forall c :: c in cmds && c.AddVariation? ==> c.variation !in db[id].variations
    ensures Sound(db') <==>
            forall c :: c in cmds && c.RemoveVariation? ==>
              forall a :: Live(db, a) ==> Link(id, c.variation) !in db[a].links
  {
    TargetingSoundExactly(db, id, cmds, db');
    hide Survives, Commits;
    forall a, l | Live(db, a) && l in db[a].links && l.target == id
      ensures Survives(db[id].variations, cmds, l.variation) <==> !Removes(cmds, l.variation)
    {
      var k :| 0 <= k < |db[a].links| && db[a].links[k] == l;
      assert Offered(db, db[a].links[k]);
      SurvivesUnlessRemoved(db[id].variations, cmds, l.variation);
    }
    if LinksSurvive(db, id, cmds) {
      forall c, a | c in cmds && c.RemoveVariation? && Live(db, a) ensures Link(id, c.variation) !in db[a].links {
        var l := Link(id, c.variation);
        assert Removes(cmds, l.variation);
      }
    }
    assert forall a, l :: Live(db, a) && l in db[a].links && l.target == id ==> l == Link(id, l.variation);
  }

  /** The commands of a variations request close a cycle exactly when a target added more often than
      removed already reaches the feature. */
  lemma VariationsCycleExactly(db: Db, id: string, cmds: seq<Cmd>, db': Db)
    requires !HasCycle(LiveGraph(db)) && Commits(db, UpdateFeatureVariations(id, cmds), db')
    ensures HasCycle(LiveGraph(db')) <==>
            exists t :: Removals(cmds, t) < Count(TargetsOf(Added(cmds)), t) && Reaches(LiveGraph(db), t, id)
  {
    var g, ts := LiveGraph(db), TargetsOf(Outcome(db[id], cmds, false).value.links);
    OutcomeViews(db[id], cmds, false);
    assert LiveGraph(db') == g[id := ts];
    NewEdgesCloseCycle(g, id, ts);
    hide Outcome, HasCycle, Reaches, Count, TargetsOf;
    forall t | Reaches(g, t, id)
      ensures t in ts <==> Removals(cmds, t) < Count(TargetsOf(Added(cmds)), t)
    {
      TargetLeftExactly(db[id], cmds, t);
      CountMembership(TargetsOf(db[id].links), t);
      if t in g[id] {
        EdgeBack(g, id, t);
      }
    }
  }

  /** A variations request keeps the graph sound exactly when the prerequisites it happens to write are
      safe; removing variations never breaks it. */
  lemma VariationsSoundExactly(db: Db, id: string, cmds: seq<Cmd>, db': Db)
    requires Sound(db) && Commits(db, UpdateFeatureVariations(id, cmds), db')
    ensures Sound(db') <==> WritesSafely(db, id, cmds)
  {
    OutcomeViews(db[id], cmds, false);
    VariationsCycleExactly(db, id, cmds, db');
    forall t, v ensures Link(t, v) in db'[id].links <==> v in FinalVariations(db[id].links, cmds, t) {
      LeftExactly(db[id], cmds, Link(t, v));
    }
    hide FinalVariations, HasCycle, Reaches, Removals, Count, Outcome;
    if !HasCycle(LiveGraph(db')) {
      NoSelfEdges(db');
      forall a, l | Live(db', a) && l in db'[a].links && Offered(db, l) ensures Offered(db', l) {
        LinkKept(db, id, cmds, db', a, l);
      }
      if WritesSafely(db, id, cmds) {
        forall a, k | Live(db', a) && 0 <= k < |db'[a].links| ensures Offered(db', db'[a].links[k]) {
          assert Link(db'[a].links[k].target, db'[a].links[k].variation) in db'[a].links;
          assert Offered(db, db'[a].links[k]);
        }
      }
      if Sound(db') {
        forall l | l in db'[id].links ensures Offered(db, l) {
          var k :| 0 <= k < |db'[id].links| && db'[id].links[k] == l;
          assert TargetsOf(db'[id].links)[k] == l.target;
          assert Offered(db', l);
        }
      }
    }
  }

  lemma LinkKept(db: Db, id: string, cmds: seq<Cmd>, db': Db, a: string, l: Link)
    requires Commits(db, UpdateFeatureVariations(id, cmds), db')
    requires Live(db', a) && id !in TargetsOf(db'[id].links) && l in db'[a].links && Offered(db, l)
    ensures Offered(db', l)
  {
    OutcomeViews(db[id], cmds, false);
    hide Outcome;
    var k :| 0 <= k < |db'[a].links| && db'[a].links[k] == l;
    assert TargetsOf(db'[a].links)[k] == l.target;
    if l.target == id {
      VariationKept(db, id, cmds, a, l);
    }
  }

  /** The check of a variations request protects the variations that links to its feature name. */
  lemma VariationKept(db: Db, id: string, cmds: seq<Cmd>, a: string, l: Link)
    requires VariationsAccepted(db, id, cmds) && VariationsShape(db[id], cmds).Some?
    requires Live(db, a) && l in db[a].links && l.target == id && Offered(db, l)
    ensures l.variation in VariationsShape(db[id], cmds).value.variations
  {
    var s := Shape(TargetsOf(db[id].links), db[id].variations);
    RemovesMeans(cmds, l.variation);
    SurvivesExactly(s, cmds, l.variation);
    CountMembership(db[id].variations, l.variation);
    assert forall c :: c in cmds && c.RemoveVariation? ==> VariationUnused(db, c.variation);
  }

  /** For a variations request that only adds prerequisites: safe exactly when every added link is
      offered and no added target reaches the feature, which is what the targeting endpoint checks. */
  lemma VariationsSoundOnAdditions(db: Db, id: string, cmds: seq<Cmd>, db': Db)
    requires Sound(db) && Commits(db, UpdateFeatureVariations(id, cmds), db')
    requires forall c :: c in cmds ==> !c.ChangePrerequisiteVariation? && !c.RemovePrerequisite?
    ensures Sound(db') <==>
            forall l :: l in Added(cmds) ==> Offered(db, l) && !Reaches(LiveGraph(db), l.target, id)
  {
    VariationsSoundExactly(db, id, cmds, db');
    OutcomeLinks(db[id], cmds);
    AdditionsOutcome(db[id].links, cmds);
    hide FinalVariations, HasCycle, Reaches, Outcome;
    forall t, v ensures v in FinalVariations(db[id].links, cmds, t) <==> Link(t, v) in db[id].links + Added(cmds) {
      LeftExactly(db[id], cmds, Link(t, v));
    }
    forall t ensures Removals(cmds, t) < Count(TargetsOf(Added(cmds)), t) <==>
                     exists l :: l in Added(cmds) && l.target == t {
      AddedWithoutRemovals(cmds, t);
    }
    forall l | l in db[id].links ensures Offered(db, l) {
      var k :| 0 <= k < |db[id].links| && db[id].links[k] == l;
      assert Offered(db, db[id].links[k]);
    }
    assert forall l: Link :: l == Link(l.target, l.variation);
  }

  lemma AddedWithoutRemovals(cmds: seq<Cmd>, t: string)
    requires forall c :: c in cmds ==> !c.RemovePrerequisite?
    ensures Removals(cmds, t) < Count(TargetsOf(Added(cmds)), t) <==> exists l :: l in Added(cmds) && l.target == t
  {
    RemovalsMembership(cmds, t);
    var adds := Added(cmds);
    CountMembership(TargetsOf(adds), t);
    if t in TargetsOf(adds) {
      var k :| 0 <= k < |adds| && TargetsOf(adds)[k] == t;
      assert adds[k] in adds;
    }
    if l :| l in adds && l.target == t {
      var k :| 0 <= k < |adds| && adds[k] == l;
      assert TargetsOf(adds)[k] == t;
    }
  }

  lemma ArchiveKeepsSound(db: Db, id: string, db': Db)
    requires Sound(db) && Commits(db, ArchiveFeature(id), db')
    ensures Sound(db')
  {
    assert Subgraph(LiveGraph(db'), LiveGraph(db));
    CycleInSubgraph(LiveGraph(db'), LiveGraph(db));
    forall a, k | Live(db', a) && 0 <= k < |db'[a].links| ensures Offered(db', db'[a].links[k]) {
      assert TargetsOf(db[a].links)[k] != id;
    }
  }

  lemma CreateKeepsSound(db: Db, id: string, variations: seq<string>, db': Db)
    requires Sound(db) && Commits(db, CreateFeature(id, variations), db')
    ensures Sound(db')
  {
    assert Subgraph(LiveGraph(db'), LiveGraph(db));
    CycleInSubgraph(LiveGraph(db'), LiveGraph(db));
    forall a, k | Live(db', a) && 0 <= k < |db'[a].links| ensures Offered(db', db'[a].links[k]) {
      assert Live(db, a);
    }
  }

  /** Any request that is carried out keeps the graph sound exactly when it is safe. */
  lemma CommitSoundExactly(db: Db, r: Request, db': Db)
    requires Sound(db) && Commits(db, r, db')
    ensures Sound(db') <==> Safe(db, r)
  {
    hide Sound, Outcome, LinksSurvive, WritesSafely;
    match r
    case UpdateFeatureTargeting(id, cmds) => TargetingSoundExactly(db, id, cmds, db');
    case UpdateFeatureVariations(id, cmds) => VariationsSoundExactly(db, id, cmds, db');
    case ArchiveFeature(id) => ArchiveKeepsSound(db, id, db');
    case CreateFeature(id, variations) => CreateKeepsSound(db, id, variations, db');
  }

  /** Each command goes through the endpoint that checks it. */
  predicate Routed(r: Request) {
    match r
    case UpdateFeatureTargeting(_, cmds) => forall c :: c in cmds ==> !c.RemoveVariation?
    case UpdateFeatureVariations(_, cmds) =>
      forall c :: c in cmds ==> !c.AddPrerequisite? && !c.ChangePrerequisiteVariation?
    case _ => true
  }

  /** That is enough for safety. */
  lemma RoutedIsSafe(db: Db, r: Request, db': Db)
    requires Sound(db) && Commits(db, r, db') && Routed(r)
    ensures Safe(db, r)
  {
    match r
    case UpdateFeatureTargeting(id, cmds) =>
      forall a, l | Live(db, a) && l in db[a].links && l.target == id
        ensures Survives(db[id].variations, cmds, l.variation)
      {
        var k :| 0 <= k < |db[a].links| && db[a].links[k] == l;
        assert Offered(db, db[a].links[k]);
        CountMembership(db[id].variations, l.variation);
        RemovesMeans(cmds, l.variation);
      }
    case UpdateFeatureVariations(id, cmds) =>
      OutcomeViews(db[id], cmds, false);
      forall t, v | v in FinalVariations(db[id].links, cmds, t) ensures Offered(db, Link(t, v)) {
        LeftExactly(db[id], cmds, Link(t, v));
        var k :| 0 <= k < |db[id].links| && db[id].links[k] == Link(t, v);
        assert Offered(db, db[id].links[k]);
      }
      forall t ensures Count(TargetsOf(Added(cmds)), t) == 0 {
        NoAdditions(cmds);
      }
    case _ =>
  }

  lemma NoAdditions(cmds: seq<Cmd>)
    requires forall c :: c in cmds ==> !c.AddPrerequisite?
    ensures Added(cmds) == []
  {
    if cmds != [] {
      NoAdditions(cmds[1..]);
    }
  }

  // ----- Whole runs -----

  /** A run: each request is either carried out or leaves the rows untouched. */
  ghost predicate IsRun(dbs: seq<Db>, requests: seq<Request>) {
    && |dbs| == |requests| + 1
    && forall i :: 0 <= i < |requests| ==> dbs[i + 1] == dbs[i] || Commits(dbs[i], requests[i], dbs[i + 1])
  }

  ghost predicate SafeUpTo(dbs: seq<Db>, requests: seq<Request>, n: nat)
    requires IsRun(dbs, requests) && n < |dbs|
  {
    forall i :: 0 <= i < n && Commits(dbs[i], requests[i], dbs[i + 1]) ==> Safe(dbs[i], requests[i])
  }

  /** Safety over whole runs: from rows without prerequisites, every state of a run is sound if and only
      if every request carried out was safe. */
  lemma {:induction false} RunSoundExactly(dbs: seq<Db>, requests: seq<Request>, n: nat)
    requires IsRun(dbs, requests) && n < |dbs|
    requires forall id :: id in dbs[0] ==> dbs[0][id].links == []
    ensures (forall i :: 0 <= i <= n ==> Sound(dbs[i])) <==> SafeUpTo(dbs, requests, n)
  {
    hide Sound, Safe, Commits;
    if n == 0 {
      SoundAtFirst(dbs[0]);
    } else {
      RunSoundExactly(dbs, requests, n - 1);
      if Sound(dbs[n - 1]) && Commits(dbs[n - 1], requests[n - 1], dbs[n]) {
        CommitSoundExactly(dbs[n - 1], requests[n - 1], dbs[n]);
      }
    }
  }

  lemma SoundAtFirst(db: Db)
    requires forall id :: id in db ==> db[id].links == []
    ensures Sound(db)
  {
    if HasCycle(LiveGraph(db)) {
      CycleHasEdge(LiveGraph(db));
    }
  }

  /** In particular when each command goes through its own endpoint; then the live features can always
      be sorted, and none is its own prerequisite. */
  lemma {:induction false} RoutedRunStaysSound(dbs: seq<Db>, requests: seq<Request>, n: nat)
    requires IsRun(dbs, requests) && n < |dbs|
    requires forall id :: id in dbs[0] ==> dbs[0][id].links == []
    requires forall r :: r in requests ==> Routed(r)
    ensures Sound(dbs[n]) && Closed(LiveGraph(dbs[n]))
    ensures forall id :: Live(dbs[n], id) ==> id !in TargetsOf(dbs[n][id].links)
  {
    hide Safe, Commits, Routed;
    if n == 0 {
      SoundAtFirst(dbs[0]);
    } else {
      RoutedRunStaysSound(dbs, requests, n - 1);
      if Commits(dbs[n - 1], requests[n - 1], dbs[n]) {
        RoutedIsSafe(dbs[n - 1], requests[n - 1], dbs[n]);
        CommitSoundExactly(dbs[n - 1], requests[n - 1], dbs[n]);
      }
    }
    SoundMeans(dbs[n]);
  }

  lemma SoundMeans(db: Db)
    requires Sound(db)
    ensures Closed(LiveGraph(db))
    ensures forall id :: Live(db, id) ==> id !in TargetsOf(db[id].links)
  {
    forall a, b | Edge(LiveGraph(db), a, b) ensures b in LiveGraph(db) {
      var k :| 0 <= k < |db[a].links| && TargetsOf(db[a].links)[k] == b;
      assert Offered(db, db[a].links[k]);
    }
    NoSelfEdges(db);
  }

  // ----- Repeated edges -----

  /** How often `id` stores an edge to `t`. */
  function Edges(db: Db, id: string, t: string): nat {
    if id in db then Count(TargetsOf(db[id].links), t) else 0
  }

  /** What a request that is carried out adds to that number: two for each addition through the targeting
      endpoint, once appended by the check and once by the command. */
  function Gain(r: Request, id: string, t: string): int {
    match r
    case UpdateFeatureTargeting(f, cmds) =>
      if f == id then 2 * Count(TargetsOf(Added(cmds)), t) - Removals(cmds, t) else 0
    case UpdateFeatureVariations(f, cmds) => if f == id then Count(TargetsOf(Added(cmds)), t) - Removals(cmds, t) else 0
    case _ => 0
  }

  lemma CommitGains(db: Db, r: Request, db': Db, id: string, t: string)
    requires Commits(db, r, db')
    ensures Edges(db', id, t) == Edges(db, id, t) + Gain(r, id, t)
  {
    if r.UpdateFeatureTargeting? && r.id == id {
      OutcomeViews(db[id], r.cmds, true);
      HandleCount(Shape(TargetsOf(db[id].links) + TargetsOf(Added(r.cmds)), db[id].variations), r.cmds, t);
    } else if r.UpdateFeatureVariations? && r.id == id {
      OutcomeViews(db[id], r.cmds, false);
      HandleCount(Shape(TargetsOf(db[id].links), db[id].variations), r.cmds, t);
    }
  }

  function TotalGain(dbs: seq<Db>, requests: seq<Request>, id: string, t: string, n: nat): int
    requires n <= |requests| < |dbs|
  {
    if n == 0 then 0
    else TotalGain(dbs, requests, id, t, n - 1) + if dbs[n] == dbs[n - 1] then 0 else Gain(requests[n - 1], id, t)
  }

  /** Conservation of edges along every run. */
  lemma {:induction false} RunGains(dbs: seq<Db>, requests: seq<Request>, id: string, t: string, n: nat)
    requires IsRun(dbs, requests) && n < |dbs|
    ensures Edges(dbs[n], id, t) == Edges(dbs[0], id, t) + TotalGain(dbs, requests, id, t, n)
  {
    if n > 0 {
      RunGains(dbs, requests, id, t, n - 1);
      if dbs[n] != dbs[n - 1] {
        hide Commits, Edges, Gain;
        CommitGains(dbs[n - 1], requests[n - 1], dbs[n], id, t);
      }
    }
  }

  /** A feature stores no repeated edge after a run exactly when no target gained more than one. */
  lemma RunRepeatsExactly(dbs: seq<Db>, requests: seq<Request>, id: string, n: nat)
    requires IsRun(dbs, requests) && n < |dbs| && id in dbs[n]
    ensures NoDuplicates(TargetsOf(dbs[n][id].links)) <==>
            forall t :: Edges(dbs[0], id, t) + TotalGain(dbs, requests, id, t, n) <= 1
  {
    NoDuplicatesCount(TargetsOf(dbs[n][id].links));
    hide Commits, TotalGain;
    forall t
      ensures Count(TargetsOf(dbs[n][id].links), t) == Edges(dbs[0], id, t) + TotalGain(dbs, requests, id, t, n)
    {
      RunGains(dbs, requests, id, t, n);
    }
  }

  /** The same for one accepted targeting request, from any stored row: of every target the row must have
      had so few edges, or the request must remove so many, that at most one is left. */
  lemma RepeatsExactly(db: Db, id: string, cmds: seq<Cmd>, db': Db)
    requires Commits(db, UpdateFeatureTargeting(id, cmds), db')
    ensures NoDuplicates(TargetsOf(db'[id].links)) <==>
            forall t :: Edges(db, id, t) + 2 * Count(TargetsOf(Added(cmds)), t) <= 1 + Removals(cmds, t)
  {
    NoDuplicatesCount(TargetsOf(db'[id].links));
    forall t
      ensures Count(TargetsOf(db'[id].links), t) == Edges(db, id, t) + Gain(UpdateFeatureTargeting(id, cmds), id, t)
    {
      CommitGains(db, UpdateFeatureTargeting(id, cmds), db', id, t);
    }
  }

  /** From a row without repeats: exactly when every added target is also removed by the request. */
  lemma RepeatsFromDistinct(db: Db, id: string, cmds: seq<Cmd>, db': Db)
    requires Commits(db, UpdateFeatureTargeting(id, cmds), db') && NoDuplicates(TargetsOf(db[id].links))
    ensures NoDuplicates(TargetsOf(db'[id].links)) <==>
            forall l :: l in Added(cmds) ==> RemovePrerequisite(l.target) in cmds
  {
    var adds := TargetsOf(Added(cmds));
    RepeatsExactly(db, id, cmds, db');
    NoDuplicatesCount(TargetsOf(db[id].links));
    NoDuplicatesCount(adds);
    hide Commits, Count, TargetsOf;
    forall t ensures RemovePrerequisite(t) in cmds <==> Removals(cmds, t) > 0
             ensures t in adds <==> Count(adds, t) > 0
             ensures t in adds ==> Edges(db, id, t) == 0
             ensures t in adds <==> exists l :: l in Added(cmds) && l.target == t {
      AddedTarget(db, id, cmds, t);
    }
  }

  lemma AddedTarget(db: Db, id: string, cmds: seq<Cmd>, t: string)
    requires TargetingAccepted(db, id, cmds)
    ensures RemovePrerequisite(t) in cmds <==> Removals(cmds, t) > 0
    ensures var adds := TargetsOf(Added(cmds));
            && (t in adds <==> Count(adds, t) > 0) && (t in adds ==> Edges(db, id, t) == 0)
            && (t in adds <==> exists l :: l in Added(cmds) && l.target == t)
  {
    var adds := TargetsOf(Added(cmds));
    RemovalsMembership(cmds, t);
    CountMembership(adds, t);
    CountMembership(TargetsOf(db[id].links), t);
    if t in adds {
      var k :| 0 <= k < |adds| && adds[k] == t;
      assert Added(cmds)[k] in Added(cmds) && Added(cmds)[k].target == t;
    }
    if l :| l in Added(cmds) && l.target == t {
      var k :| 0 <= k < |adds| && Added(cmds)[k] == l;
      assert adds[k] == t;
    }
  }

  /** A request that stores a repeated edge. */
  lemma RepeatedEdgeExample() returns (db: Db, r: Request, db': Db)
    ensures Sound(db) && Routed(r) && Commits(db, r, db') && Sound(db')
    ensures exists id :: Live(db', id) && !NoDuplicates(TargetsOf(db'[id].links))
  {
    var l := Link("up", "v");
    db := map["f" := Row([], [], false), "up" := Row(["v"], [], false)];
    db' := db["f" := Row([], [l, l], false)];
    r := UpdateFeatureTargeting("f", [AddPrerequisite(l)]);
    assert Sound(db) by {
      assert TargetsOf([]) == [];
      OrderedIsAcyclic(LiveGraph(db), ["f", "up"]);
    }
    ExampleGraph(db, l);
    assert TargetsOf([l, l]) == ["up", "up"] && TargetsOf([]) + ["up"] == ["up"];
    AddOutcome(db["f"], l, true);
    assert [] + [l, l] == [l, l] && Added(r.cmds) == [l] by {
      assert r.cmds[1..] == [];
    }
    hide Outcome;
    RoutedIsSafe(db, r, db');
    CommitSoundExactly(db, r, db');
    assert TargetsOf(db'["f"].links)[0] == TargetsOf(db'["f"].links)[1];
    assert Live(db', "f");
  }

  lemma ExampleGraph(db: Db, l: Link)
    requires db == map["f" := Row([], [], false), "up" := Row(["v"], [], false)] && l == Link("up", "v")
    ensures Closed(WithLinks(db, "f", [l])) && !HasCycle(WithLinks(db, "f", [l]))
  {
    var g := WithLinks(db, "f", [l]);
    assert g.Keys == {"f", "up"} && g["up"] == [];
    assert g["f"] == ["up"];
    assert ["up", "f"][..1] == ["up"];
    OrderedIsAcyclic(g, ["up", "f"]);
  }

  /** One add request followed by one remove request does not undo the add. */
  lemma RemoveDoesNotUndoAdd(db: Db, id: string, l: Link, db1: Db, db2: Db)
    requires Commits(db, UpdateFeatureTargeting(id, [AddPrerequisite(l)]), db1)
    requires Commits(db1, UpdateFeatureTargeting(id, [RemovePrerequisite(l.target)]), db2)
    ensures Edge(LiveGraph(db2), id, l.target)
  {
    var add, remove := [AddPrerequisite(l)], [RemovePrerequisite(l.target)];
    CommitGains(db, UpdateFeatureTargeting(id, add), db1, id, l.target);
    CommitGains(db1, UpdateFeatureTargeting(id, remove), db2, id, l.target);
    OneCommand(add[0], 0);
    OneCommand(remove[0], 0);
    assert add[1..] == [] && remove[1..] == [] && Removals([], l.target) == 0;
    assert TargetsOf([l]) == [l.target] && TargetsOf([]) == [];
    CountMembership(TargetsOf(db2[id].links), l.target);
  }

  // ----- Unsafe requests that the endpoints accept -----

  /** A variations request adds a prerequisite unchecked. */
  lemma VariationsBreakSoundness() returns (db: Db, r: Request, db': Db)
    ensures r.UpdateFeatureVariations? && Sound(db) && Commits(db, r, db') && !Sound(db')
  {
    var l := Link("f", "v");
    db := map["f" := Row(["v"], [], false)];
    db' := map["f" := Row(["v"], [l], false)];
    r := UpdateFeatureVariations("f", [AddPrerequisite(l)]);
    SoundAtFirst(db);
    AddOutcome(db["f"], l, false);
    assert [] + [l] == [l];
    hide Outcome;
    assert TargetsOf([l])[0] == "f";
    SelfEdgeIsCycle(LiveGraph(db'), "f");
  }

  /** A targeting request removes, unchecked, a variation that another feature depends on. */
  lemma TargetingBreaksSoundness() returns (db: Db, r: Request, db': Db)
    ensures r.UpdateFeatureTargeting? && Sound(db) && Commits(db, r, db') && !Sound(db')
  {
    hide Outcome, Sound, TargetsOf, LinksSurvive;
    var l, cmds := Link("up", "v"), [RemoveVariation("v", false)];
    db := map["f" := Row([], [l], false), "up" := Row(["v"], [], false)];
    r := UpdateFeatureTargeting("up", cmds);
    DependentExample(db, l);
    OneCommand(cmds[0], 0);
    OutcomeViews(db["up"], cmds, true);
    db' := db["up" := Outcome(db["up"], cmds, true).value];
    TargetingSoundExactly(db, "up", cmds, db');
    OnlyVariationRemoved(db, l);
  }

  lemma OnlyVariationRemoved(db: Db, l: Link)
    requires "up" in db && db["up"].variations == ["v"] && Live(db, "f") && l == Link("up", "v") && l in db["f"].links
    ensures !LinksSurvive(db, "up", [RemoveVariation("v", false)])
  {
    assert [RemoveVariation("v", false)][1..] == [];
    assert VariationRemovals([], "v") == 0 && VariationAdditions([], "v") == 0;
  }

  lemma DependentExample(db: Db, l: Link)
    requires db == map["f" := Row([], [l], false), "up" := Row(["v"], [], false)] && l == Link("up", "v")
    ensures Sound(db)
  {
    assert TargetsOf([l]) == ["up"] && TargetsOf([]) == [];
    assert ["up", "f"][..1] == ["up"];
    OrderedIsAcyclic(LiveGraph(db), ["up", "f"]);
  }
}
