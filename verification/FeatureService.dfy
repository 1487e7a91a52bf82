/** The feature service's update requests: list the features of the environment, check every
    command against them, then handle every command and store the one changed row. */
module FeatureService {
  import opened PrerequisiteGraph
  import opened FeatureModel
  import opened PrerequisiteCommands
  import opened PrerequisiteRequests
  import opened PrerequisiteChecks
  import opened Sequences
  import opened Wrappers
  import opened Paging
  import opened ExperimentDomain
  import TopologicalSort

  datatype Status = OK | InvalidPrerequisite | InvalidVariationID | CycleExists | Internal | InvalidArgument

  /** An unmarshalled command. The two prerequisite commands carry a pointer. */
  datatype Command =
    | Add(p: Prerequisite)
    | Change(p: Prerequisite)
    | Plain(cmd: Cmd)

  predicate HasPointer(c: Command) {
    c.Add? || c.Change?
  }

  /** The parts of a command that no handler can change. */
  predicate Decodes(c: Command, cmd: Cmd) {
    match cmd
    case AddPrerequisite(l) => c.Add? && c.p.featureId == l.target
    case ChangePrerequisiteVariation(l) => c.Change? && c.p.featureId == l.target
    case _ => c == Plain(cmd)
  }

  function LinkOf(p: Prerequisite): Link
    reads p
  {
    Link(p.featureId, p.variationId)
  }

  /** `commands` is the unmarshalled form of `cmds`, before any handler ran. */
  ghost predicate Unmarshalled(commands: seq<Command>, cmds: seq<Cmd>)
    reads set c | c in commands && HasPointer(c) :: c.p
  {
    && |commands| == |cmds|
    && (forall i :: 0 <= i < |cmds| ==> Decodes(commands[i], cmds[i]))
    && (forall i :: 0 <= i < |cmds| && HasPointer(commands[i]) ==> LinkOf(commands[i].p) == cmds[i].link)
  }

  ghost predicate LinksAre(ps: seq<Prerequisite>, links: seq<Link>)
    reads ps
  {
    |ps| == |links| && forall i :: 0 <= i < |ps| ==> LinkOf(ps[i]) == links[i]
  }

  /** `fs` lists the unarchived features, each once, with the stored variations. */
  ghost predicate Lists(fs: seq<Feature>, db: Db)
    reads fs
  {
    && NoDuplicates(Ids(fs))
    && (forall f :: f in fs ==> Live(db, f.id) && f.variations == db[f.id].variations)
    && forall id :: Live(db, id) ==> id in Ids(fs)
  }

  // ----- Checks -----

  method FindFeature(fs: seq<Feature>, id: string) returns (f: Feature?)
    ensures f == null <==> id !in Ids(fs)
    ensures f != null ==> f in fs && f.id == id
  {
    for i := 0 to |fs|
      invariant forall k :: 0 <= k < i ==> fs[k].id != id
    {
      if fs[i].id == id {
        assert Ids(fs)[i] == id;
        return fs[i];
      }
    }
    return null;
  }

  method ValidateVariationID(fs: seq<Feature>, p: Prerequisite, ghost db: Db) returns (st: Status)
    requires Lists(fs, db)
    ensures st == if Offered(db, LinkOf(p)) then OK else if Live(db, p.featureId) then InvalidVariationID else Internal
  {
    var f := FindFeature(fs, p.featureId);
    if f == null {
      return Internal;
    }
    if p.variationId in f.variations {
      return OK;
    }
    return InvalidVariationID;
  }

  /** Appends the prerequisite to the listed feature itself before it looks for cycles. */
  method ValidateAddPrerequisite(fs: seq<Feature>, tarF: Feature, p: Prerequisite, ghost db: Db, ghost adds: seq<Link>)
    returns (st: Status)
    requires tarF in fs && Lists(fs, db) && Draws(fs, WithLinks(db, tarF.id, adds))
    modifies tarF`prerequisites
    ensures st == OK <==> StepAccepted(db, tarF.id, adds, AddPrerequisite(LinkOf(p)))
    ensures st == OK || st == CycleExists ==> tarF.prerequisites == old(tarF.prerequisites) + [p]
    ensures st == OK ==> Draws(fs, WithLinks(db, tarF.id, adds + [LinkOf(p)]))
    ensures st == CycleExists ==> HasCycle(WithLinks(db, tarF.id, adds + [LinkOf(p)]))
    ensures st == InvalidPrerequisite <==> tarF.id == p.featureId || p.featureId in Targets(old(tarF.prerequisites))
    ensures st == InvalidVariationID ==> !Offered(db, LinkOf(p))
  {
    hide HasCycle, Closed;
    if tarF.id == p.featureId {
      return InvalidPrerequisite;
    }
    for i := 0 to |tarF.prerequisites|
      invariant forall k :: 0 <= k < i ==> tarF.prerequisites[k].featureId != p.featureId
    {
      if tarF.prerequisites[i].featureId == p.featureId {
        assert Targets(tarF.prerequisites)[i] == p.featureId;
        return InvalidPrerequisite;
      }
    }
    var e := ValidateVariationID(fs, p, db);
    if e != OK {
      return e;
    }
    ghost var l := LinkOf(p);
    ghost var g := WithLinks(db, tarF.id, adds + [l]);
    OtherIdsDiffer(fs, tarF);
    assert g[tarF.id] == Targets(tarF.prerequisites) + [p.featureId];
    tarF.prerequisites := tarF.prerequisites + [p];
    var _, err := TopologicalSort.Sort(fs, g);
    match err {
      case NoError => return OK;
      case ErrCycleExists => return CycleExists;
      case ErrFeatureNotFound => return Internal;
    }
  }

  lemma OtherIdsDiffer(fs: seq<Feature>, tarF: Feature)
    requires tarF in fs && NoDuplicates(Ids(fs))
    ensures forall f :: f in fs && f != tarF ==> f.id != tarF.id
  {
  }

  method ValidateFeatureTargetingCommand(
    fs: seq<Feature>, tarF: Feature, c: Command, ghost cmd: Cmd, ghost db: Db, ghost adds: seq<Link>)
    returns (st: Status)
    requires tarF in fs && Lists(fs, db) && Draws(fs, WithLinks(db, tarF.id, adds))
    requires Decodes(c, cmd) && (HasPointer(c) ==> LinkOf(c.p) == cmd.link)
    modifies tarF`prerequisites
    ensures st == OK <==> StepAccepted(db, tarF.id, adds, cmd)
    ensures st == OK ==> Draws(fs, WithLinks(db, tarF.id, adds + if c.Add? then [cmd.link] else []))
    ensures st == OK ==> tarF.prerequisites == old(tarF.prerequisites) + if c.Add? then [c.p] else []
  {
    assert adds + [] == adds;
    match c {
      case Add(p) => st := ValidateAddPrerequisite(fs, tarF, p, db, adds);
      case Change(p) => st := ValidateVariationID(fs, p, db);
      case Plain(k) => return if k.OtherCommand? && !k.valid then InvalidArgument else OK;
    }
  }

  function AddPointers(commands: seq<Command>): seq<Prerequisite> {
    if commands == [] then []
    else (if commands[0].Add? then [commands[0].p] else []) + AddPointers(commands[1..])
  }

  lemma {:induction false} AddPointersSnoc(commands: seq<Command>, c: Command)
    ensures AddPointers(commands + [c]) == AddPointers(commands) + if c.Add? then [c.p] else []
  {
    if commands == [] {
      assert [c][1..] == [] && [] + [c] == [c];
    } else {
      var all := commands + [c];
      assert all[1..] == commands[1..] + [c] && all[0] == commands[0];
      AddPointersSnoc(commands[1..], c);
    }
  }

  /** The checks, one command at a time, each seeing the edges that earlier commands appended, let
      a request through exactly when it is acceptable as a whole. */
  method ValidateTargeting(fs: seq<Feature>, tarF: Feature, commands: seq<Command>, ghost cmds: seq<Cmd>, ghost db: Db)
    returns (ok: bool)
    requires tarF in fs && Lists(fs, db) && Draws(fs, LiveGraph(db)) && Unmarshalled(commands, cmds)
    modifies tarF`prerequisites
    ensures ok <==> TargetingAccepted(db, tarF.id, cmds)
    ensures ok ==> tarF.prerequisites == old(tarF.prerequisites) + AddPointers(commands)
    ensures ok ==> Targets(tarF.prerequisites) == TargetsOf(db[tarF.id].links) + TargetsOf(Added(cmds))
  {
    hide TargetingAccepted, StepAccepted, Draws;
    NothingAdded(db, tarF.id);
    ghost var adds: seq<Link> := [];
    for i := 0 to |commands|
      invariant adds == Added(cmds[..i]) && Draws(fs, WithLinks(db, tarF.id, adds))
      invariant TargetingAccepted(db, tarF.id, cmds[..i])
      invariant tarF.prerequisites == old(tarF.prerequisites) + AddPointers(commands[..i])
    {
      assert cmds[..i + 1] == cmds[..i] + [cmds[i]] && commands[..i + 1] == commands[..i] + [commands[i]];
      AcceptedSnoc(db, tarF.id, cmds[..i], cmds[i]);
      AddedSnoc(cmds[..i], cmds[i]);
      AddPointersSnoc(commands[..i], commands[i]);
      var st := ValidateFeatureTargetingCommand(fs, tarF, commands[i], cmds[i], db, adds);
      if st != OK {
        if TargetingAccepted(db, tarF.id, cmds) {
          AcceptedPrefix(db, tarF.id, cmds, i + 1);
        }
        return false;
      }
      adds := adds + if commands[i].Add? then [cmds[i].link] else [];
    }
    assert cmds[..|commands|] == cmds && commands[..|commands|] == commands;
    DrawnTargets(fs, tarF, WithLinks(db, tarF.id, adds));
    return true;
  }

  lemma DrawnTargets(fs: seq<Feature>, f: Feature, g: Graph)
    requires Draws(fs, g) && f in fs
    ensures f.id in g && Targets(f.prerequisites) == g[f.id]
  {
  }

  method ValidateVariationCommand(fs: seq<Feature>, variation: string) returns (ok: bool)
    ensures ok <==> forall f :: f in fs ==> forall p :: p in f.prerequisites ==> p.variationId != variation
  {
    for i := 0 to |fs|
      invariant forall k :: 0 <= k < i ==> forall p :: p in fs[k].prerequisites ==> p.variationId != variation
    {
      for j := 0 to |fs[i].prerequisites|
        invariant forall k :: 0 <= k < j ==> fs[i].prerequisites[k].variationId != variation
      {
        if fs[i].prerequisites[j].variationId == variation {
          assert fs[i] in fs && fs[i].prerequisites[j] in fs[i].prerequisites;
          return false;
        }
      }
    }
    return true;
  }

  method ValidateVariations(fs: seq<Feature>, commands: seq<Command>, ghost cmds: seq<Cmd>, ghost db: Db)
    returns (ok: bool)
    requires Lists(fs, db) && Unmarshalled(commands, cmds)
    requires forall k :: 0 <= k < |fs| ==> LinksAre(fs[k].prerequisites, db[fs[k].id].links)
    ensures ok <==> forall c :: c in cmds && (c.RemoveVariation? || c.ChangeVariationValue?) ==>
            VariationUnused(db, c.variation)
  {
    hide VariationUnused;
    for i := 0 to |commands|
      invariant forall k :: 0 <= k < i && (cmds[k].RemoveVariation? || cmds[k].ChangeVariationValue?) ==>
                VariationUnused(db, cmds[k].variation)
    {
      if commands[i].Plain? && (commands[i].cmd.RemoveVariation? || commands[i].cmd.ChangeVariationValue?) {
        var unused := ValidateVariationCommand(fs, commands[i].cmd.variation);
        UnusedInListing(fs, db, commands[i].cmd.variation);
        if !unused {
          assert cmds[i] in cmds;
          return false;
        }
      }
    }
    return true;
  }

  method ValidateArchiveFeature(fs: seq<Feature>, id: string, ghost db: Db) returns (ok: bool)
    requires Draws(fs, LiveGraph(db))
    ensures ok <==> forall a :: Live(db, a) ==> id !in TargetsOf(db[a].links)
  {
    for i := 0 to |fs|
      invariant forall k :: 0 <= k < i ==> id !in Targets(fs[k].prerequisites)
    {
      for j := 0 to |fs[i].prerequisites|
        invariant forall k :: 0 <= k < j ==> fs[i].prerequisites[k].featureId != id
      {
        if fs[i].prerequisites[j].featureId == id {
          assert fs[i] in fs && Targets(fs[i].prerequisites)[j] == id;
          return false;
        }
      }
    }
    forall a | Live(db, a) ensures id !in TargetsOf(db[a].links) {
      assert a in LiveGraph(db);
      var k :| 0 <= k < |fs| && Ids(fs)[k] == a;
      assert fs[k] in fs;
    }
    return true;
  }

  // ----- Handling -----

  /** `objs` are the objects of the request, with the contents and the use that `o` describes. */
  ghost predicate Represents(objs: seq<Prerequisite>, o: Objects, f: Feature)
    reads f, objs
  {
    && |objs| == |o.cells| && NoDuplicates(objs)
    && (forall i :: 0 <= i < |objs| ==> LinkOf(objs[i]) == o.cells[i])
    && f.variations == o.variations && |f.prerequisites| == |o.list|
    && forall i :: 0 <= i < |o.list| ==> o.list[i] < |objs| && f.prerequisites[i] == objs[o.list[i]]
  }

  lemma RepresentedTargets(objs: seq<Prerequisite>, o: Objects, f: Feature)
    requires Represents(objs, o, f)
    ensures Points(o) && Targets(f.prerequisites) == View(o).targets && View(o).variations == f.variations
    ensures forall i :: 0 <= i < |f.prerequisites| ==> f.prerequisites[i] in objs
    ensures LinksAre(f.prerequisites, LinksOf(o))
  {
  }

  method HandleAdd(f: Feature, p: Prerequisite, ghost cmd: Cmd, ghost k: nat, ghost objs: seq<Prerequisite>,
      ghost o: Objects)
    returns (ghost objs': seq<Prerequisite>)
    requires cmd.AddPrerequisite? && cmd.link.target == p.featureId && Represents(objs, o, f) && k < |objs|
             && objs[k] == p
    modifies f`prerequisites
    ensures Points(o) && HandleObject(o, cmd, k).Some? && Represents(objs', HandleObject(o, cmd, k).value, f)
    ensures objs <= objs' && forall i :: |objs| <= i < |objs'| ==> fresh(objs'[i])
  {
    assert LinkOf(p) == o.cells[k];
    f.AddPrerequisite(p.featureId, p.variationId);
    var n := |f.prerequisites| - 1;
    objs' := objs + [f.prerequisites[n]];
  }

  method HandleChange(f: Feature, p: Prerequisite, ghost cmd: Cmd, ghost k: nat, ghost objs: seq<Prerequisite>,
      ghost o: Objects)
    returns (ok: bool)
    requires cmd.ChangePrerequisiteVariation? && cmd.link.target == p.featureId && Represents(objs, o, f)
    requires k < |objs| && objs[k] == p
    modifies objs
    ensures Points(o) && (ok <==> HandleObject(o, cmd, k).Some?)
    ensures ok ==> Represents(objs, HandleObject(o, cmd, k).value, f)
  {
    RepresentedTargets(objs, o, f);
    assert LinkOf(p) == o.cells[k];
    ok := f.ChangePrerequisiteVariation(p.featureId, p.variationId);
    if ok {
      ghost var at := o.list[FirstIndex(View(o).targets, p.featureId)];
      assert objs[at].featureId == p.featureId;
      forall i | 0 <= i < |objs| ensures LinkOf(objs[i]) == o.cells[at := o.cells[k]][i] {
        if i != at {
          assert objs[i] != objs[at];
          assert LinkOf(objs[i]) == old(LinkOf(objs[i]));
        }
      }
    }
  }

  method HandlePlain(f: Feature, cmd: Cmd, ghost k: nat, ghost objs: seq<Prerequisite>, ghost o: Objects)
    returns (ok: bool)
    requires !Pointed(cmd) && Represents(objs, o, f)
    modifies f
    ensures Points(o) && (ok <==> HandleObject(o, cmd, k).Some?)
    ensures ok ==> Represents(objs, HandleObject(o, cmd, k).value, f)
  {
    RepresentedTargets(objs, o, f);
    match cmd {
      case RemovePrerequisite(t) => ok := f.RemovePrerequisite(t);
      case AddVariation(v, typeMatches) => ok := f.AddVariation(v, typeMatches);
      case RemoveVariation(v, inUse) => ok := f.RemoveVariation(v, inUse);
      case ChangeVariationValue(v) =>
        var idx := f.FindVariationIndex(v);
        ok := idx != -1;
      case OtherCommand(_, handled) => ok := handled;
    }
  }

  method Handle(f: Feature, c: Command, ghost cmd: Cmd, ghost k: nat, ghost objs: seq<Prerequisite>, ghost o: Objects)
    returns (ok: bool, ghost objs': seq<Prerequisite>)
    requires Decodes(c, cmd) && Represents(objs, o, f) && (HasPointer(c) ==> k < |objs| && objs[k] == c.p)
    modifies f, objs
    ensures Points(o) && (ok <==> HandleObject(o, cmd, k).Some?)
    ensures ok ==> Represents(objs', HandleObject(o, cmd, k).value, f)
    ensures objs <= objs' && forall i :: |objs| <= i < |objs'| ==> fresh(objs'[i])
  {
    hide Represents, HandleObject;
    objs' := objs;
    match c {
      case Add(p) =>
        objs' := HandleAdd(f, p, cmd, k, objs, o);
        ok := true;
      case Change(p) => ok := HandleChange(f, p, cmd, k, objs, o);
      case Plain(plain) => ok := HandlePlain(f, plain, k, objs, o);
    }
  }

  /** The objects of the commands lie next to each other in `objs`, from `k` on. */
  predicate OwnObjects(commands: seq<Command>, objs: seq<Prerequisite>, k: nat)
    decreases |commands|
  {
    commands == [] ||
    ((HasPointer(commands[0]) ==> k < |objs| && objs[k] == commands[0].p)
     && OwnObjects(commands[1..], objs, k + if HasPointer(commands[0]) then 1 else 0))
  }

  lemma {:induction false} OwnMoreObjects(commands: seq<Command>, objs: seq<Prerequisite>, objs': seq<Prerequisite>,
      k: nat)
    requires OwnObjects(commands, objs, k) && objs <= objs'
    ensures OwnObjects(commands, objs', k)
    decreases |commands|
  {
    if commands != [] {
      OwnMoreObjects(commands[1..], objs, objs', k + if HasPointer(commands[0]) then 1 else 0);
    }
  }

  /** Handles all commands in order, or stops at the first that fails. */
  method HandleCommands(f: Feature, commands: seq<Command>, ghost cmds: seq<Cmd>, ghost k: nat,
                        ghost objs: seq<Prerequisite>, ghost o: Objects)
    returns (ok: bool, ghost objs': seq<Prerequisite>)
    requires |commands| == |cmds| && forall i :: 0 <= i < |cmds| ==> Decodes(commands[i], cmds[i])
    requires Represents(objs, o, f) && OwnObjects(commands, objs, k) && Points(o) && Owns(o, cmds, k)
    modifies f, objs
    ensures ok <==> HandleObjects(o, cmds, k).Some?
    ensures ok ==> Represents(objs', HandleObjects(o, cmds, k).value, f)
  {
    hide Represents, HandleObject, HandleOne;
    objs' := objs;
    ghost var now: Objects, at: nat := o, k;
    for i := 0 to |commands|
      invariant Represents(objs', now, f) && OwnObjects(commands[i..], objs', at) && Points(now)
                && Owns(now, cmds[i..], at)
      invariant HandleObjects(o, cmds, k) == HandleObjects(now, cmds[i..], at)
      invariant objs <= objs' && forall j :: |objs| <= j < |objs'| ==> fresh(objs'[j])
    {
      ghost var rest := cmds[i..];
      assert rest[0] == cmds[i] && rest[1..] == cmds[i + 1..];
      assert commands[i..][0] == commands[i] && commands[i..][1..] == commands[i + 1..];
      HandleObjectViews(now, cmds[i], at);
      ghost var before := objs';
      ok, objs' := Handle(f, commands[i], cmds[i], at, objs', now);
      if !ok {
        return;
      }
      OwnMoreObjects(commands[i..], before, objs', at);
      OwnsStep(now, HandleObject(now, cmds[i], at).value, rest[1..], at + Width(cmds[i]));
      now, at := HandleObject(now, cmds[i], at).value, at + Width(cmds[i]);
    }
    ok := true;
  }

  function Pointers(commands: seq<Command>): seq<Prerequisite> {
    if commands == [] then [] else (if HasPointer(commands[0]) then [commands[0].p] else []) + Pointers(commands[1..])
  }

  lemma {:induction false} PointersSnoc(commands: seq<Command>, c: Command)
    ensures Pointers(commands + [c]) == Pointers(commands) + if HasPointer(c) then [c.p] else []
  {
    if commands == [] {
      assert [c][1..] == [] && [] + [c] == [c];
    } else {
      var all := commands + [c];
      assert all[1..] == commands[1..] + [c] && all[0] == commands[0];
      PointersSnoc(commands[1..], c);
    }
  }

  lemma UnmarshalledTail(commands: seq<Command>, cmds: seq<Cmd>)
    requires Unmarshalled(commands, cmds) && cmds != []
    ensures Unmarshalled(commands[1..], cmds[1..]) && (HasPointer(commands[0]) <==> Pointed(cmds[0]))
    ensures HasPointer(commands[0]) ==> LinkOf(commands[0].p) == cmds[0].link
  {
  }

  /** The pointers of the commands are the objects that the commands own. */
  lemma {:induction false} PointersAreObjects(before: seq<Prerequisite>, commands: seq<Command>, cmds: seq<Cmd>,
      objs: seq<Prerequisite>)
    requires Unmarshalled(commands, cmds) && objs == before + Pointers(commands)
    ensures LinksAre(Pointers(commands), CommandLinks(cmds)) && OwnObjects(commands, objs, |before|)
    ensures var adds := AddObjects(cmds, |before|);
            |adds| == |AddPointers(commands)| && forall i :: 0 <= i < |adds| ==>
                adds[i] < |objs| && objs[adds[i]] == AddPointers(commands)[i]
    decreases |commands|
  {
    if commands != [] {
      UnmarshalledTail(commands, cmds);
      hide Unmarshalled;
      if HasPointer(commands[0]) {
        assert objs == (before + [commands[0].p]) + Pointers(commands[1..]);
        PointersAreObjects(before + [commands[0].p], commands[1..], cmds[1..], objs);
      } else {
        assert Pointers(commands) == Pointers(commands[1..]);
        PointersAreObjects(before, commands[1..], cmds[1..], objs);
      }
    }
  }

  /** What the handlers find is what the request loaded. */
  lemma LoadedRepresented(f: Feature, loaded: seq<Prerequisite>, commands: seq<Command>, cmds: seq<Cmd>, row: Row,
      appended: bool)
    requires Unmarshalled(commands, cmds) && LinksAre(loaded, row.links) && NoDuplicates(loaded + Pointers(commands))
    requires f.prerequisites == loaded + (if appended then AddPointers(commands) else [])
             && f.variations == row.variations
    ensures Represents(loaded + Pointers(commands), Loaded(row, cmds, appended), f)
    ensures OwnObjects(commands, loaded + Pointers(commands), |row.links|)
  {
    var objs, o, n := loaded + Pointers(commands), Loaded(row, cmds, appended), |row.links|;
    PointersAreObjects(loaded, commands, cmds, objs);
    hide AddObjects, CommandLinks, AddPointers, Pointers, OwnObjects;
    forall i | 0 <= i < |o.list| ensures o.list[i] < |objs| && f.prerequisites[i] == objs[o.list[i]] {
      if i < n {
        assert o.list[i] == i;
      } else {
        assert o.list[i] == AddObjects(cmds, n)[i - n] && f.prerequisites[i] == AddPointers(commands)[i - n];
      }
    }
  }

  method UnmarshalCommands(cmds: seq<Cmd>) returns (commands: seq<Command>, ghost pointers: seq<Prerequisite>)
    ensures Unmarshalled(commands, cmds) && pointers == Pointers(commands)
    ensures NoDuplicates(pointers) && forall k :: 0 <= k < |pointers| ==> fresh(pointers[k])
  {
    commands, pointers := [], [];
    for i := 0 to |cmds|
      invariant Unmarshalled(commands, cmds[..i]) && pointers == Pointers(commands)
      invariant NoDuplicates(pointers) && forall k :: 0 <= k < |pointers| ==> fresh(pointers[k])
    {
      var c := UnmarshalCommand(cmds[i]);
      PointersSnoc(commands, c);
      commands, pointers := commands + [c], pointers + if HasPointer(c) then [c.p] else [];
    }
    assert cmds[..|cmds|] == cmds;
  }

  method UnmarshalCommand(cmd: Cmd) returns (c: Command)
    ensures Decodes(c, cmd)
    ensures HasPointer(c) ==> fresh(c.p) && LinkOf(c.p) == cmd.link
  {
    match cmd {
      case AddPrerequisite(l) =>
        var p := new Prerequisite(l.target, l.variation);
        return Add(p);
      case ChangePrerequisiteVariation(l) =>
        var p := new Prerequisite(l.target, l.variation);
        return Change(p);
      case _ => return Plain(cmd);
    }
  }

  method LoadFeature(id: string, row: Row) returns (f: Feature)
    ensures fresh(f) && f.id == id && f.variations == row.variations
    ensures LinksAre(f.prerequisites, row.links) && NoDuplicates(f.prerequisites)
    ensures forall k :: 0 <= k < |f.prerequisites| ==> fresh(f.prerequisites[k])
  {
    var ps: seq<Prerequisite> := [];
    for i := 0 to |row.links|
      invariant LinksAre(ps, row.links[..i]) && NoDuplicates(ps)
      invariant forall k :: 0 <= k < |ps| ==> fresh(ps[k])
    {
      var p := new Prerequisite(row.links[i].target, row.links[i].variation);
      ps := ps + [p];
    }
    f := new Feature(id, row.variations, ps);
  }

  method StoredRow(f: Feature, archived: bool) returns (row: Row)
    ensures row.variations == f.variations && row.archived == archived && LinksAre(f.prerequisites, row.links)
  {
    var links: seq<Link> := [];
    for i := 0 to |f.prerequisites|
      invariant LinksAre(f.prerequisites[..i], links)
    {
      links := links + [Link(f.prerequisites[i].featureId, f.prerequisites[i].variationId)];
    }
    assert f.prerequisites[..|f.prerequisites|] == f.prerequisites;
    return Row(f.variations, links, archived);
  }

  /** The feature and the commands as the handlers find them. */
  ghost predicate ReadyToHandle(f: Feature, commands: seq<Command>, objs: seq<Prerequisite>, cmds: seq<Cmd>, row: Row,
      appended: bool)
    reads f, objs
  {
    && |commands| == |cmds| && (forall i :: 0 <= i < |cmds| ==> Decodes(commands[i], cmds[i]))
    && Represents(objs, Loaded(row, cmds, appended), f) && OwnObjects(commands, objs, |row.links|)
  }

  method ValidateLoaded(fs: seq<Feature>, f: Feature, commands: seq<Command>, ghost cmds: seq<Cmd>, ghost db: Db)
    returns (ok: bool, ghost objs: seq<Prerequisite>)
    requires f in fs && Lists(fs, db) && Draws(fs, LiveGraph(db)) && Unmarshalled(commands, cmds)
    requires LinksAre(f.prerequisites, db[f.id].links) && NoDuplicates(f.prerequisites + Pointers(commands))
    modifies f`prerequisites
    ensures ok <==> TargetingAccepted(db, f.id, cmds)
    ensures objs == old(f.prerequisites) + Pointers(commands)
    ensures ok ==> ReadyToHandle(f, commands, objs, cmds, db[f.id], true)
  {
    hide TargetingAccepted, Draws;
    ghost var loaded := f.prerequisites;
    objs := loaded + Pointers(commands);
    ok := ValidateTargeting(fs, f, commands, cmds, db);
    if ok {
      LoadedRepresented(f, loaded, commands, cmds, db[f.id], true);
    }
  }

  /** The experiments of a feature could be listed, and all of them are finished. */
  ghost predicate Editable(experiments: Option<seq<Experiment>>, now: int)
    reads if experiments.Some? then set e | e in experiments.value else {}
  {
    && experiments.Some?
    && forall i :: 0 <= i < |experiments.value| ==> !ExperimentRuns.IsNotFinished(experiments.value[i].Abstract(), now)
  }

  class Service {
    var rows: Db

    /** The unarchived features of the environment, in any order. */
    method ListFeatures() returns (fs: seq<Feature>)
      ensures Lists(fs, rows) && Draws(fs, LiveGraph(rows))
      ensures forall k :: 0 <= k < |fs| ==> fresh(fs[k]) && LinksAre(fs[k].prerequisites, rows[fs[k].id].links)
      ensures forall k, j :: 0 <= k < |fs| && 0 <= j < |fs[k].prerequisites| ==> fresh(fs[k].prerequisites[j])
      ensures forall k :: 0 <= k < |fs| ==> NoDuplicates(fs[k].prerequisites)
    {
      fs := [];
      var todo := set id | id in rows && !rows[id].archived;
      while todo != {}
        invariant forall id :: Live(rows, id) <==> id in todo || id in Ids(fs)
        invariant NoDuplicates(Ids(fs)) && forall k :: 0 <= k < |fs| ==> fs[k].id !in todo && Live(rows, fs[k].id)
        invariant forall k :: 0 <= k < |fs| ==> fresh(fs[k]) && fs[k].variations == rows[fs[k].id].variations
        invariant forall k :: 0 <= k < |fs| ==> LinksAre(fs[k].prerequisites, rows[fs[k].id].links)
        invariant forall k, j :: 0 <= k < |fs| && 0 <= j < |fs[k].prerequisites| ==> fresh(fs[k].prerequisites[j])
        invariant forall k :: 0 <= k < |fs| ==> NoDuplicates(fs[k].prerequisites)
      {
        var id :| id in todo;
        var f := LoadFeature(id, rows[id]);
        assert Ids(fs + [f]) == Ids(fs) + [id];
        fs, todo := fs + [f], todo - {id};
      }
      forall k | 0 <= k < |fs| ensures Targets(fs[k].prerequisites) == TargetsOf(rows[fs[k].id].links) {
        assert forall j :: 0 <= j < |fs[k].prerequisites| ==> LinkOf(fs[k].prerequisites[j]) == rows[fs[k].id].links[j];
      }
    }

    method ListAndFind(id: string) returns (fs: seq<Feature>, f: Feature?)
      ensures Lists(fs, rows) && Draws(fs, LiveGraph(rows))
      ensures f != null <==> Live(rows, id)
      ensures f != null ==> f in fs && fresh(f) && f.id == id && f.variations == rows[id].variations
      ensures f != null ==> LinksAre(f.prerequisites, rows[id].links) && NoDuplicates(f.prerequisites)
      ensures f != null ==> forall j :: 0 <= j < |f.prerequisites| ==> fresh(f.prerequisites[j])
    {
      fs := ListFeatures();
      f := FindFeature(fs, id);
      Listed(fs, rows, id);
      ghost var i :| f != null ==> 0 <= i < |fs| && fs[i] == f;
    }

    /** Lists the features, finds the target and checks the commands on it. */
    method CheckTargeting(id: string, cmds: seq<Cmd>)
      returns (f: Feature?, commands: seq<Command>, ghost objs: seq<Prerequisite>)
      ensures f != null <==> TargetingAccepted(rows, id, cmds)
      ensures f != null ==> fresh(f) && f.id == id && forall k :: 0 <= k < |objs| ==> fresh(objs[k])
      ensures f != null ==> ReadyToHandle(f, commands, objs, cmds, rows[id], true)
    {
      hide AddsAccepted, Draws, ReadyToHandle, LiveGraph;
      objs := [];
      ghost var pointers;
      commands, pointers := UnmarshalCommands(cmds);
      var fs;
      fs, f := ListAndFind(id);
      if f == null {
        return;
      }
      DistinctObjects(f.prerequisites, pointers);
      var accepted;
      accepted, objs := ValidateLoaded(fs, f, commands, cmds, rows);
      if !accepted {
        return null, commands, [];
      }
    }

    /** Handles the checked commands and stores the result, or changes nothing. */
    method HandleAndStore(f: Feature, commands: seq<Command>, ghost cmds: seq<Cmd>, ghost objs: seq<Prerequisite>,
        ghost appended: bool)
      returns (ok: bool)
      requires Live(rows, f.id) && ReadyToHandle(f, commands, objs, cmds, rows[f.id], appended)
      modifies this, f, objs
      ensures ok <==> Outcome(old(rows)[f.id], cmds, appended).Some?
      ensures rows == if ok then old(rows)[f.id := Outcome(old(rows)[f.id], cmds, appended).value] else old(rows)
    {
      hide Represents;
      ghost var row := rows[f.id];
      LoadedViews(row, cmds, appended);
      ghost var objs';
      ok, objs' := HandleCommands(f, commands, cmds, |row.links|, objs, Loaded(row, cmds, appended));
      if ok {
        ghost var o := HandleObjects(Loaded(row, cmds, appended), cmds, |row.links|).value;
        RepresentedTargets(objs', o, f);
        var stored := StoredRow(f, rows[f.id].archived);
        LinksDetermined(f.prerequisites, stored.links, LinksOf(o));
        rows := rows[f.id := stored];
      }
    }

    /** Asks for the feature's experiments page by page and looks for an unfinished one. */
    method IsEditable(experiments: Option<seq<Experiment>>, now: int) returns (editable: bool)
      ensures editable <==> Editable(experiments, now)
    {
      if experiments.None? {
        return false;
      }
      var listed := Gather(experiments.value);
      var running := ContainsRunningExperiment(listed, now);
      return !running;
    }

    method UpdateFeatureTargeting(id: string, cmds: seq<Cmd>, experiments: Option<seq<Experiment>>, now: int,
        stored: bool)
      returns (ok: bool)
      modifies this
      ensures ok ==> Commits(old(rows), Request.UpdateFeatureTargeting(id, cmds), rows)
      ensures !ok ==> rows == old(rows)
      ensures ok <==> id != "" && Editable(experiments, now) && stored &&
                      TargetingAccepted(old(rows), id, cmds) && Outcome(old(rows)[id], cmds, true).Some?
    {
      hide AddsAccepted, Outcome, ReadyToHandle;
      var editable := IsEditable(experiments, now);
      if id == "" || !editable || !stored {
        return false;
      }
      var f, commands;
      ghost var objs;
      f, commands, objs := CheckTargeting(id, cmds);
      if f == null {
        return false;
      }
      ok := HandleAndStore(f, commands, cmds, objs, true);
    }

    /** Likewise for the variation commands, which are checked against all the features. */
    method CheckVariations(id: string, cmds: seq<Cmd>)
      returns (f: Feature?, commands: seq<Command>, ghost objs: seq<Prerequisite>)
      ensures f != null <==> VariationsAccepted(rows, id, cmds)
      ensures f != null ==> fresh(f) && f.id == id && forall k :: 0 <= k < |objs| ==> fresh(objs[k])
      ensures f != null ==> ReadyToHandle(f, commands, objs, cmds, rows[id], false)
    {
      hide Draws, Loaded, Represents, OwnObjects, VariationUnused, LiveGraph;
      objs := [];
      ghost var pointers;
      commands, pointers := UnmarshalCommands(cmds);
      var fs := ListFeatures();
      var unused := ValidateVariations(fs, commands, cmds, rows);
      if !unused {
        return null, commands, [];
      }
      f := FindFeature(fs, id);
      Listed(fs, rows, id);
      if f == null {
        return;
      }
      ghost var i :| 0 <= i < |fs| && fs[i] == f;
      DistinctObjects(f.prerequisites, pointers);
      assert f.prerequisites + [] == f.prerequisites;
      objs := f.prerequisites + pointers;
      LoadedRepresented(f, f.prerequisites, commands, cmds, rows[id], false);
    }

    method UpdateFeatureVariations(id: string, cmds: seq<Cmd>, experiments: Option<seq<Experiment>>, now: int,
        stored: bool)
      returns (ok: bool)
      modifies this
      ensures ok ==> Commits(old(rows), Request.UpdateFeatureVariations(id, cmds), rows)
      ensures !ok ==> rows == old(rows)
      ensures ok <==> id != "" && Editable(experiments, now) && stored &&
                      VariationsAccepted(old(rows), id, cmds) && Outcome(old(rows)[id], cmds, false).Some?
    {
      hide Outcome, ReadyToHandle, VariationUnused;
      var editable := IsEditable(experiments, now);
      if id == "" || !editable || !stored {
        return false;
      }
      var f, commands;
      ghost var objs;
      f, commands, objs := CheckVariations(id, cmds);
      if f == null {
        return false;
      }
      ok := HandleAndStore(f, commands, cmds, objs, false);
    }

    method ArchiveFeature(id: string, experiments: Option<seq<Experiment>>, now: int, stored: bool)
      returns (ok: bool)
      modifies this
      ensures ok ==> Commits(old(rows), Request.ArchiveFeature(id), rows)
      ensures !ok ==> rows == old(rows)
      ensures ok <==> Editable(experiments, now) && stored && ArchiveAccepted(old(rows), id) && id in old(rows)
      ensures rows == if ok then old(rows)[id := old(rows)[id].(archived := true)] else old(rows)
    {
      var fs := ListFeatures();
      if id == "" {
        return false;
      }
      var unreferenced := ValidateArchiveFeature(fs, id, rows);
      if !unreferenced {
        return false;
      }
      var editable := IsEditable(experiments, now);
      if !editable || !stored || id !in rows {
        return false;
      }
      rows := rows[id := rows[id].(archived := true)];
      return true;
    }

    method CreateFeature(id: string, variations: seq<string>, stored: bool) returns (ok: bool)
      modifies this
      ensures ok ==> Commits(old(rows), Request.CreateFeature(id, variations), rows)
      ensures !ok ==> rows == old(rows)
      ensures ok <==> stored && id !in old(rows)
      ensures rows == if ok then old(rows)[id := Row(variations, [], false)] else old(rows)
    {
      if !stored || id in rows {
        return false;
      }
      rows := rows[id := Row(variations, [], false)];
      return true;
    }
  }

  lemma DistinctObjects(a: seq<Prerequisite>, b: seq<Prerequisite>)
    requires NoDuplicates(a) && NoDuplicates(b) && forall i, j :: 0 <= i < |a| && 0 <= j < |b| ==> a[i] != b[j]
    ensures NoDuplicates(a + b)
  {
  }

  lemma LinksDetermined(ps: seq<Prerequisite>, a: seq<Link>, b: seq<Link>)
    requires LinksAre(ps, a) && LinksAre(ps, b)
    ensures a == b
  {
  }

  lemma Listed(fs: seq<Feature>, db: Db, id: string)
    requires Lists(fs, db)
    ensures Live(db, id) <==> id in Ids(fs)
    ensures forall f :: f in fs ==> f.variations == db[f.id].variations
  {
  }

  lemma UnusedInListing(fs: seq<Feature>, db: Db, variation: string)
    requires Lists(fs, db)
    requires forall k :: 0 <= k < |fs| ==> LinksAre(fs[k].prerequisites, db[fs[k].id].links)
    ensures VariationUnused(db, variation) <==>
            forall f :: f in fs ==> forall p :: p in f.prerequisites ==> p.variationId != variation
  {
  }
}
