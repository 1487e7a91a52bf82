/** What the commands of a feature request do to the feature's prerequisites and variations. Features
    and prerequisites are shared by pointers between the checks and the handlers of one request, so
    the exact outcome is stated on the objects; most of what follows from it needs only the targets. */
module PrerequisiteCommands {
  import opened PrerequisiteGraph
  import opened FeatureModel
  import opened Wrappers

  datatype Link = Link(target: string, variation: string)

  datatype Row = Row(variations: seq<string>, links: seq<Link>, archived: bool)

  /** A command as it arrives. The flags stand for checks on parts of a feature that are not
      modelled: targeting rules and strategies (valid, handled, inUse), variation types
      (typeMatches). */
  datatype Cmd =
    | AddPrerequisite(link: Link)
    | ChangePrerequisiteVariation(link: Link)
    | RemovePrerequisite(target: string)
    | AddVariation(variation: string, typeMatches: bool)
    | RemoveVariation(variation: string, inUse: bool)
    | ChangeVariationValue(variation: string)
    | OtherCommand(valid: bool, handled: bool)

  function TargetsOf(links: seq<Link>): (ts: seq<string>)
    ensures |ts| == |links| && forall i :: 0 <= i < |links| ==> ts[i] == links[i].target
  {
    seq(|links|, i requires 0 <= i < |links| => links[i].target)
  }

  function Added(cmds: seq<Cmd>): seq<Link> {
    if cmds == [] then []
    else (if cmds[0].AddPrerequisite? then [cmds[0].link] else []) + Added(cmds[1..])
  }

  // ----- Handling: what the commands then do to targets and variations -----

  datatype Shape = Shape(targets: seq<string>, variations: seq<string>)

  function HandleOne(s: Shape, c: Cmd): Option<Shape> {
    match c
    case AddPrerequisite(l) => Some(s.(targets := s.targets + [l.target]))
    case ChangePrerequisiteVariation(l) => if l.target in s.targets then Some(s) else None
    case RemovePrerequisite(t) =>
      if t in s.targets then Some(s.(targets := RemoveFirst(s.targets, t))) else None
    case AddVariation(v, typeMatches) =>
      if typeMatches then Some(s.(variations := s.variations + [v])) else None
    case RemoveVariation(v, inUse) =>
      if v in s.variations && !inUse then Some(s.(variations := RemoveFirst(s.variations, v))) else None
    case ChangeVariationValue(v) => if v in s.variations then Some(s) else None
    case OtherCommand(_, handled) => if handled then Some(s) else None
  }

  function HandleAll(s: Shape, cmds: seq<Cmd>): Option<Shape>
    decreases cmds
  {
    if cmds == [] then Some(s)
    else match HandleOne(s, cmds[0])
      case None => None
      case Some(s') => HandleAll(s', cmds[1..])
  }

  /** The targets and variations a targeting request leaves: it handles its commands on the feature
      object that its checks have already extended with the added prerequisites. */
  function TargetingShape(row: Row, cmds: seq<Cmd>): Option<Shape> {
    HandleAll(Shape(TargetsOf(row.links) + TargetsOf(Added(cmds)), row.variations), cmds)
  }

  function VariationsShape(row: Row, cmds: seq<Cmd>): Option<Shape> {
    HandleAll(Shape(TargetsOf(row.links), row.variations), cmds)
  }

  // ----- Handling, pointer by pointer -----

  /** The prerequisite objects of one request: those loaded with the feature, one per prerequisite
      command, and the copies the handlers make. `list` are the feature's prerequisites, as pointers
      to objects. */
  datatype Objects = Objects(cells: seq<Link>, list: seq<nat>, variations: seq<string>)

  predicate Points(o: Objects) {
    forall i :: 0 <= i < |o.list| ==> o.list[i] < |o.cells|
  }

  function LinksOf(o: Objects): (links: seq<Link>)
    requires Points(o)
  {
    seq(|o.list|, i requires 0 <= i < |o.list| => o.cells[o.list[i]])
  }

  function View(o: Objects): Shape
    requires Points(o)
  {
    Shape(TargetsOf(LinksOf(o)), o.variations)
  }

  predicate Pointed(c: Cmd) {
    c.AddPrerequisite? || c.ChangePrerequisiteVariation?
  }

  function Width(c: Cmd): nat {
    if Pointed(c) then 1 else 0
  }

  /** One command; `k` is its own object if it has one. An addition appends a copy of that object as
      it is by now, a change writes its variation into the first prerequisite on the same feature. */
  ghost function HandleObject(o: Objects, c: Cmd, k: nat): (r: Option<Objects>)
    requires Points(o) && (Pointed(c) ==> k < |o.cells|)
    ensures r.Some? ==> Points(r.value) && |o.cells| <= |r.value.cells|
  {
    match c
    case AddPrerequisite(_) => Some(o.(cells := o.cells + [o.cells[k]], list := o.list + [|o.cells|]))
    case ChangePrerequisiteVariation(l) =>
      if l.target !in View(o).targets then None
      else Some(o.(cells := o.cells[o.list[FirstIndex(View(o).targets, l.target)] := o.cells[k]]))
    case RemovePrerequisite(t) =>
      if t !in View(o).targets then None
      else var i := FirstIndex(View(o).targets, t); Some(o.(list := o.list[..i] + o.list[i + 1..]))
    case _ => if HandleOne(View(o), c).None?
        then None else Some(o.(variations := HandleOne(View(o), c).value.variations))
  }

  /** The objects of the commands lie next to each other, from `k` on. */
  predicate Owns(o: Objects, cmds: seq<Cmd>, k: nat)
    decreases |cmds|
  {
    cmds == [] ||
    ((Pointed(cmds[0]) ==> k < |o.cells| && o.cells[k].target == cmds[0].link.target)
        && Owns(o, cmds[1..], k + Width(cmds[0])))
  }

  lemma {:induction false} OwnsStep(o: Objects, o': Objects, cmds: seq<Cmd>, k: nat)
    requires Owns(o, cmds, k) && |o.cells| <= |o'.cells|
    requires forall i :: 0 <= i < |o.cells| ==> o'.cells[i].target == o.cells[i].target
    ensures Owns(o', cmds, k)
    decreases |cmds|
  {
    if cmds != [] {
      OwnsStep(o, o', cmds[1..], k + Width(cmds[0]));
    }
  }

  /** `o'` differs from `o` as the targets and variations say, and only copies links. */
  predicate Follows(o: Objects, o': Objects, shape: Shape) {
    && Points(o') && View(o') == shape
    && (forall l :: l in o'.cells ==> l in o.cells)
    && |o.cells| <= |o'.cells| && forall i :: 0 <= i < |o.cells| ==> o'.cells[i].target == o.cells[i].target
  }

  lemma AddViews(o: Objects, l: Link, k: nat)
    requires Points(o) && k < |o.cells| && o.cells[k].target == l.target
    ensures Follows(o, HandleObject(o, AddPrerequisite(l), k).value, HandleOne(View(o), AddPrerequisite(l)).value)
  {
    hide FirstIndex;
    var o' := HandleObject(o, AddPrerequisite(l), k).value;
    assert View(o').targets == View(o).targets + [l.target];
  }

  lemma ChangeViews(o: Objects, l: Link, k: nat)
    requires Points(o) && k < |o.cells| && o.cells[k].target == l.target && l.target in View(o).targets
    ensures Follows(o, HandleObject(o, ChangePrerequisiteVariation(l), k).value, View(o))
  {
    hide FirstIndex;
    var o' := HandleObject(o, ChangePrerequisiteVariation(l), k).value;
    assert o.cells[o.list[FirstIndex(View(o).targets, l.target)]].target == l.target;
    assert View(o').targets == View(o).targets;
  }

  lemma RemoveViews(o: Objects, t: string, k: nat)
    requires Points(o) && t in View(o).targets
    ensures Follows(o, HandleObject(o, RemovePrerequisite(t), k).value,
              Shape(RemoveFirst(View(o).targets, t), o.variations))
  {
    hide FirstIndex;
    var ts := View(o).targets;
    var i := FirstIndex(ts, t);
    RemoveFirstAt(ts, t, i);
    assert View(HandleObject(o, RemovePrerequisite(t), k).value).targets == ts[..i] + ts[i + 1..];
  }

  /** A command does to the objects what it does to targets and variations. */
  lemma HandleObjectViews(o: Objects, c: Cmd, k: nat)
    requires Points(o) && (Pointed(c) ==> k < |o.cells| && o.cells[k].target == c.link.target)
    ensures HandleObject(o, c, k).Some? <==> HandleOne(View(o), c).Some?
    ensures var r := HandleObject(o, c, k); r.Some? ==> Follows(o, r.value, HandleOne(View(o), c).value)
  {
    hide FirstIndex;
    match c
    case AddPrerequisite(l) => AddViews(o, l, k);
    case ChangePrerequisiteVariation(l) =>
      if l.target in View(o).targets {
        ChangeViews(o, l, k);
      }
    case RemovePrerequisite(t) =>
      if t in View(o).targets {
        RemoveViews(o, t, k);
      }
    case _ =>
      if HandleOne(View(o), c).Some? {
        assert LinksOf(HandleObject(o, c, k).value) == LinksOf(o);
      }
  }

  ghost function HandleObjects(o: Objects, cmds: seq<Cmd>, k: nat): (r: Option<Objects>)
    requires Points(o) && Owns(o, cmds, k)
    ensures r.Some? ==> Points(r.value)
    decreases |cmds|
  {
    if cmds == [] then Some(o)
    else match HandleObject(o, cmds[0], k)
      case None => None
      case Some(o') =>
        HandleObjectViews(o, cmds[0], k);
        OwnsStep(o, o', cmds[1..], k + Width(cmds[0]));
        HandleObjects(o', cmds[1..], k + Width(cmds[0]))
  }

  lemma {:induction false} HandleObjectsViews(o: Objects, cmds: seq<Cmd>, k: nat)
    requires Points(o) && Owns(o, cmds, k)
    ensures HandleObjects(o, cmds, k).Some? <==> HandleAll(View(o), cmds).Some?
    ensures var r := HandleObjects(o, cmds, k); r.Some? ==>
              View(r.value) == HandleAll(View(o), cmds).value && forall l :: l in r.value.cells ==> l in o.cells
    decreases |cmds|
  {
    if cmds != [] {
      hide HandleOne, HandleObject, View;
      HandleObjectViews(o, cmds[0], k);
      if HandleObject(o, cmds[0], k).Some? {
        var o' := HandleObject(o, cmds[0], k).value;
        OwnsStep(o, o', cmds[1..], k + Width(cmds[0]));
        HandleObjectsViews(o', cmds[1..], k + Width(cmds[0]));
      }
    }
  }

  function CommandLinks(cmds: seq<Cmd>): seq<Link> {
    if cmds == [] then [] else (if Pointed(cmds[0]) then [cmds[0].link] else []) + CommandLinks(cmds[1..])
  }

  /** The objects of the add commands. */
  function AddObjects(cmds: seq<Cmd>, k: nat): seq<nat>
    decreases |cmds|
  {
    if cmds == [] then []
    else (if cmds[0].AddPrerequisite? then [k] else []) + AddObjects(cmds[1..], k + Width(cmds[0]))
  }

  function Upto(n: nat): seq<nat> {
    seq(n, i requires 0 <= i < n => i)
  }

  /** What the handlers find; a targeting request has appended its added prerequisites by then. */
  function Loaded(row: Row, cmds: seq<Cmd>, appended: bool): Objects {
    Objects(row.links + CommandLinks(cmds),
            Upto(|row.links|) + if appended then AddObjects(cmds, |row.links|) else [],
            row.variations)
  }

  lemma {:induction false} CommandObjects(before: seq<Link>, cmds: seq<Cmd>, o: Objects)
    requires o.cells == before + CommandLinks(cmds)
    ensures Owns(o, cmds, |before|)
    ensures var adds := AddObjects(cmds, |before|);
            |adds| == |Added(cmds)| && forall i :: 0 <= i < |adds| ==>
                adds[i] < |o.cells| && o.cells[adds[i]] == Added(cmds)[i]
    decreases |cmds|
  {
    if cmds != [] {
      if Pointed(cmds[0]) {
        assert before + CommandLinks(cmds) == (before + [cmds[0].link]) + CommandLinks(cmds[1..]);
        CommandObjects(before + [cmds[0].link], cmds[1..], o);
      } else {
        assert CommandLinks(cmds) == CommandLinks(cmds[1..]);
        CommandObjects(before, cmds[1..], o);
      }
    }
  }

  lemma LoadedViews(row: Row, cmds: seq<Cmd>, appended: bool)
    ensures var o := Loaded(row, cmds, appended);
            && Points(o) && Owns(o, cmds, |row.links|)
            && LinksOf(o) == row.links + (if appended then Added(cmds) else [])
            && View(o) == Shape(TargetsOf(row.links) + (if appended then TargetsOf(Added(cmds)) else []),
                row.variations)
  {
    var o := Loaded(row, cmds, appended);
    CommandObjects(row.links, cmds, o);
    hide AddObjects, CommandLinks, Added, Owns, View, LinksOf, Points;
    LoadedAt(o, row.links, if appended then AddObjects(cmds, |row.links|) else [],
        if appended then Added(cmds) else []);
  }

  lemma LoadedAt(o: Objects, links: seq<Link>, adds: seq<nat>, extra: seq<Link>)
    requires o.list == Upto(|links|) + adds && links <= o.cells
    requires |adds| == |extra| && forall i :: 0 <= i < |adds| ==> adds[i] < |o.cells| && o.cells[adds[i]] == extra[i]
    ensures Points(o) && LinksOf(o) == links + extra
    ensures View(o) == Shape(TargetsOf(links) + TargetsOf(extra), o.variations)
  {
  }

  lemma LinksAt(o: Objects, links: seq<Link>)
    requires |o.list| == |links| && forall i :: 0 <= i < |o.list| ==>
             o.list[i] < |o.cells| && o.cells[o.list[i]] == links[i]
    ensures Points(o) && LinksOf(o) == links && View(o) == Shape(TargetsOf(links), o.variations)
  {
  }

  /** The row that a request's handlers leave behind, if they all succeed. */
  ghost function Outcome(row: Row, cmds: seq<Cmd>, appended: bool): Option<Row> {
    LoadedViews(row, cmds, appended);
    match HandleObjects(Loaded(row, cmds, appended), cmds, |row.links|)
    case None => None
    case Some(o) => Some(Row(o.variations, LinksOf(o), row.archived))
  }

  predicate Writes(cmds: seq<Cmd>, link: Link) {
    AddPrerequisite(link) in cmds || ChangePrerequisiteVariation(link) in cmds
  }

  lemma {:induction false} CommandLinksWritten(cmds: seq<Cmd>, l: Link)
    requires l in CommandLinks(cmds)
    ensures Writes(cmds, l)
  {
    if !(Pointed(cmds[0]) && cmds[0].link == l) {
      CommandLinksWritten(cmds[1..], l);
    }
  }

  lemma LinksAreCells(o: Objects)
    requires Points(o)
    ensures forall l :: l in LinksOf(o) ==> l in o.cells
  {
  }

  /** The outcome in terms of targets and variations; every link stored now was stored before or
      written by a command. */
  lemma OutcomeViews(row: Row, cmds: seq<Cmd>, appended: bool)
    ensures var shape := if appended then TargetingShape(row, cmds) else VariationsShape(row, cmds);
            && (Outcome(row, cmds, appended).Some? <==> shape.Some?)
            && (shape.Some? ==>
                  var row' := Outcome(row, cmds, appended).value;
                  && TargetsOf(row'.links) == shape.value.targets && row'.variations == shape.value.variations
                  && row'.archived == row.archived
                  && forall l :: l in row'.links ==> l in row.links || Writes(cmds, l))
  {
    var o := Loaded(row, cmds, appended);
    LoadedViews(row, cmds, appended);
    assert TargetsOf(row.links) + [] == TargetsOf(row.links);
    HandleObjectsViews(o, cmds, |row.links|);
    hide HandleAll, Added, HandleObjects;
    if Outcome(row, cmds, appended).Some? {
      LinksAreCells(HandleObjects(o, cmds, |row.links|).value);
      forall l | l in Outcome(row, cmds, appended).value.links ensures l in row.links || Writes(cmds, l) {
        if l !in row.links {
          CommandLinksWritten(cmds, l);
        }
      }
    }
  }

  /** A request of one change rewrites the first prerequisite on that feature and nothing else. */
  lemma ChangeOutcome(row: Row, l: Link, appended: bool)
    ensures Outcome(row, [ChangePrerequisiteVariation(l)], appended) ==
            if l.target !in TargetsOf(row.links) then None
            else Some(row.(links := row.links[FirstIndex(TargetsOf(row.links), l.target) := l]))
  {
    hide FirstIndex, HandleObjects, Owns;
    var cmds, n := [ChangePrerequisiteVariation(l)], |row.links|;
    var o := Loaded(row, cmds, appended);
    LoadedViews(row, cmds, appended);
    SingleCommand(o, cmds[0], n);
    OneCommand(cmds[0], n);
    assert row.links + [] == row.links && o.cells[n] == l;
    if l.target in TargetsOf(row.links) {
      var i := FirstIndex(TargetsOf(row.links), l.target);
      assert View(o).targets == TargetsOf(row.links) + [] == TargetsOf(row.links);
      var o' := HandleObject(o, cmds[0], n).value;
      assert o.list[i] == i && o'.cells == o.cells[i := l];
      LinksAt(o', row.links[i := l]);
    }
  }

  /** A request of one addition; through the targeting endpoint the link is stored twice. */
  lemma AddOutcome(row: Row, l: Link, appended: bool)
    ensures Outcome(row, [AddPrerequisite(l)], appended) ==
            Some(row.(links := row.links + if appended then [l, l] else [l]))
  {
    var cmds, n := [AddPrerequisite(l)], |row.links|;
    var o := Loaded(row, cmds, appended);
    LoadedViews(row, cmds, appended);
    SingleCommand(o, cmds[0], n);
    OneCommand(cmds[0], n);
    var o' := HandleObject(o, cmds[0], n).value;
    LinksAt(o', row.links + if appended then [l, l] else [l]);
  }

  lemma OneCommand(c: Cmd, k: nat)
    ensures CommandLinks([c]) == (if Pointed(c) then [c.link] else [])
    ensures AddObjects([c], k) == (if c.AddPrerequisite? then [k] else [])
    ensures Added([c]) == (if c.AddPrerequisite? then [c.link] else [])
  {
  }

  lemma SingleCommand(o: Objects, c: Cmd, k: nat)
    requires Points(o) && Owns(o, [c], k)
    ensures HandleObjects(o, [c], k) == HandleObject(o, c, k)
  {
  }

  /** The handlers share objects with the checks: a change that comes before the addition of the same
      feature also rewrites the object of the addition, whose own variation is then stored nowhere. */
  lemma ChangeLeaksIntoAddition(row: Row, l: Link, m: Link)
    requires l.target == m.target && l.target !in TargetsOf(row.links)
    ensures Outcome(row, [ChangePrerequisiteVariation(m), AddPrerequisite(l)], true) ==
            Some(row.(links := row.links + [m, m]))
  {
    hide FirstIndex;
    var cmds, n := [ChangePrerequisiteVariation(m), AddPrerequisite(l)], |row.links|;
    var o := Loaded(row, cmds, true);
    LoadedViews(row, cmds, true);
    assert cmds[1..] == [AddPrerequisite(l)];
    OneCommand(cmds[1], n + 1);
    var o1 := Objects(row.links + [m, m], o.list, row.variations);
    LeakFirst(row, l, m, o);
    hide HandleObject;
    HandleObjectViews(o, cmds[0], n);
    OwnsStep(o, o1, cmds[1..], n + 1);
    SingleCommand(o1, cmds[1], n + 1);
    LeakSecond(row, l, m, o1);
  }

  lemma LeakFirst(row: Row, l: Link, m: Link, o: Objects)
    requires l.target == m.target && l.target !in TargetsOf(row.links)
    requires o == Objects(row.links + [m, l], Upto(|row.links|) + [|row.links| + 1], row.variations)
    ensures Points(o)
    ensures HandleObject(o, ChangePrerequisiteVariation(m), |row.links|) == Some(o.(cells := row.links + [m, m]))
  {
    var n, ts := |row.links|, TargetsOf(row.links) + [l.target];
    LinksAt(o, row.links + [l]);
    assert View(o).targets == ts;
    FirstIndexIsFirst(ts, l.target, n);
    assert forall j :: 0 <= j < n ==> ts[j] in TargetsOf(row.links);
    assert o.cells[n + 1 := m] == row.links + [m, m];
  }

  lemma LeakSecond(row: Row, l: Link, m: Link, o: Objects)
    requires o == Objects(row.links + [m, m], Upto(|row.links|) + [|row.links| + 1], row.variations)
    ensures Points(o)
    ensures var r := HandleObject(o, AddPrerequisite(l), |row.links| + 1);
            r.Some? && Points(r.value) && LinksOf(r.value) == row.links + [m, m] && r.value.variations == row.variations
  {
  }
}
