/** What handlers that share no objects with a check leave of the links, first as a list and then target
    by target: the links to one feature form a queue, in which an addition goes to the end, a removal
    takes the head and a change rewrites the head. */
module PrerequisiteLinks {
  import opened PrerequisiteGraph
  import opened PrerequisiteCommands
  import opened PrerequisiteEffects
  import opened FeatureModel
  import opened Wrappers

  // ----- On the list of links -----

  ghost function HandleLink(links: seq<Link>, c: Cmd): seq<Link> {
    match c
    case AddPrerequisite(l) => links + [l]
    case ChangePrerequisiteVariation(l) =>
      if l.target in TargetsOf(links) then links[FirstIndex(TargetsOf(links), l.target) := l] else links
    case RemovePrerequisite(t) =>
      if t in TargetsOf(links) then
        var i := FirstIndex(TargetsOf(links), t); links[..i] + links[i + 1..]
      else links
    case _ => links
  }

  ghost function HandleLinks(links: seq<Link>, cmds: seq<Cmd>): seq<Link>
    decreases |cmds|
  {
    if cmds == [] then links else HandleLinks(HandleLink(links, cmds[0]), cmds[1..])
  }

  /** The feature's own objects are distinct and apart from those of the commands, which lie from `k` on
      and hold the very links of the commands. */
  predicate Separate(o: Objects, cmds: seq<Cmd>, k: nat) {
    var hi := k + |CommandLinks(cmds)|;
    && hi <= |o.cells| && o.cells[k..hi] == CommandLinks(cmds)
    && (forall i :: 0 <= i < |o.list| ==> o.list[i] < k || hi <= o.list[i] < |o.cells|)
    && forall i, j :: 0 <= i < j < |o.list| ==> o.list[i] != o.list[j]
  }

  lemma SeparateHead(o: Objects, cmds: seq<Cmd>, k: nat)
    requires Separate(o, cmds, k) && cmds != []
    ensures Pointed(cmds[0]) ==> k < |o.cells| && o.cells[k] == cmds[0].link
    ensures Separate(o, cmds[1..], k + Width(cmds[0]))
  {
    var hi := k + |CommandLinks(cmds)|;
    if Pointed(cmds[0]) {
      assert o.cells[k..hi][0] == cmds[0].link && o.cells[k..hi][1..] == o.cells[k + 1..hi];
    }
  }

  /** One command on separate objects is list handling, and keeps them separate from the others. */
  lemma SeparateStep(o: Objects, o': Objects, cmds: seq<Cmd>, k: nat, c: Cmd)
    requires Points(o) && Separate(o, cmds, k) && Width(c) <= k
    requires Pointed(c) ==> k - 1 < |o.cells| && o.cells[k - 1] == c.link
    requires HandleObject(o, c, k - Width(c)) == Some(o')
    ensures Separate(o', cmds, k) && LinksOf(o') == HandleLink(LinksOf(o), c)
  {
    match c
    case AddPrerequisite(l) => AddStep(o, o', cmds, k, l);
    case ChangePrerequisiteVariation(l) => ChangeStep(o, o', cmds, k, l);
    case RemovePrerequisite(t) => RemoveStep(o, o', cmds, k, t);
    case _ => hide FirstIndex; assert o'.cells == o.cells && o'.list == o.list;
  }

  lemma AddStep(o: Objects, o': Objects, cmds: seq<Cmd>, k: nat, l: Link)
    requires Points(o) && Separate(o, cmds, k) && 0 < k <= |o.cells| && o.cells[k - 1] == l
    requires o' == o.(cells := o.cells + [l], list := o.list + [|o.cells|])
    ensures Separate(o', cmds, k) && LinksOf(o') == LinksOf(o) + [l]
  {
    hide CommandLinks;
    var hi := k + |CommandLinks(cmds)|;
    assert o'.cells[k..hi] == o.cells[k..hi];
  }

  lemma ChangeStep(o: Objects, o': Objects, cmds: seq<Cmd>, k: nat, l: Link)
    requires Points(o) && Separate(o, cmds, k) && 0 < k <= |o.cells| && o.cells[k - 1] == l
    requires l.target in TargetsOf(LinksOf(o))
    requires o' == o.(cells := o.cells[o.list[FirstIndex(TargetsOf(LinksOf(o)), l.target)] := l])
    ensures Separate(o', cmds, k)
    ensures LinksOf(o') == LinksOf(o)[FirstIndex(TargetsOf(LinksOf(o)), l.target) := l]
  {
    hide CommandLinks, FirstIndex;
    var hi := k + |CommandLinks(cmds)|;
    var i := FirstIndex(TargetsOf(LinksOf(o)), l.target);
    assert o'.cells[k..hi] == o.cells[k..hi];
    assert forall j :: 0 <= j < |o.list| && j != i ==> o'.cells[o.list[j]] == o.cells[o.list[j]];
  }

  lemma RemoveStep(o: Objects, o': Objects, cmds: seq<Cmd>, k: nat, t: string)
    requires Points(o) && Separate(o, cmds, k) && t in TargetsOf(LinksOf(o))
    requires var i := FirstIndex(TargetsOf(LinksOf(o)), t); o' == o.(list := o.list[..i] + o.list[i + 1..])
    ensures Separate(o', cmds, k) && Points(o')
    ensures var i := FirstIndex(TargetsOf(LinksOf(o)), t); LinksOf(o') == LinksOf(o)[..i] + LinksOf(o)[i + 1..]
  {
    hide CommandLinks, FirstIndex;
    var i := FirstIndex(TargetsOf(LinksOf(o)), t);
    assert forall j :: 0 <= j < |o'.list| ==> o'.list[j] == o.list[if j < i then j else j + 1];
  }

  lemma {:induction false} LinksRefine(o: Objects, cmds: seq<Cmd>, k: nat)
    requires Points(o) && Owns(o, cmds, k) && Separate(o, cmds, k) && HandleObjects(o, cmds, k).Some?
    ensures LinksOf(HandleObjects(o, cmds, k).value) == HandleLinks(LinksOf(o), cmds)
    decreases |cmds|
  {
    hide HandleObject, HandleOne, HandleLink, LinksOf, View, Separate;
    if cmds != [] {
      var k' := k + Width(cmds[0]);
      var o' := HandleObject(o, cmds[0], k).value;
      SeparateHead(o, cmds, k);
      SeparateStep(o, o', cmds[1..], k', cmds[0]);
      HandleObjectViews(o, cmds[0], k);
      OwnsStep(o, o', cmds[1..], k');
      LinksRefine(o', cmds[1..], k');
    }
  }

  /** The links that a variations request leaves are those of plain list handling. */
  lemma OutcomeLinks(row: Row, cmds: seq<Cmd>)
    requires Outcome(row, cmds, false).Some?
    ensures Outcome(row, cmds, false).value.links == HandleLinks(row.links, cmds)
  {
    hide HandleObject, HandleOne, HandleLinks, HandleObjects;
    var o, n := Loaded(row, cmds, false), |row.links|;
    LoadedViews(row, cmds, false);
    assert row.links + [] == row.links;
    assert o.cells[n..n + |CommandLinks(cmds)|] == CommandLinks(cmds);
    LinksRefine(o, cmds, n);
  }

  /** Without changes and removals handling appends the added links. */
  lemma {:induction false} AdditionsOutcome(links: seq<Link>, cmds: seq<Cmd>)
    requires forall c :: c in cmds ==> !c.ChangePrerequisiteVariation? && !c.RemovePrerequisite?
    ensures HandleLinks(links, cmds) == links + Added(cmds)
    decreases |cmds|
  {
    if cmds == [] {
      assert links + [] == links;
    } else {
      hide FirstIndex, TargetsOf;
      var head := if cmds[0].AddPrerequisite? then [cmds[0].link] else [];
      assert links + [] == links;
      AdditionsOutcome(links + head, cmds[1..]);
      assert (links + head) + Added(cmds[1..]) == links + (head + Added(cmds[1..]));
    }
  }

  // ----- Target by target -----

  function VariationsTo(links: seq<Link>, t: string): seq<string> {
    if links == [] then []
    else (if links[0].target == t then [links[0].variation] else []) + VariationsTo(links[1..], t)
  }

  lemma {:induction false} VariationsToConcat(a: seq<Link>, b: seq<Link>, t: string)
    ensures VariationsTo(a + b, t) == VariationsTo(a, t) + VariationsTo(b, t)
  {
    if a == [] {
      assert a + b == b;
    } else {
      assert (a + b)[1..] == a[1..] + b;
      VariationsToConcat(a[1..], b, t);
    }
  }

  lemma {:induction false} VariationsToExactly(links: seq<Link>, t: string, v: string)
    ensures v in VariationsTo(links, t) <==> Link(t, v) in links
    ensures |VariationsTo(links, t)| == Count(TargetsOf(links), t)
  {
    if links != [] {
      VariationsToExactly(links[1..], t, v);
      assert TargetsOf(links) == [links[0].target] + TargetsOf(links[1..]);
    }
  }

  lemma VariationsToNone(links: seq<Link>, t: string)
    requires t !in TargetsOf(links)
    ensures VariationsTo(links, t) == []
  {
    VariationsToExactly(links, t, "");
  }

  /** A change rewrites the head of its target's queue, a removal takes it. */
  lemma HandleHead(links: seq<Link>, c: Cmd, t: string)
    requires match c
             case ChangePrerequisiteVariation(l) => l.target in TargetsOf(links)
             case RemovePrerequisite(u) => u in TargetsOf(links)
             case _ => true
    ensures var before, after := VariationsTo(links, t), VariationsTo(HandleLink(links, c), t);
            match c
            case AddPrerequisite(l) => after == before + if l.target == t then [l.variation] else []
            case ChangePrerequisiteVariation(l) =>
              if l.target == t then before != [] && after == [l.variation] + before[1..] else after == before
            case RemovePrerequisite(u) => if u == t then before != [] && after == before[1..] else after == before
            case _ => after == before
  {
    hide FirstIndex, TargetsOf, VariationsTo;
    match c
    case AddPrerequisite(l) =>
      VariationsToConcat(links, [l], t);
      VariationsToOne(l, t);
    case ChangePrerequisiteVariation(l) =>
      var i := FirstIndex(TargetsOf(links), l.target);
      Split(links, i, [l], t);
      VariationsToOne(l, t);
      VariationsToOne(links[i], t);
      assert links[i := l] == links[..i] + [l] + links[i + 1..];
    case RemovePrerequisite(u) =>
      var i := FirstIndex(TargetsOf(links), u);
      Split(links, i, [], t);
      VariationsToOne(links[i], t);
      assert links[..i] + [] + links[i + 1..] == links[..i] + links[i + 1..] && VariationsTo([], t) == [];
    case _ =>
  }

  lemma VariationsToOne(l: Link, t: string)
    ensures VariationsTo([l], t) == (if l.target == t then [l.variation] else []) && VariationsTo([], t) == []
  {
  }

  /** Cutting out the first link to its target and putting `mid` there. */
  lemma Split(links: seq<Link>, i: nat, mid: seq<Link>, t: string)
    requires i < |links| && links[i].target !in TargetsOf(links)[..i]
    ensures VariationsTo(links, t) ==
            VariationsTo(links[..i], t) + VariationsTo([links[i]], t) + VariationsTo(links[i + 1..], t)
    ensures VariationsTo(links[..i] + mid + links[i + 1..], t) ==
            VariationsTo(links[..i], t) + VariationsTo(mid, t) + VariationsTo(links[i + 1..], t)
    ensures t == links[i].target ==> VariationsTo(links[..i], t) == []
  {
    hide VariationsTo, TargetsOf;
    assert links == links[..i] + [links[i]] + links[i + 1..];
    VariationsToConcat(links[..i] + [links[i]], links[i + 1..], t);
    VariationsToConcat(links[..i], [links[i]], t);
    VariationsToConcat(links[..i] + mid, links[i + 1..], t);
    VariationsToConcat(links[..i], mid, t);
    if t == links[i].target {
      assert TargetsOf(links[..i]) == TargetsOf(links)[..i];
      VariationsToNone(links[..i], t);
    }
  }

  /** The variation of the last change of the target that no removal of it follows. */
  function LastChange(cmds: seq<Cmd>, t: string): Option<string> {
    if cmds == [] then None
    else
      var later := LastChange(cmds[1..], t);
      if later.Some? then later
      else if cmds[0].ChangePrerequisiteVariation? && cmds[0].link.target == t && Removals(cmds[1..], t) == 0
      then Some(cmds[0].link.variation)
      else None
  }

  /** A queue after so many removals, with its head then rewritten. */
  function Left(queue: seq<string>, removals: nat, change: Option<string>): seq<string> {
    if removals >= |queue| then []
    else if change.Some? then [change.value] + queue[removals + 1..]
    else queue[removals..]
  }

  /** The queue of a target after the commands: everything stored or added, less one from the front for
      each removal, and the head as last changed since. */
  function FinalVariations(links: seq<Link>, cmds: seq<Cmd>, t: string): seq<string> {
    Left(VariationsTo(links, t) + VariationsTo(Added(cmds), t), Removals(cmds, t), LastChange(cmds, t))
  }

  lemma LeftSteps(before: seq<string>, added: seq<string>, removals: nat, change: Option<string>)
    requires before != []
    ensures Left(before[1..] + added, removals, change) == Left(before + added, removals + 1, change)
    ensures forall v :: Left(([v] + before[1..]) + added, removals, change) ==
              Left(before + added, removals,
                  if change.Some? then change else if removals == 0 then Some(v) else None)
  {
    var queue := before + added;
    assert before[1..] + added == queue[1..];
    forall v ensures Left(([v] + before[1..]) + added, removals, change) ==
        Left(queue, removals, if change.Some? then change else if removals == 0 then Some(v) else None)
    {
      assert ([v] + before[1..]) + added == [v] + queue[1..];
      assert removals < |queue| ==> ([v] + queue[1..])[removals + 1..] == queue[removals + 1..];
      assert 0 < removals < |queue| ==> ([v] + queue[1..])[removals..] == queue[removals..];
    }
  }

  lemma FinalStep(links: seq<Link>, cmds: seq<Cmd>, t: string)
    requires cmds != []
    requires match cmds[0]
             case ChangePrerequisiteVariation(l) => l.target in TargetsOf(links)
             case RemovePrerequisite(u) => u in TargetsOf(links)
             case _ => true
    ensures FinalVariations(links, cmds, t) == FinalVariations(HandleLink(links, cmds[0]), cmds[1..], t)
  {
    hide HandleLink, Left, TargetsOf, VariationsTo, Added;
    HandleHead(links, cmds[0], t);
    AddedHead(cmds, t);
    QueueStep(VariationsTo(links, t), VariationsTo(HandleLink(links, cmds[0]), t), VariationsTo(Added(cmds[1..]), t),
              VariationsTo(Added(cmds), t), cmds, t);
  }

  /** One command on the queue of a target. */
  lemma QueueStep(before: seq<string>, after: seq<string>, added': seq<string>, added: seq<string>, cmds: seq<Cmd>,
                  t: string)
    requires cmds != []
    requires added == (if cmds[0].AddPrerequisite? && cmds[0].link.target == t then [cmds[0].link.variation] else [])
                      + added'
    requires match cmds[0]
             case AddPrerequisite(l) => after == before + if l.target == t then [l.variation] else []
             case ChangePrerequisiteVariation(l) =>
               if l.target == t then before != [] && after == [l.variation] + before[1..] else after == before
             case RemovePrerequisite(u) => if u == t then before != [] && after == before[1..] else after == before
             case _ => after == before
    ensures Left(before + added, Removals(cmds, t), LastChange(cmds, t)) ==
            Left(after + added', Removals(cmds[1..], t), LastChange(cmds[1..], t))
  {
    hide Left;
    assert cmds[0].AddPrerequisite? ==> before + added == after + added';
    assert [] + added' == added';
    if before != [] {
      LeftSteps(before, added', Removals(cmds[1..], t), LastChange(cmds[1..], t));
    }
  }

  lemma AddedHead(cmds: seq<Cmd>, t: string)
    requires cmds != []
    ensures VariationsTo(Added(cmds), t) ==
            (if cmds[0].AddPrerequisite? && cmds[0].link.target == t then [cmds[0].link.variation] else [])
            + VariationsTo(Added(cmds[1..]), t)
  {
    if cmds[0].AddPrerequisite? {
      VariationsToConcat([cmds[0].link], Added(cmds[1..]), t);
    } else {
      assert Added(cmds) == Added(cmds[1..]);
    }
  }

  /** Whatever the commands and their order: target by target, a variations request leaves exactly the
      queue above. */
  lemma {:induction false} HandledQueues(s: Shape, links: seq<Link>, cmds: seq<Cmd>, t: string)
    requires s.targets == TargetsOf(links) && HandleAll(s, cmds).Some?
    ensures VariationsTo(HandleLinks(links, cmds), t) == FinalVariations(links, cmds, t)
    decreases |cmds|
  {
    if cmds == [] {
      assert VariationsTo(links, t) + [] == VariationsTo(links, t);
    } else {
      hide FinalVariations, VariationsTo;
      FinalStep(links, cmds, t);
      HandleTargets(s, links, cmds[0]);
      HandledQueues(HandleOne(s, cmds[0]).value, HandleLink(links, cmds[0]), cmds[1..], t);
    }
  }

  lemma HandleTargets(s: Shape, links: seq<Link>, c: Cmd)
    requires s.targets == TargetsOf(links) && HandleOne(s, c).Some?
    ensures HandleOne(s, c).value.targets == TargetsOf(HandleLink(links, c))
  {
    hide FirstIndex, RemoveFirst;
    match c
    case ChangePrerequisiteVariation(l) =>
      var i := FirstIndex(s.targets, l.target);
      assert TargetsOf(links[i := l]) == TargetsOf(links);
    case RemovePrerequisite(t) =>
      var i := FirstIndex(s.targets, t);
      RemoveFirstAt(s.targets, t, i);
      assert TargetsOf(links[..i] + links[i + 1..]) == s.targets[..i] + s.targets[i + 1..];
    case _ =>
  }

  /** Which links a variations request leaves, read off the stored row and the commands. */
  lemma LeftExactly(row: Row, cmds: seq<Cmd>, l: Link)
    requires Outcome(row, cmds, false).Some?
    ensures l in Outcome(row, cmds, false).value.links <==> l.variation in FinalVariations(row.links, cmds, l.target)
  {
    OutcomeViews(row, cmds, false);
    OutcomeLinks(row, cmds);
    hide Outcome;
    HandledQueues(Shape(TargetsOf(row.links), row.variations), row.links, cmds, l.target);
    VariationsToExactly(HandleLinks(row.links, cmds), l.target, l.variation);
  }

  /** Which targets it leaves. */
  lemma TargetLeftExactly(row: Row, cmds: seq<Cmd>, t: string)
    requires Outcome(row, cmds, false).Some?
    ensures t in TargetsOf(Outcome(row, cmds, false).value.links) <==>
            Removals(cmds, t) < Count(TargetsOf(row.links), t) + Count(TargetsOf(Added(cmds)), t)
  {
    OutcomeViews(row, cmds, false);
    hide Outcome;
    HandleCount(Shape(TargetsOf(row.links), row.variations), cmds, t);
    CountMembership(VariationsShape(row, cmds).value.targets, t);
  }
}
