/** What handling a list of commands does to the targets and variations of a feature, counted. */
module PrerequisiteEffects {
  import opened FeatureModel
  import opened PrerequisiteCommands
  import opened Sequences

  lemma {:induction false} RemoveFirstCount(s: seq<string>, x: string)
    requires x in s
    ensures multiset(RemoveFirst(s, x)) == multiset(s) - multiset{x}
  {
    assert s == [s[0]] + s[1..];
    if s[0] != x {
      RemoveFirstCount(s[1..], x);
    }
  }

  function Count(s: seq<string>, t: string): nat {
    multiset(s)[t]
  }

  function Removals(cmds: seq<Cmd>, t: string): nat {
    if cmds == [] then 0 else (if cmds[0] == RemovePrerequisite(t) then 1 else 0) + Removals(cmds[1..], t)
  }

  lemma HandleOneCount(s: Shape, c: Cmd, t: string)
    requires HandleOne(s, c).Some?
    ensures Count(HandleOne(s, c).value.targets, t) + (if c == RemovePrerequisite(t) then 1 else 0)
         == Count(s.targets, t) + (if c.AddPrerequisite? && c.link.target == t then 1 else 0)
  {
    if c.RemovePrerequisite? {
      RemoveFirstCount(s.targets, c.target);
    }
  }

  /** Edges into `t` are conserved: handling adds one per add command and takes one per removal. */
  lemma {:induction false} HandleCount(s: Shape, cmds: seq<Cmd>, t: string)
    requires HandleAll(s, cmds).Some?
    ensures Count(HandleAll(s, cmds).value.targets, t) + Removals(cmds, t)
         == Count(s.targets, t) + Count(TargetsOf(Added(cmds)), t)
    decreases cmds
  {
    if cmds != [] {
      hide HandleOne;
      HandleOneCount(s, cmds[0], t);
      HandleCount(HandleOne(s, cmds[0]).value, cmds[1..], t);
      AddedCount(cmds, t);
    }
  }

  lemma AddedCount(cmds: seq<Cmd>, t: string)
    requires cmds != []
    ensures Count(TargetsOf(Added(cmds)), t) ==
            (if cmds[0].AddPrerequisite? && cmds[0].link.target == t then 1 else 0)
                + Count(TargetsOf(Added(cmds[1..])), t)
  {
    if cmds[0].AddPrerequisite? {
      assert TargetsOf(Added(cmds)) == [cmds[0].link.target] + TargetsOf(Added(cmds[1..]));
      hide Count;
      CountHead(cmds[0].link.target, TargetsOf(Added(cmds[1..])), t);
    } else {
      assert Added(cmds) == Added(cmds[1..]);
    }
  }

  lemma CountHead(x: string, s: seq<string>, t: string)
    ensures Count([x] + s, t) == (if x == t then 1 else 0) + Count(s, t)
  {
  }

  lemma CountMembership(s: seq<string>, t: string)
    ensures t in s <==> Count(s, t) > 0
  {
  }

  lemma {:induction false} RemovalsMembership(cmds: seq<Cmd>, t: string)
    ensures RemovePrerequisite(t) in cmds <==> Removals(cmds, t) > 0
  {
    if cmds != [] {
      RemovalsMembership(cmds[1..], t);
    }
  }

  lemma {:induction false} NoDuplicatesCount(s: seq<string>)
    ensures NoDuplicates(s) <==> forall t :: Count(s, t) <= 1
  {
    if s != [] {
      NoDuplicatesHead(s);
      NoDuplicatesCount(s[1..]);
      assert s == [s[0]] + s[1..];
      CountMembership(s[1..], s[0]);
      assert forall t :: Count(s, t) == Count(s[1..], t) + (if t == s[0] then 1 else 0);
      assert Count(s, s[0]) == 1 + Count(s[1..], s[0]);
    }
  }

  function VariationRemovals(cmds: seq<Cmd>, v: string): nat {
    if cmds == [] then 0
    else (if cmds[0].RemoveVariation? && cmds[0].variation == v then 1 else 0) + VariationRemovals(cmds[1..], v)
  }

  function VariationAdditions(cmds: seq<Cmd>, v: string): nat {
    if cmds == [] then 0
    else (if cmds[0].AddVariation? && cmds[0].variation == v then 1 else 0) + VariationAdditions(cmds[1..], v)
  }

  lemma HandleOneVariationCount(s: Shape, c: Cmd, v: string)
    requires HandleOne(s, c).Some?
    ensures Count(HandleOne(s, c).value.variations, v) + (if c.RemoveVariation? && c.variation == v then 1 else 0)
         == Count(s.variations, v) + (if c.AddVariation? && c.variation == v then 1 else 0)
  {
    if c.RemoveVariation? {
      RemoveFirstCount(s.variations, c.variation);
    }
  }

  /** Variations are conserved in the same way. */
  lemma {:induction false} HandleVariationCount(s: Shape, cmds: seq<Cmd>, v: string)
    requires HandleAll(s, cmds).Some?
    ensures Count(HandleAll(s, cmds).value.variations, v) + VariationRemovals(cmds, v)
         == Count(s.variations, v) + VariationAdditions(cmds, v)
    decreases cmds
  {
    if cmds != [] {
      hide HandleOne, Count;
      HandleOneVariationCount(s, cmds[0], v);
      HandleVariationCount(HandleOne(s, cmds[0]).value, cmds[1..], v);
    }
  }

  /** The commands leave at least one variation with this id. */
  predicate Survives(variations: seq<string>, cmds: seq<Cmd>, v: string) {
    VariationRemovals(cmds, v) < Count(variations, v) + VariationAdditions(cmds, v)
  }

  lemma SurvivesExactly(s: Shape, cmds: seq<Cmd>, v: string)
    requires HandleAll(s, cmds).Some?
    ensures v in HandleAll(s, cmds).value.variations <==> Survives(s.variations, cmds, v)
  {
    HandleVariationCount(s, cmds, v);
    CountMembership(HandleAll(s, cmds).value.variations, v);
  }

  predicate Removes(cmds: seq<Cmd>, v: string) {
    exists c :: c in cmds && c.RemoveVariation? && c.variation == v
  }

  lemma {:induction false} RemovesMeans(cmds: seq<Cmd>, v: string)
    ensures Removes(cmds, v) <==> VariationRemovals(cmds, v) > 0
    ensures (forall c :: c in cmds && c.AddVariation? ==> c.variation != v) ==> VariationAdditions(cmds, v) == 0
  {
    if cmds != [] {
      assert forall c :: c in cmds <==> c == cmds[0] || c in cmds[1..];
      RemovesMeans(cmds[1..], v);
    }
  }

  /** With distinct ids, and new ids for added variations, a variation survives exactly when no command
      removes it. */
  lemma SurvivesUnlessRemoved(variations: seq<string>, cmds: seq<Cmd>, v: string)
    requires NoDuplicates(variations) && v in variations
    requires forall c :: c in cmds && c.AddVariation? ==> c.variation != v
    ensures Survives(variations, cmds, v) <==> !Removes(cmds, v)
  {
    NoDuplicatesCount(variations);
    CountMembership(variations, v);
    RemovesMeans(cmds, v);
    assert Count(variations, v) == 1;
  }

  lemma {:induction false} AddedMembership(cmds: seq<Cmd>, l: Link)
    ensures l in Added(cmds) <==> AddPrerequisite(l) in cmds
  {
    if cmds != [] {
      AddedMembership(cmds[1..], l);
    }
  }

  /** The targets after handling come from the old row or from an add command. */
  lemma TargetsComeFrom(row: Row, cmds: seq<Cmd>, t: string)
    requires TargetingShape(row, cmds).Some? && t in TargetingShape(row, cmds).value.targets
    ensures t in TargetsOf(row.links) || t in TargetsOf(Added(cmds))
  {
    var s := Shape(TargetsOf(row.links) + TargetsOf(Added(cmds)), row.variations);
    HandleCount(s, cmds, t);
    CountMembership(TargetingShape(row, cmds).value.targets, t);
    CountMembership(s.targets, t);
    CountMembership(TargetsOf(Added(cmds)), t);
  }
}
