/** Checking a targeting request command by command accepts exactly the requests whose final graph,
    with all the added edges, is acceptable. */
module PrerequisiteChecks {
  import opened PrerequisiteGraph
  import opened PrerequisiteCommands
  import opened PrerequisiteRequests
  import opened Sequences

  /** What the check of one command demands, after the checks of earlier commands appended `adds`. */
  ghost predicate StepAccepted(db: Db, id: string, adds: seq<Link>, c: Cmd)
    requires Live(db, id)
  {
    match c
    case AddPrerequisite(l) =>
      && l.target != id && l.target !in TargetsOf(db[id].links) + TargetsOf(adds) && Offered(db, l)
      && Closed(WithLinks(db, id, adds + [l])) && !HasCycle(WithLinks(db, id, adds + [l]))
    case ChangePrerequisiteVariation(l) => Offered(db, l)
    case OtherCommand(valid, _) => valid
    case _ => true
  }

  lemma {:induction false} AddedSnoc(cmds: seq<Cmd>, c: Cmd)
    ensures Added(cmds + [c]) == Added(cmds) + if c.AddPrerequisite? then [c.link] else []
  {
    if cmds == [] {
      assert [c][1..] == [];
    } else {
      assert (cmds + [c])[1..] == cmds[1..] + [c];
      AddedSnoc(cmds[1..], c);
    }
  }

  lemma NoDuplicatesSnoc(s: seq<string>, x: string)
    ensures NoDuplicates(s + [x]) <==> NoDuplicates(s) && x !in s
  {
    var t := s + [x];
    if NoDuplicates(t) {
      forall i, j | 0 <= i < j < |s| ensures s[i] != s[j] {
        assert t[i] != t[j];
      }
      forall i | 0 <= i < |s| ensures s[i] != x {
        assert t[i] != t[|s|];
      }
    }
  }

  lemma FewerEdges(db: Db, id: string, adds: seq<Link>, l: Link)
    requires Live(db, id)
    requires Closed(WithLinks(db, id, adds + [l])) && !HasCycle(WithLinks(db, id, adds + [l]))
    ensures Closed(WithLinks(db, id, adds)) && !HasCycle(WithLinks(db, id, adds))
  {
    assert TargetsOf(adds + [l]) == TargetsOf(adds) + [l.target];
    CycleInSubgraph(WithLinks(db, id, adds), WithLinks(db, id, adds + [l]));
  }

  lemma AddsAcceptedSnoc(db: Db, id: string, adds: seq<Link>, l: Link)
    requires Live(db, id)
    ensures AddsAccepted(db, id, adds + [l]) <==>
            AddsAccepted(db, id, adds) && StepAccepted(db, id, adds, AddPrerequisite(l))
  {
    hide HasCycle, Closed, Offered;
    assert TargetsOf(adds + [l]) == TargetsOf(adds) + [l.target];
    NoDuplicatesSnoc(TargetsOf(adds), l.target);
    hide NoDuplicates;
    if AddsAccepted(db, id, adds + [l]) {
      FewerEdges(db, id, adds, l);
      assert (adds + [l])[|adds|] == l;
      assert forall k :: 0 <= k < |adds| ==> (adds + [l])[k] == adds[k];
    }
  }

  lemma AcceptedSnoc(db: Db, id: string, cmds: seq<Cmd>, c: Cmd)
    ensures TargetingAccepted(db, id, cmds + [c]) <==>
            TargetingAccepted(db, id, cmds) && StepAccepted(db, id, Added(cmds), c)
  {
    if Live(db, id) {
      hide AddsAccepted;
      AddedSnoc(cmds, c);
      assert forall d :: d in cmds + [c] <==> d in cmds || d == c;
      if c.AddPrerequisite? {
        AddsAcceptedSnoc(db, id, Added(cmds), c.link);
      } else {
        assert Added(cmds) + [] == Added(cmds);
      }
    }
  }

  lemma {:induction false} AcceptedPrefix(db: Db, id: string, cmds: seq<Cmd>, k: nat)
    requires TargetingAccepted(db, id, cmds) && k <= |cmds|
    ensures TargetingAccepted(db, id, cmds[..k])
    decreases |cmds| - k
  {
    if k == |cmds| {
      assert cmds[..k] == cmds;
    } else {
      AcceptedPrefix(db, id, cmds, k + 1);
      assert cmds[..k + 1] == cmds[..k] + [cmds[k]];
      AcceptedSnoc(db, id, cmds[..k], cmds[k]);
    }
  }

  lemma NothingAdded(db: Db, id: string)
    requires Live(db, id)
    ensures TargetingAccepted(db, id, []) && WithLinks(db, id, []) == LiveGraph(db)
  {
    assert TargetsOf(db[id].links) + TargetsOf([]) == TargetsOf(db[id].links);
  }
}
