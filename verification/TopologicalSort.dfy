/** Depth-first topological sort of the features of one environment, upstream first. */
module TopologicalSort {
  import opened PrerequisiteGraph
  import opened FeatureModel
  import opened Sequences

  datatype Mark = Unvisited | Temporary | Permanently

  datatype SortError = NoError | ErrCycleExists | ErrFeatureNotFound

  /** The features on the recursion stack are the temporary ones and form a path; the finished
      ones are listed upstream first, each once. */
  ghost predicate SearchState(g: Graph, marks: map<string, Mark>, done: seq<string>, stack: seq<string>) {
    && marks.Keys == g.Keys
    && IsPath(g, stack) && NoDuplicates(stack)
    && (forall id :: id in stack <==> id in marks && marks[id] == Temporary)
    && (forall id :: id in done <==> id in marks && marks[id] == Permanently)
    && NoDuplicates(done) && UpstreamFirst(g, done)
  }

  ghost function UnvisitedIds(marks: map<string, Mark>): set<string> {
    set id | id in marks && marks[id] == Unvisited
  }

  lemma OpenEdge(g: Graph, a: string, b: string)
    requires Edge(g, a, b) && b !in g
    ensures !Closed(g)
  {
  }

  lemma MarkOf(g: Graph, marks: map<string, Mark>, done: seq<string>, stack: seq<string>, id: string)
    requires SearchState(g, marks, done, stack) && id in g
    ensures id in marks && IsPath(g, stack)
    ensures marks[id] == Temporary <==> id in stack
    ensures marks[id] == Permanently <==> id in done
  {
  }

  lemma PushKeepsState(g: Graph, marks: map<string, Mark>, done: seq<string>, stack: seq<string>, id: string)
    requires SearchState(g, marks, done, stack)
    requires id in g && marks[id] == Unvisited
    requires stack != [] ==> Edge(g, stack[|stack| - 1], id)
    ensures SearchState(g, marks[id := Temporary], done, stack + [id])
    ensures UnvisitedIds(marks[id := Temporary]) == UnvisitedIds(marks) - {id}
  {
  }

  lemma PopKeepsState(g: Graph, marks: map<string, Mark>, done: seq<string>, stack: seq<string>, id: string)
    requires SearchState(g, marks, done, stack + [id]) && id in g
    requires forall b :: b in g[id] ==> b in done
    ensures SearchState(g, marks[id := Permanently], done + [id], stack)
    ensures UnvisitedIds(marks[id := Permanently]) == UnvisitedIds(marks)
  {
    var full := stack + [id];
    assert full[|stack|] == id;
    assert marks[id] == Temporary;
    AppendKeepsUpstreamFirst(g, done, id);
    assert id !in done;
    forall x ensures x in stack <==> x in marks && x != id && marks[x] == Temporary {
      if x in stack {
        var i :| 0 <= i < |stack| && stack[i] == x;
        assert full[i] != full[|stack|] && full[i] in full;
      } else if x in marks && marks[x] == Temporary {
        assert x in full;
      }
    }
    forall i | 0 <= i < |stack| - 1 ensures Edge(g, stack[i], stack[i + 1]) {
      assert Edge(g, full[i], full[i + 1]);
    }
    forall i, j | 0 <= i < j < |stack| ensures stack[i] != stack[j] {
      assert full[i] != full[j];
    }
  }

  lemma AppendKeepsUpstreamFirst(g: Graph, done: seq<string>, id: string)
    requires UpstreamFirst(g, done) && id in g
    requires forall b :: b in g[id] ==> b in done
    ensures UpstreamFirst(g, done + [id])
  {
    var s := done + [id];
    forall i | 0 <= i < |s| ensures s[i] in g && forall b :: b in g[s[i]] ==> b in s[..i] {
      assert s[..i] == done[..i];
    }
  }

  lemma ListingOrdered(g: Graph, marks: map<string, Mark>, done: seq<string>)
    requires SearchState(g, marks, done, [])
    requires forall id :: id in g ==> id in done
    ensures UpstreamFirst(g, done) && NoDuplicates(done) && Closed(g) && !HasCycle(g)
  {
    OrderedIsAcyclic(g, done);
  }

  lemma {:induction false} SubsetSize(s: set<string>, t: set<string>)
    requires s <= t
    ensures |s| <= |t|
  {
    if s != {} {
      var x :| x in s;
      SubsetSize(s - {x}, t - {x});
    }
  }

  method Index(features: seq<Feature>, ghost g: Graph)
    returns (marks: map<string, Mark>, mapFeatures: map<string, Feature>)
    requires Draws(features, g)
    ensures marks.Keys == mapFeatures.Keys == g.Keys
    ensures forall id :: id in marks ==> marks[id] == Unvisited
    ensures forall f :: f in features ==> f.id in g && mapFeatures[f.id] == f
    ensures forall id :: id in g ==> mapFeatures[id] in features && mapFeatures[id].id == id
  {
    marks, mapFeatures := map[], map[];
    for i := 0 to |features|
      invariant marks.Keys == mapFeatures.Keys
      invariant forall id :: id in marks ==> marks[id] == Unvisited
      invariant forall k :: 0 <= k < i ==> features[k].id in mapFeatures && mapFeatures[features[k].id] == features[k]
      invariant forall id :: id in mapFeatures ==> mapFeatures[id] in features && mapFeatures[id].id == id
    {
      forall k | 0 <= k < i ensures features[k].id != features[i].id {
        assert Ids(features)[k] != Ids(features)[i];
      }
      marks, mapFeatures := marks[features[i].id := Unvisited], mapFeatures[features[i].id := features[i]];
    }
    forall id | id in g ensures id in mapFeatures {
      var k :| 0 <= k < |features| && Ids(features)[k] == id;
      assert features[k].id in mapFeatures;
    }
  }

  /** The local state of one sort: the maps and the slice that the recursive closure captures. */
  class Sorter {
    const mapFeatures: map<string, Feature>
    ghost const g: Graph
    var marks: map<string, Mark>
    var sortedFeatures: seq<Feature>

    constructor (features: seq<Feature>, ghost g: Graph)
      requires Draws(features, g)
      ensures this.g == g && Valid([])
      ensures forall f :: f in features ==> f.id in g && mapFeatures[f.id] == f
      ensures forall id :: id in g ==> mapFeatures[id] in features
    {
      var ms, mf := Index(features, g);
      this.g := g;
      mapFeatures, marks, sortedFeatures := mf, ms, [];
    }

    ghost predicate Drawn()
      reads this, mapFeatures.Values
    {
      && mapFeatures.Keys == g.Keys
      && forall id :: id in g ==> mapFeatures[id].id == id && g[id] == Targets(mapFeatures[id].prerequisites)
    }

    ghost predicate Valid(stack: seq<string>)
      reads this, mapFeatures.Values
    {
      && Drawn()
      && SearchState(g, marks, Ids(sortedFeatures), stack)
      && forall f :: f in sortedFeatures ==> f.id in g && mapFeatures[f.id] == f
    }

    method Visit(f: Feature, ghost stack: seq<string>) returns (err: SortError)
      requires Valid(stack) && f.id in g && mapFeatures[f.id] == f
      requires stack != [] ==> Edge(g, stack[|stack| - 1], f.id)
      modifies this
      ensures err == NoError ==> Valid(stack) && f.id in Ids(sortedFeatures)
      ensures err == NoError ==> UnvisitedIds(marks) <= old(UnvisitedIds(marks))
      ensures err == NoError ==> forall id :: id in old(Ids(sortedFeatures)) ==> id in Ids(sortedFeatures)
      ensures err == ErrCycleExists ==> HasCycle(g)
      ensures err == ErrFeatureNotFound ==> !Closed(g)
      decreases |UnvisitedIds(marks)|
    {
      hide SearchState, HasCycle, Closed, IsPath;
      MarkOf(g, marks, Ids(sortedFeatures), stack, f.id);
      if marks[f.id] == Permanently {
        return NoError;
      }
      if marks[f.id] == Temporary {
        BackEdgeIsCycle(g, stack, f.id);
        return ErrCycleExists;
      }
      ghost var unvisited := UnvisitedIds(marks);
      PushKeepsState(g, marks, Ids(sortedFeatures), stack, f.id);
      marks := marks[f.id := Temporary];
      for i := 0 to |f.prerequisites|
        invariant Valid(stack + [f.id])
        invariant UnvisitedIds(marks) <= unvisited - {f.id}
        invariant forall k :: 0 <= k < i ==> f.prerequisites[k].featureId in Ids(sortedFeatures)
        invariant forall id :: id in old(Ids(sortedFeatures)) ==> id in Ids(sortedFeatures)
      {
        var p := f.prerequisites[i];
        assert g[f.id][i] == p.featureId;
        assert Edge(g, f.id, p.featureId);
        if p.featureId !in mapFeatures {
          OpenEdge(g, f.id, p.featureId);
          return ErrFeatureNotFound;
        }
        SubsetSize(UnvisitedIds(marks), unvisited - {f.id});
        var e := Visit(mapFeatures[p.featureId], stack + [f.id]);
        if e != NoError {
          return e;
        }
        MarkOf(g, marks, Ids(sortedFeatures), stack + [f.id], p.featureId);
      }
      assert forall b :: b in g[f.id] ==> b in Ids(sortedFeatures);
      PopKeepsState(g, marks, Ids(sortedFeatures), stack, f.id);
      marks := marks[f.id := Permanently];
      assert Ids(sortedFeatures + [f]) == Ids(sortedFeatures) + [f.id];
      sortedFeatures := sortedFeatures + [f];
      return NoError;
    }
  }

  /** Succeeds exactly on a closed graph without cycles, and then lists every feature once, each
      after all its prerequisites. On a closed graph the only failure is the cycle error. */
  method Sort(features: seq<Feature>, ghost g: Graph) returns (sorted: seq<Feature>, err: SortError)
    requires Draws(features, g)
    ensures err == NoError <==> Closed(g) && !HasCycle(g)
    ensures err == ErrCycleExists ==> HasCycle(g)
    ensures err == ErrFeatureNotFound ==> !Closed(g)
    ensures err == NoError ==> UpstreamFirst(g, Ids(sorted)) && NoDuplicates(Ids(sorted))
    ensures err == NoError ==> forall f :: f in sorted <==> f in features
  {
    hide SearchState;
    var sorter := new Sorter(features, g);
    for i := 0 to |features|
      invariant sorter.g == g && fresh(sorter)
      invariant sorter.Valid([])
      invariant forall k :: 0 <= k < i ==> features[k].id in Ids(sorter.sortedFeatures)
    {
      assert features[i] in features;
      MarkOf(g, sorter.marks, Ids(sorter.sortedFeatures), [], features[i].id);
      if sorter.marks[features[i].id] != Unvisited {
        continue;
      }
      var e := sorter.Visit(features[i], []);
      if e != NoError {
        return [], e;
      }
    }
    sorted := sorter.sortedFeatures;
    forall id | id in g ensures id in Ids(sorted) {
      var k :| 0 <= k < |features| && Ids(features)[k] == id;
    }
    ListingOrdered(g, sorter.marks, Ids(sorted));
    forall f | f in features ensures f in sorted {
      var k :| 0 <= k < |sorted| && Ids(sorted)[k] == f.id;
      assert sorted[k] in sorted;
    }
    return sorted, NoError;
  }
}
