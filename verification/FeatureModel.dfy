/** The part of a feature flag that the prerequisite checks read and write. Features and
    prerequisites are pointers in the source: the checks and the command handlers of one request
    share them, so they are classes here. */
module FeatureModel {
  import opened PrerequisiteGraph
  import opened Sequences

  class Prerequisite {
    const featureId: string
    var variationId: string

    constructor (featureId: string, variationId: string)
      ensures this.featureId == featureId && this.variationId == variationId
    {
      this.featureId, this.variationId := featureId, variationId;
    }
  }

  class Feature {
    const id: string
    var variations: seq<string>
    var prerequisites: seq<Prerequisite>

    constructor (id: string, variations: seq<string>, prerequisites: seq<Prerequisite>)
      ensures this.id == id && this.variations == variations && this.prerequisites == prerequisites
    {
      this.id, this.variations, this.prerequisites := id, variations, prerequisites;
    }

    method AddPrerequisite(featureId: string, variationId: string)
      modifies this`prerequisites
      ensures |prerequisites| == |old(prerequisites)| + 1 && prerequisites[..|old(prerequisites)|] == old(prerequisites)
      ensures var p := prerequisites[|old(prerequisites)|];
              fresh(p) && p.featureId == featureId && p.variationId == variationId
    {
      var p := new Prerequisite(featureId, variationId);
      prerequisites := prerequisites + [p];
    }

    method FindPrerequisite(featureId: string) returns (idx: int)
      ensures idx == -1 <==> featureId !in Targets(prerequisites)
      ensures idx != -1 ==> 0 <= idx < |prerequisites| && prerequisites[idx].featureId == featureId
      ensures idx != -1 ==> featureId !in Targets(prerequisites)[..idx]
    {
      for i := 0 to |prerequisites|
        invariant forall k :: 0 <= k < i ==> prerequisites[k].featureId != featureId
      {
        if prerequisites[i].featureId == featureId {
          assert Targets(prerequisites)[i] == featureId;
          return i;
        }
      }
      return -1;
    }

    /** Changes the first prerequisite on that feature, through its pointer. */
    method ChangePrerequisiteVariation(featureId: string, variationId: string) returns (ok: bool)
      modifies prerequisites
      ensures ok <==> featureId in Targets(prerequisites)
      ensures !ok ==> forall p :: p in prerequisites ==> p.variationId == old(p.variationId)
      ensures ok ==> var first := prerequisites[FirstIndex(Targets(prerequisites), featureId)];
              && first.featureId == featureId && first.variationId == variationId
              && forall p :: p in prerequisites && p != first ==> p.variationId == old(p.variationId)
    {
      var idx := FindPrerequisite(featureId);
      if idx == -1 {
        return false;
      }
      FirstIndexIsFirst(Targets(prerequisites), featureId, idx);
      prerequisites[idx].variationId := variationId;
      return true;
    }

    method RemovePrerequisite(featureId: string) returns (ok: bool)
      modifies this`prerequisites
      ensures ok <==> featureId in Targets(old(prerequisites))
      ensures !ok ==> prerequisites == old(prerequisites)
      ensures ok ==> var i := FirstIndex(Targets(old(prerequisites)), featureId);
              prerequisites == old(prerequisites)[..i] + old(prerequisites)[i + 1..]
    {
      var idx := FindPrerequisite(featureId);
      if idx == -1 {
        return false;
      }
      FirstIndexIsFirst(Targets(prerequisites), featureId, idx);
      prerequisites := prerequisites[..idx] + prerequisites[idx + 1..];
      return true;
    }

    method AddVariation(variationId: string, typeMatches: bool) returns (ok: bool)
      modifies this`variations
      ensures ok == typeMatches
      ensures variations == if ok then old(variations) + [variationId] else old(variations)
    {
      if !typeMatches {
        return false;
      }
      variations := variations + [variationId];
      return true;
    }

    method FindVariationIndex(variationId: string) returns (idx: int)
      ensures idx == -1 <==> variationId !in variations
      ensures idx != -1 ==> 0 <= idx < |variations| && variations[idx] == variationId
      ensures idx != -1 ==> variationId !in variations[..idx]
    {
      for i := 0 to |variations|
        invariant variationId !in variations[..i]
      {
        if variations[i] == variationId {
          return i;
        }
      }
      return -1;
    }

    method RemoveVariation(variationId: string, inUse: bool) returns (ok: bool)
      modifies this`variations
      ensures ok <==> variationId in old(variations) && !inUse
      ensures variations == if ok then RemoveFirst(old(variations), variationId) else old(variations)
    {
      var idx := FindVariationIndex(variationId);
      if idx == -1 || inUse {
        return false;
      }
      RemoveFirstAt(variations, variationId, idx);
      variations := variations[..idx] + variations[idx + 1..];
      return true;
    }
  }

  function RemoveFirst(s: seq<string>, x: string): seq<string> {
    if s == [] then [] else if s[0] == x then s[1..] else [s[0]] + RemoveFirst(s[1..], x)
  }

  lemma {:induction false} RemoveFirstAt(s: seq<string>, x: string, i: nat)
    requires i < |s| && s[i] == x && x !in s[..i]
    ensures RemoveFirst(s, x) == s[..i] + s[i + 1..]
  {
    if i > 0 {
      assert s[0] in s[..i];
      assert s[1..][..i - 1] == s[..i][1..];
      RemoveFirstAt(s[1..], x, i - 1);
    }
  }

  function Targets(ps: seq<Prerequisite>): (ts: seq<string>)
    ensures |ts| == |ps| && forall i :: 0 <= i < |ps| ==> ts[i] == ps[i].featureId
  {
    seq(|ps|, i requires 0 <= i < |ps| => ps[i].featureId)
  }

  function Ids(fs: seq<Feature>): (ids: seq<string>)
    ensures |ids| == |fs| && forall i :: 0 <= i < |fs| ==> ids[i] == fs[i].id
  {
    seq(|fs|, i requires 0 <= i < |fs| => fs[i].id)
  }

  /** The graph drawn by a listing of features with distinct ids, in the current heap. */
  ghost predicate Draws(fs: seq<Feature>, g: Graph)
    reads fs
  {
    && NoDuplicates(Ids(fs))
    && (forall f :: f in fs ==> f.id in g && g[f.id] == Targets(f.prerequisites))
    && (forall id :: id in g ==> id in Ids(fs))
  }
}
