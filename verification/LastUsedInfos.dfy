/** Listing features fills in when each was last used. The storage is asked a thousand features at a
    time, and what it returns is matched to the features by id. */
module LastUsedInfos {
  import opened EvaluationStrings
  import opened Separators
  import opened Wrappers

  const GET_MULTI_CHUNK_SIZE := 1000

  datatype Info = Info(featureId: string, version: int, lastUsedAt: int)

  class Feature {
    const id: string
    const version: int
    var lastUsedInfo: Option<Info>

    constructor (id: string, version: int)
      ensures this.id == id && this.version == version && lastUsedInfo == None
    {
      this.id, this.version, lastUsedInfo := id, version, None;
    }
  }

  function InfoId(featureId: string, version: int): string {
    featureId + ":" + IntText(version)
  }

  lemma InfoIdInjective(f: string, v: int, f': string, v': int)
    requires InfoId(f, v) == InfoId(f', v')
    ensures f == f' && v == v'
  {
    IntTextPlain(v);
    IntTextPlain(v');
    SplitAtLast(f, IntText(v), f', IntText(v'), ':');
    IntTextInjective(v, v');
  }

  /** The stored rows of one environment, by their primary key. */
  type Table = t: map<string, Info> | forall k :: k in t ==> k == InfoId(t[k].featureId, t[k].version)

  /** The info of this very version, or what was there before. */
  function LastUsed(table: Table, id: string, version: int, before: Option<Info>): Option<Info> {
    if InfoId(id, version) in table then Some(table[InfoId(id, version)]) else before
  }

  /** Told by ids and versions alone: a stored info of this very feature and version is the one found, and
      without one nothing changes. */
  lemma LastUsedExactly(table: Table, id: string, version: int, before: Option<Info>)
    ensures forall info :: info in table.Values && info.featureId == id && info.version == version ==>
              LastUsed(table, id, version, before) == Some(info)
    ensures (forall info :: info in table.Values ==> info.featureId != id || info.version != version) ==>
              LastUsed(table, id, version, before) == before
  {
    forall info | info in table.Values && info.featureId == id && info.version == version
      ensures LastUsed(table, id, version, before) == Some(info)
    {
      var k :| k in table && table[k] == info;
    }
    hide InfoId;
    if InfoId(id, version) in table {
      var info := table[InfoId(id, version)];
      InfoIdInjective(info.featureId, info.version, id, version);
      assert info in table.Values;
    }
  }

  ghost predicate DistinctIds(features: seq<Feature>) {
    forall i, j :: 0 <= i < j < |features| ==> features[i].id != features[j].id
  }

  /** SELECT ... WHERE id IN (...), in any order. */
  method GetFeatureLastUsedInfos(table: Table, ids: seq<string>) returns (infos: seq<Info>)
    ensures forall info :: info in infos <==> InfoId(info.featureId, info.version) in ids
                                              && InfoId(info.featureId, info.version) in table
                                              && table[InfoId(info.featureId, info.version)] == info
  {
    infos := [];
    var left := set k | k in table && k in ids;
    ghost var all := left;
    while left != {}
      invariant left <= all
      invariant forall info :: info in infos <==> InfoId(info.featureId, info.version) in all - left
                                                  && table[InfoId(info.featureId, info.version)] == info
      decreases |left|
    {
      var k :| k in left;
      infos := infos + [table[k]];
      left := left - {k};
    }
  }

  /** The last info in the list for the id. */
  function Latest(infos: seq<Info>, id: string, before: Option<Info>): Option<Info> {
    if infos == [] then before
    else
      var n := |infos| - 1;
      if infos[n].featureId == id then Some(infos[n]) else Latest(infos[..n], id, before)
  }

  lemma {:induction false} LatestMeans(infos: seq<Info>, id: string, before: Option<Info>)
    ensures Latest(infos, id, before) == before
            || (Latest(infos, id, before).Some? && Latest(infos, id, before).value in infos
                                                    && Latest(infos, id, before).value.featureId == id)
    ensures (exists info :: info in infos && info.featureId == id) ==>
            Latest(infos, id, before).Some? && Latest(infos, id, before).value in infos
    ensures (exists info :: info in infos && info.featureId == id) ==> Latest(infos, id, before).value.featureId == id
    ensures (forall info :: info in infos ==> info.featureId != id) ==> Latest(infos, id, before) == before
  {
    if infos != [] {
      var n := |infos| - 1;
      assert infos == infos[..n] + [infos[n]];
      LatestMeans(infos[..n], id, before);
    }
  }

  /** With distinct feature ids, the info found for an id is the one of the feature's version. */
  lemma LatestIsLastUsed(features: seq<Feature>, table: Table, ids: seq<string>, infos: seq<Info>, j: nat,
      before: Option<Info>)
    requires DistinctIds(features) && j < |features|
    requires |ids| == |features| && forall i :: 0 <= i < |ids| ==> ids[i] == InfoId(features[i].id, features[i].version)
    requires forall info :: info in infos <==> InfoId(info.featureId, info.version) in ids
                                               && InfoId(info.featureId, info.version) in table
                                               && table[InfoId(info.featureId, info.version)] == info
    ensures Latest(infos, features[j].id, before) == LastUsed(table, features[j].id, features[j].version, before)
  {
    hide InfoId;
    var f := features[j];
    LatestMeans(infos, f.id, before);
    forall info | info in infos && info.featureId == f.id ensures info.version == f.version {
      var i :| 0 <= i < |ids| && ids[i] == InfoId(info.featureId, info.version);
      InfoIdInjective(features[i].id, features[i].version, info.featureId, info.version);
    }
    var key := InfoId(f.id, f.version);
    if key in table {
      var info := table[key];
      InfoIdInjective(info.featureId, info.version, f.id, f.version);
      assert ids[j] == key && info in infos;
    }
  }

  method SetLastUsedInfosToFeature(features: seq<Feature>, table: Table, storageFails: bool) returns (ok: bool)
    requires DistinctIds(features)
    modifies set f | f in features
    ensures ok == !storageFails
    ensures forall f :: f in features ==>
              f.lastUsedInfo == if ok then LastUsed(table, f.id, f.version, old(f.lastUsedInfo))
                  else old(f.lastUsedInfo)
  {
    hide LastUsed, InfoId;
    var ids: seq<string> := [];
    for i := 0 to |features|
      invariant |ids| == i && forall k :: 0 <= k < i ==> ids[k] == InfoId(features[k].id, features[k].version)
    {
      ids := ids + [InfoId(features[i].id, features[i].version)];
    }
    if storageFails {
      return false;
    }
    var infos := GetFeatureLastUsedInfos(table, ids);
    for i := 0 to |infos|
      invariant forall j :: 0 <= j < |features| ==>
                features[j].lastUsedInfo == Latest(infos[..i], features[j].id, old(features[j].lastUsedInfo))
    {
      assert infos[..i + 1][..i] == infos[..i];
      for k := 0 to |features|
        invariant forall j :: 0 <= j < |features| ==>
                  features[j].lastUsedInfo == Latest(infos[..i], features[j].id, old(features[j].lastUsedInfo))
        invariant forall j :: 0 <= j < k ==> features[j].id != infos[i].featureId
      {
        if features[k].id == infos[i].featureId {
          features[k].lastUsedInfo := Some(infos[i]);
          break;
        }
      }
    }
    assert infos[..|infos|] == infos;
    forall j | 0 <= j < |features|
      ensures features[j].lastUsedInfo ==
              LastUsed(table, features[j].id, features[j].version, old(features[j].lastUsedInfo))
    {
      LatestIsLastUsed(features, table, ids, infos, j, old(features[j].lastUsedInfo));
    }
    return true;
  }

  /** The first features carry the info of their own version, the others what they had. */
  twostate predicate FilledUpTo(features: seq<Feature>, table: Table, n: nat)
    reads set f | f in features
  {
    forall j :: 0 <= j < |features| ==>
      features[j].lastUsedInfo == if j < n
          then LastUsed(table, features[j].id, features[j].version, old(features[j].lastUsedInfo))
                                  else old(features[j].lastUsedInfo)
  }

  lemma DistinctPart(features: seq<Feature>, i: nat, end: nat)
    requires i <= end <= |features| && DistinctIds(features)
    ensures DistinctIds(features[i..end])
    ensures forall j, f :: 0 <= j < |features| && f in features[i..end] && (j < i || end <= j) ==> features[j] != f
  {
  }

  /** However many chunks there are, every feature ends up with the info of its own version; when the
      storage fails at a chunk, the chunks before it have been filled in. */
  method SetLastUsedInfosToFeatureByChunk(features: seq<Feature>, table: Table, storageFails: nat -> bool)
    returns (ok: bool)
    requires DistinctIds(features)
    modifies set f | f in features
    ensures ok <==> forall i :: 0 <= i < |features| && i % GET_MULTI_CHUNK_SIZE == 0 ==> !storageFails(i)
    ensures ok ==> FilledUpTo(features, table, |features|)
    ensures !ok ==> exists n :: 0 <= n < |features| && n % GET_MULTI_CHUNK_SIZE == 0 && FilledUpTo(features, table, n)
  {
    hide LastUsed, InfoId, DistinctIds;
    var i := 0;
    while i < |features|
      invariant 0 <= i && i % GET_MULTI_CHUNK_SIZE == 0
      invariant forall k :: 0 <= k < i && k < |features| && k % GET_MULTI_CHUNK_SIZE == 0 ==> !storageFails(k)
      invariant FilledUpTo(features, table, i)
    {
      var end := i + GET_MULTI_CHUNK_SIZE;
      if end > |features| {
        end := |features|;
      }
      var chunk := features[i..end];
      assert forall j :: i <= j < end ==> features[j] == chunk[j - i] && features[j] in chunk;
      DistinctPart(features, i, end);
      ok := SetLastUsedInfosToFeature(chunk, table, storageFails(i));
      if !ok {
        assert FilledUpTo(features, table, i);
        return false;
      }
      i := i + GET_MULTI_CHUNK_SIZE;
    }
    return true;
  }
}
