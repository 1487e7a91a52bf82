/** The segment user cache: a map from environment and segment to users, kept in the shared flat store
    and read back per environment by scanning a key prefix. */
module SegmentUsersCache {
  import opened CacheKeys
  import opened Environments
  import opened Wrappers

  datatype SegmentUsers = SegmentUsers(segmentId: string, users: seq<string>)

  /** Stored bytes: those of segment users, or another kind's. */
  datatype Value = Users(su: SegmentUsers) | OtherBytes(b: seq<nat>)

  type Store = map<string, Value>

  type Entries = map<Entry, Value>

  /** Only segment entries hold segment users, under their own segment's id. */
  predicate Typed(e: Entry, v: Value) {
    Valid(e) && (e.SegmentUsersEntry? <==> v.Users?) && (v.Users? ==> v.su.segmentId == e.segmentId)
  }

  /** The flat store holds exactly these entries. */
  ghost predicate Refines(store: Store, entries: Entries) {
    && (forall e :: e in entries ==> Typed(e, entries[e]) && KeyOf(e) in store && store[KeyOf(e)] == entries[e])
    && forall k :: k in store ==> exists e :: e in entries && KeyOf(e) == k
  }

  /** A write to the flat store changes its own entry and no other. */
  lemma WriteRefines(store: Store, entries: Entries, e: Entry, v: Value)
    requires Refines(store, entries) && Typed(e, v)
    ensures Refines(store[KeyOf(e) := v], entries[e := v])
  {
    hide KeyOf;
    var store', entries' := store[KeyOf(e) := v], entries[e := v];
    forall f | f in entries' ensures Typed(f, entries'[f]) && KeyOf(f) in store' && store'[KeyOf(f)] == entries'[f] {
      if KeyOf(f) == KeyOf(e) {
        KeyInjective(e, f);
      }
    }
    forall k | k in store' ensures exists f :: f in entries' && KeyOf(f) == k {
      if k == KeyOf(e) {
        assert e in entries';
      } else {
        var f :| f in entries && KeyOf(f) == k;
        assert f in entries';
      }
    }
  }

  lemma LookupRefines(store: Store, entries: Entries, e: Entry)
    requires Refines(store, entries) && Valid(e)
    ensures KeyOf(e) in store <==> e in entries
    ensures e in entries ==> store[KeyOf(e)] == entries[e]
  {
    hide KeyOf;
    if KeyOf(e) in store {
      var f :| f in entries && KeyOf(f) == KeyOf(e);
      KeyInjective(e, f);
    }
  }

  // ----- Whole runs -----

  datatype Write = Write(e: Entry, v: Value)

  function Flat(ws: seq<Write>): Store {
    if ws == [] then map[] else Flat(ws[..|ws| - 1])[KeyOf(ws[|ws| - 1].e) := ws[|ws| - 1].v]
  }

  function Structured(ws: seq<Write>): Entries {
    if ws == [] then map[] else Structured(ws[..|ws| - 1])[ws[|ws| - 1].e := ws[|ws| - 1].v]
  }

  /** After any writes of any kinds, the flat store is the map of their entries. */
  lemma {:induction false} RunRefines(ws: seq<Write>)
    requires forall w :: w in ws ==> Typed(w.e, w.v)
    ensures Refines(Flat(ws), Structured(ws))
  {
    if ws != [] {
      var n := |ws| - 1;
      RunRefines(ws[..n]);
      assert ws[n] in ws;
      WriteRefines(Flat(ws[..n]), Structured(ws[..n]), ws[n].e, ws[n].v);
    }
  }

  // ----- Scanning -----

  /** One SCAN call's answer: the next cursor, zero at the end, and some keys. */
  datatype ScanReply = Page(cursor: nat, keys: seq<string>) | Failed

  /** A full cycle of SCAN returns every key that starts with the prefix, perhaps repeatedly, and no
      other key; a failure ends the cycle early. */
  ghost predicate Cycle(replies: seq<ScanReply>, store: Store, prefix: string) {
    && replies != []
    && (forall i :: 0 <= i < |replies| - 1 ==> replies[i].Page? && replies[i].cursor != 0)
    && (replies[|replies| - 1].Page? ==>
          && replies[|replies| - 1].cursor == 0
          && forall k :: k in AllKeys(replies) <==> k in store && prefix <= k)
  }

  function AllKeys(replies: seq<ScanReply>): seq<string>
    requires forall i :: 0 <= i < |replies| ==> replies[i].Page?
  {
    if replies == [] then []
    else AllKeys(replies[..|replies| - 1]) + replies[|replies| - 1].keys
  }

  method Scan(env: string, replies: seq<ScanReply>, ghost store: Store) returns (r: Option<seq<string>>)
    requires Cycle(replies, store, MakeKeyPrefix(SEGMENT_USERS, env))
    ensures r.None? <==> Failed in replies
    ensures r.Some? ==> forall k :: k in r.value <==> k in store && MakeKeyPrefix(SEGMENT_USERS, env) <= k
  {
    var n := 0;
    var keys: seq<string> := [];
    while true
      invariant n < |replies|
      invariant forall i :: 0 <= i < n ==> replies[i].Page?
      invariant keys == AllKeys(replies[..n])
      decreases |replies| - n
    {
      if replies[n].Failed? {
        return None;
      }
      keys := keys + replies[n].keys;
      assert replies[..n + 1][..n] == replies[..n];
      if replies[n].cursor == 0 {
        assert n + 1 == |replies| && replies[..n + 1] == replies;
        assert Failed !in replies;
        return Some(keys);
      }
      n := n + 1;
    }
  }

  // ----- The cache -----

  /** The segments of one environment. */
  ghost predicate Cached(entries: Entries, env: string, su: SegmentUsers) {
    SegmentUsersEntry(env, su.segmentId) in entries && entries[SegmentUsersEntry(env, su.segmentId)] == Users(su)
  }

  class Cache {
    var store: Store
    ghost var entries: Entries

    ghost predicate Valid()
      reads this
    {
      Refines(store, entries)
    }

    constructor ()
      ensures Valid() && entries == map[]
    {
      store, entries := map[], map[];
    }

    /** `redisFails` leaves the store as it was. */
    method Put(su: SegmentUsers, env: string, redisFails: bool) returns (ok: bool)
      requires Valid() && Namespace(env)
      modifies this
      ensures Valid() && ok == !redisFails
      ensures entries == if ok then old(entries)[SegmentUsersEntry(env, su.segmentId) := Users(su)] else old(entries)
    {
      if redisFails {
        return false;
      }
      WriteRefines(store, entries, SegmentUsersEntry(env, su.segmentId), Users(su));
      store := store[MakeKey(SEGMENT_USERS, su.segmentId, env) := Users(su)];
      entries := entries[SegmentUsersEntry(env, su.segmentId) := Users(su)];
      return true;
    }

    /** The other caches on the same Redis. */
    method PutOther(e: Entry, bytes: seq<nat>)
      requires Valid() && CacheKeys.Valid(e) && !e.SegmentUsersEntry?
      modifies this
      ensures Valid() && entries == old(entries)[e := OtherBytes(bytes)]
      ensures forall env, su :: Cached(entries, env, su) <==> old(Cached(entries, env, su))
    {
      WriteRefines(store, entries, e, OtherBytes(bytes));
      store := store[KeyOf(e) := OtherBytes(bytes)];
      entries := entries[e := OtherBytes(bytes)];
    }

    method Get(segmentId: string, env: string, redisFails: bool) returns (r: Option<SegmentUsers>)
      requires Valid() && Namespace(env)
      ensures r.Some? <==> !redisFails && SegmentUsersEntry(env, segmentId) in entries
      ensures r.Some? ==> r.value.segmentId == segmentId && Cached(entries, env, r.value)
    {
      LookupRefines(store, entries, SegmentUsersEntry(env, segmentId));
      var key := MakeKey(SEGMENT_USERS, segmentId, env);
      if redisFails || key !in store {
        return None;
      }
      match store[key]
      case Users(su) => return Some(su);
      case OtherBytes(_) => return None;
    }

    /** The values of the keys; asking for none may itself be an error in Redis. */
    method GetMulti(keys: seq<string>, emptyFails: bool, redisFails: bool) returns (r: Option<seq<Value>>)
      ensures r.None? <==> redisFails || (keys == [] && emptyFails) || exists k :: k in keys && k !in store
      ensures r.Some? ==> |r.value| == |keys| && forall i :: 0 <= i < |keys| ==>
              keys[i] in store && r.value[i] == store[keys[i]]
    {
      if redisFails || (keys == [] && emptyFails) {
        return None;
      }
      var values: seq<Value> := [];
      for i := 0 to |keys|
        invariant |values| == i
        invariant forall j :: 0 <= j < i ==> keys[j] in store && values[j] == store[keys[j]]
      {
        if keys[i] !in store {
          return None;
        }
        values := values + [store[keys[i]]];
      }
      return Some(values);
    }

    /** Exactly the segments put for the environment. */
    method GetAll(env: string, replies: seq<ScanReply>, emptyFails: bool, redisFails: bool)
      returns (r: Option<seq<SegmentUsers>>)
      requires Valid() && Namespace(env)
      requires Cycle(replies, store, MakeKeyPrefix(SEGMENT_USERS, env))
      ensures r.Some? ==> forall su :: su in r.value <==> Cached(entries, env, su)
      ensures r.None? <==> Failed in replies || redisFails || (emptyFails && forall su :: !Cached(entries, env, su))
    {
      hide KeyOf, MakeKeyPrefix;
      var keys := Scan(env, replies, store);
      if keys.None? {
        return None;
      }
      ScannedExactly(store, entries, env, keys.value);
      assert keys.value != [] ==> keys.value[0] in keys.value;
      var values := GetMulti(keys.value, emptyFails, redisFails);
      if values.None? {
        return None;
      }
      var list: seq<SegmentUsers> := [];
      for i := 0 to |values.value|
        invariant |list| == i && forall j :: 0 <= j < i ==> values.value[j] == Users(list[j])
      {
        assert keys.value[i] in keys.value && values.value[i].Users?;
        match values.value[i]
        case OtherBytes(_) =>
          return None;
        case Users(su) =>
          list := list + [su];
      }
      forall su ensures su in list <==> Users(su) in values.value {
      }
      return Some(list);
    }
  }

  /** The scanned keys hold the segments of the environment. */
  lemma ScannedExactly(store: Store, entries: Entries, env: string, keys: seq<string>)
    requires Refines(store, entries) && Namespace(env)
    requires forall k :: k in keys <==> k in store && MakeKeyPrefix(SEGMENT_USERS, env) <= k
    ensures forall k :: k in keys ==> k in store && store[k].Users? && Cached(entries, env, store[k].su)
    ensures forall su :: Cached(entries, env, su) ==> exists k :: k in keys && store[k] == Users(su)
  {
    hide KeyOf, MakeKeyPrefix;
    forall k | k in keys ensures k in store && store[k].Users? && Cached(entries, env, store[k].su) {
      var e :| e in entries && KeyOf(e) == k;
      PrefixExactly(env, e);
    }
    forall su | Cached(entries, env, su) ensures exists k :: k in keys && store[k] == Users(su) {
      var e := SegmentUsersEntry(env, su.segmentId);
      PrefixExactly(env, e);
      assert KeyOf(e) in keys;
    }
  }
}
