/** The keys of the shared Redis cache. Four kinds of entries live in one flat key space. */
module CacheKeys {
  import opened Environments
  import opened EvaluationStrings
  import opened Separators

  const SEGMENT_USERS := "segment_users"
  const EVENT_TRANSFORMER := "event_transformer"
  const EXPERIMENTS := "event_transformer:cache:experiments"
  const ENVIRONMENT_API_KEY := "environment_apikey"

  function MakeKey(kind: string, id: string, env: string): string {
    if env == ADMIN_NAMESPACE then kind + ":" + id else env + ":" + kind + ":" + id
  }

  function MakeKeyPrefix(kind: string, env: string): string {
    if env == ADMIN_NAMESPACE then kind + ":" else env + ":" + kind + ":"
  }

  datatype Entry =
    | SegmentUsersEntry(env: string, segmentId: string)
    | FeaturesEntry(env: string)
    | ExperimentsEntry(env: string, featureId: string, version: int)
    | ApiKeyEntry(id: string)

  predicate Valid(e: Entry) {
    !e.ApiKeyEntry? ==> Namespace(e.env)
  }

  function KeyOf(e: Entry): string {
    match e
    case SegmentUsersEntry(env, segmentId) => MakeKey(SEGMENT_USERS, segmentId, env)
    case FeaturesEntry(env) => env + ":" + "features"
    case ExperimentsEntry(env, featureId, version) => MakeKey(EXPERIMENTS, featureId + ":" + IntText(version), env)
    case ApiKeyEntry(id) => MakeKey(ENVIRONMENT_API_KEY, id, ADMIN_NAMESPACE)
  }

  // ----- The first field of a key and what follows it -----

  function First(e: Entry): string {
    match e
    case SegmentUsersEntry(env, _) => if env == "" then SEGMENT_USERS else env
    case FeaturesEntry(env) => env
    case ExperimentsEntry(env, _, _) => if env == "" then EVENT_TRANSFORMER else env
    case ApiKeyEntry(_) => ENVIRONMENT_API_KEY
  }

  function Rest(e: Entry): string {
    match e
    case SegmentUsersEntry(env, segmentId) => if env == "" then segmentId else SEGMENT_USERS + ":" + segmentId
    case FeaturesEntry(_) => "features"
    case ExperimentsEntry(env, featureId, version) =>
      (if env == "" then "cache:experiments" else EXPERIMENTS) + ":" + (featureId + ":" + IntText(version))
    case ApiKeyEntry(id) => id
  }

  lemma KeySplits(e: Entry)
    requires Valid(e)
    ensures KeyOf(e) == First(e) + [':'] + Rest(e) && Free(First(e), ':')
    ensures First(e) in [SEGMENT_USERS, EVENT_TRANSFORMER, ENVIRONMENT_API_KEY] || Namespace(First(e))
  {
    hide IntText;
    if !e.ApiKeyEntry? {
      NamespaceFree(e.env);
    }
    KindsFree();
    match e
    case SegmentUsersEntry(env, segmentId) =>
      assert env != "" ==> KeyOf(e) == env + [':'] + (SEGMENT_USERS + ":" + segmentId);
    case FeaturesEntry(env) =>
    case ExperimentsEntry(env, featureId, version) =>
      var id := featureId + ":" + IntText(version);
      assert EXPERIMENTS == EVENT_TRANSFORMER + [':'] + "cache:experiments";
      assert env == "" ==> KeyOf(e) == EVENT_TRANSFORMER + [':'] + ("cache:experiments" + ":" + id);
      assert env != "" ==> KeyOf(e) == env + [':'] + (EXPERIMENTS + ":" + id);
    case ApiKeyEntry(id) =>
  }

  lemma NamespaceFree(env: string)
    requires Namespace(env)
    ensures Free(env, ':')
  {
  }

  lemma KindsFree()
    ensures Free(SEGMENT_USERS, ':') && Free(EVENT_TRANSFORMER, ':') && Free(ENVIRONMENT_API_KEY, ':')
  {
  }

  /** The constant kinds carry an underscore, so none of them is a namespace. */
  lemma KindsAreNoNamespaces(env: string)
    requires Namespace(env)
    ensures env != SEGMENT_USERS && env != EVENT_TRANSFORMER && env != ENVIRONMENT_API_KEY
  {
    assert '_' !in env;
    assert SEGMENT_USERS[7] == '_' && '_' in SEGMENT_USERS;
    assert EVENT_TRANSFORMER[5] == '_' && '_' in EVENT_TRANSFORMER;
    assert ENVIRONMENT_API_KEY[11] == '_' && '_' in ENVIRONMENT_API_KEY;
  }

  lemma SameFieldsSameEntry(a: Entry, b: Entry)
    requires Valid(a) && Valid(b) && First(a) == First(b) && Rest(a) == Rest(b)
    ensures a == b
  {
    if !a.ApiKeyEntry? {
      KindsAreNoNamespaces(a.env);
    }
    if !b.ApiKeyEntry? {
      KindsAreNoNamespaces(b.env);
    }
    assert forall e :: e in [a, b] && e.SegmentUsersEntry? && e.env != "" ==>
           Rest(e)[0] == 's' && Rest(e)[|SEGMENT_USERS| + 1..] == e.segmentId;
    assert forall e :: e in [a, b] && e.ExperimentsEntry? && e.env != "" ==> Rest(e)[0] == 'e';
    assert a in [a, b] && b in [a, b];
    if a.ExperimentsEntry? && b.ExperimentsEntry? {
      var prefix := (if a.env == "" then "cache:experiments" else EXPERIMENTS) + ":";
      var x, y := a.featureId + ":" + IntText(a.version), b.featureId + ":" + IntText(b.version);
      assert Rest(a) == prefix + x && Rest(b) == prefix + y;
      assert Rest(a)[|prefix|..] == x && Rest(b)[|prefix|..] == y;
      IntTextPlain(a.version);
      IntTextPlain(b.version);
      SplitAtLast(a.featureId, IntText(a.version), b.featureId, IntText(b.version), ':');
      IntTextInjective(a.version, b.version);
    }
  }

  /** No two entries, of whatever kinds, share a key. */
  lemma KeyInjective(a: Entry, b: Entry)
    requires Valid(a) && Valid(b) && KeyOf(a) == KeyOf(b)
    ensures a == b
  {
    hide KeyOf, First, Rest;
    KeySplits(a);
    KeySplits(b);
    SplitAtFirst(First(a), Rest(a), First(b), Rest(b), ':');
    SameFieldsSameEntry(a, b);
  }

  /** Scanning the prefix of an environment finds its segments and nothing else, also for the
      administrator's empty namespace, whose prefix is shortest. */
  lemma PrefixExactly(env: string, e: Entry)
    requires Namespace(env) && Valid(e)
    ensures MakeKeyPrefix(SEGMENT_USERS, env) <= KeyOf(e) <==> e.SegmentUsersEntry? && e.env == env
  {
    var p, k := MakeKeyPrefix(SEGMENT_USERS, env), KeyOf(e);
    if p <= k {
      var id := k[|p|..];
      var s := SegmentUsersEntry(env, id);
      assert k == p + id == KeyOf(s);
      KeyInjective(e, s);
    }
    if e.SegmentUsersEntry? && e.env == env {
      assert k == p + e.segmentId;
    }
  }

  /** A namespace with an underscore would break this: its entries would show up under the
      administrator's prefix. The check of environment ids rules it out. */
  lemma UnderscoreNamespaceLeaks(segmentId: string)
    ensures MakeKeyPrefix(SEGMENT_USERS, ADMIN_NAMESPACE) <= KeyOf(SegmentUsersEntry(SEGMENT_USERS, segmentId))
  {
  }
}
