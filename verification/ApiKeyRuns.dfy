/** What a chunk or a whole run of the API key cacher leaves in the cache: the keys of an acked project
    event or deletion are cached exactly while nobody puts one of them with another value. */
module ApiKeyRuns {
  import opened ApiKeyCacher
  import opened PubSub
  import opened SharedCache
  import opened Wrappers

  // ----- The environments a message makes the cacher rewrite -----

  /** A project that is enabled or disabled, or an environment that is deleted. */
  predicate Rewrites(m: Msg) {
    FlagOf(m).Some? && !m.data.ApiKeyEvent?
  }

  function EnvsOf(s: Services, h: Handling): seq<string> {
    match h.m.data
    case ProjectEvent(_, id) =>
      (match s.listEnvironments(id, h.start) case Some(envs) => envs case None => [])
    case EnvironmentEvent(_, _, env) => [env]
    case _ => []
  }

  function TimesOf(h: Handling): seq<nat> {
    if h.m.data.EnvironmentEvent? then [h.start] else h.times
  }

  /** Every key of every such environment, as listed for this message, is cached with its own namespace and
      the message's flag. */
  ghost predicate KeysCached(s: Services, h: Handling, cache: Cache) {
    && FlagOf(h.m).Some? && |TimesOf(h)| == |EnvsOf(s, h)|
    && forall i :: 0 <= i < |EnvsOf(s, h)| ==>
         EnvironmentCached(s, cache, EnvsOf(s, h)[i], TimesOf(h)[i], FlagOf(h.m).value)
  }

  lemma AckedEntries(s: Services, h: Handling)
    requires Outcome(s, h) && h.kind == Ack && Rewrites(h.m)
    ensures ProjectEntries(s, EnvsOf(s, h), TimesOf(h), FlagOf(h.m).value, h.written)
    ensures forall t :: t in TimesOf(h) ==> h.start <= t
  {
    hide ProjectEntries, NeverFails, FromAnswers;
    if h.m.data.EnvironmentEvent? {
      DeletionEntries(s, h.m.data.env, h.start, h.written);
    }
  }

  lemma DeletionEntries(s: Services, env: string, t: nat, es: seq<EnvApiKey>)
    requires s.listKeys(env, t).Some? && es == Entries(s.listKeys(env, t).value, env, true)
    ensures ProjectEntries(s, [env], [t], true, es)
  {
    assert ProjectEntries(s, [], [], true, []);
    hide ProjectEntries;
    ProjectEntriesSnoc(s, [], [], true, [], env, t);
    assert [] + [env] == [env] && [] + [t] == [t] && [] + es == es;
  }

  lemma {:induction false} ListedAt(
    s: Services, envs: seq<string>, times: seq<nat>, disabled: bool, es: seq<EnvApiKey>, i: nat)
    requires ProjectEntries(s, envs, times, disabled, es) && i < |envs|
    ensures s.listKeys(envs[i], times[i]).Some?
    decreases |envs|
  {
    var n := |envs| - 1;
    if i < n {
      var last := Entries(s.listKeys(envs[n], times[n]).value, envs[n], disabled);
      ListedAt(s, envs[..n], times[..n], disabled, es[..|es| - |last|], i);
    }
  }

  /** The entry is one of the i-th environment. */
  predicate EntryOf(s: Services, envs: seq<string>, times: seq<nat>, disabled: bool, i: nat, e: EnvApiKey)
    requires i < |envs| == |times|
  {
    && s.listKeys(envs[i], times[i]).Some? && e.key in s.listKeys(envs[i], times[i]).value
    && e.env == envs[i] && e.environmentDisabled == disabled
  }

  /** The entries written are exactly those of the listed keys. */
  lemma {:induction false} ProjectEntriesExactly(
    s: Services, envs: seq<string>, times: seq<nat>, disabled: bool, es: seq<EnvApiKey>, e: EnvApiKey)
    requires ProjectEntries(s, envs, times, disabled, es)
    ensures e in es <==> exists i :: 0 <= i < |envs| && EntryOf(s, envs, times, disabled, i, e)
    decreases |envs|
  {
    if envs != [] {
      var n := |envs| - 1;
      var keys := s.listKeys(envs[n], times[n]).value;
      var last := Entries(keys, envs[n], disabled);
      var split := |es| - |last|;
      assert es == es[..split] + last;
      ProjectEntriesExactly(s, envs[..n], times[..n], disabled, es[..split], e);
      hide ProjectEntries;
      forall i | 0 <= i < n
        ensures EntryOf(s, envs[..n], times[..n], disabled, i, e) <==> EntryOf(s, envs, times, disabled, i, e)
      {
      }
      assert e in last <==> EntryOf(s, envs, times, disabled, n, e) by {
        if EntryOf(s, envs, times, disabled, n, e) {
          var k :| 0 <= k < |keys| && keys[k] == e.key;
          assert last[k] == e;
        }
      }
      hide EntryOf;
      if e in es[..split] {
        var i :| 0 <= i < n && EntryOf(s, envs[..n], times[..n], disabled, i, e);
        assert EntryOf(s, envs, times, disabled, i, e);
      }
    }
  }

  /** The keys are cached exactly when all the entries are. */
  lemma KeysCachedExactly(s: Services, h: Handling, cache: Cache)
    requires Rewrites(h.m) && ProjectEntries(s, EnvsOf(s, h), TimesOf(h), FlagOf(h.m).value, h.written)
    ensures KeysCached(s, h, cache) <==> forall e :: e in h.written ==> Caches(cache, e)
  {
    var envs, times, flag := EnvsOf(s, h), TimesOf(h), FlagOf(h.m).value;
    hide ProjectEntries, Caches;
    assert |times| == |envs| by {
      SameLength(s, envs, times, flag, h.written);
    }
    forall e ensures e in h.written <==> exists i :: 0 <= i < |envs| && EntryOf(s, envs, times, flag, i, e) {
      ProjectEntriesExactly(s, envs, times, flag, h.written, e);
    }
    forall i | 0 <= i < |envs| ensures s.listKeys(envs[i], times[i]).Some? {
      ListedAt(s, envs, times, flag, h.written, i);
    }
    hide EnvsOf, TimesOf, FlagOf;
    if forall e :: e in h.written ==> Caches(cache, e) {
      forall i, key | 0 <= i < |envs| && key in s.listKeys(envs[i], times[i]).value
        ensures Caches(cache, EnvApiKey(key, envs[i], flag))
      {
        assert EntryOf(s, envs, times, flag, i, EnvApiKey(key, envs[i], flag));
      }
    }
    if KeysCached(s, h, cache) {
      forall e | e in h.written ensures Caches(cache, e) {
        var i :| 0 <= i < |envs| && EntryOf(s, envs, times, flag, i, e);
        assert EnvironmentCached(s, cache, envs[i], times[i], flag);
      }
    }
  }

  lemma SameLength(s: Services, envs: seq<string>, times: seq<nat>, disabled: bool, es: seq<EnvApiKey>)
    requires ProjectEntries(s, envs, times, disabled, es)
    ensures |times| == |envs|
  {
  }

  // ----- Right after one message -----

  /** No key id is listed with two keys or for two environments. */
  predicate ListingsAgree(s: Services, envs: seq<string>, times: seq<nat>)
    requires |envs| == |times|
  {
    forall i, j :: 0 <= i < |envs| && 0 <= j < |envs| ==>
      match (s.listKeys(envs[i], times[i]), s.listKeys(envs[j], times[j]))
      case (Some(a), Some(b)) =>
        forall k, l :: 0 <= k < |a| && 0 <= l < |b| && a[k].id == b[l].id ==> a[k] == b[l] && envs[i] == envs[j]
      case _ => true
  }

  lemma ListingsAgreeExactly(s: Services, envs: seq<string>, times: seq<nat>, disabled: bool, es: seq<EnvApiKey>)
    requires ProjectEntries(s, envs, times, disabled, es) && |envs| == |times|
    ensures ListingsAgree(s, envs, times) <==> OneEntryPerKey(es)
  {
    hide ProjectEntries;
    forall e ensures e in es <==> exists i :: 0 <= i < |envs| && EntryOf(s, envs, times, disabled, i, e) {
      ProjectEntriesExactly(s, envs, times, disabled, es, e);
    }
    hide EntryOf;
    if ListingsAgree(s, envs, times) {
      forall x, y | 0 <= x < |es| && 0 <= y < |es| && es[x].key.id == es[y].key.id ensures es[x] == es[y] {
        assert es[x] in es && es[y] in es;
        var i :| 0 <= i < |envs| && EntryOf(s, envs, times, disabled, i, es[x]);
        var j :| 0 <= j < |envs| && EntryOf(s, envs, times, disabled, j, es[y]);
        SameEntry(s, envs, times, disabled, i, j, es[x], es[y]);
      }
    }
    if OneEntryPerKey(es) {
      forall i, j | 0 <= i < |envs| && 0 <= j < |envs| && s.listKeys(envs[i], times[i]).Some?
          && s.listKeys(envs[j], times[j]).Some?
        ensures var a, b := s.listKeys(envs[i], times[i]).value, s.listKeys(envs[j], times[j]).value;
                forall k, l :: 0 <= k < |a| && 0 <= l < |b| && a[k].id == b[l].id ==> a[k] == b[l] && envs[i] == envs[j]
      {
        var a, b := s.listKeys(envs[i], times[i]).value, s.listKeys(envs[j], times[j]).value;
        forall k, l | 0 <= k < |a| && 0 <= l < |b| && a[k].id == b[l].id ensures a[k] == b[l] && envs[i] == envs[j] {
          TwoEntries(s, envs, times, disabled, es, i, j, a[k], b[l]);
        }
      }
    }
  }

  lemma SameEntry(s: Services, envs: seq<string>, times: seq<nat>, disabled: bool, i: nat, j: nat,
                  e: EnvApiKey, e': EnvApiKey)
    requires |envs| == |times| && i < |envs| && j < |envs| && ListingsAgree(s, envs, times) && e.key.id == e'.key.id
    requires EntryOf(s, envs, times, disabled, i, e) && EntryOf(s, envs, times, disabled, j, e')
    ensures e == e'
  {
    var a, b := s.listKeys(envs[i], times[i]).value, s.listKeys(envs[j], times[j]).value;
    var k, l :| 0 <= k < |a| && 0 <= l < |b| && a[k] == e.key && b[l] == e'.key;
  }

  lemma TwoEntries(s: Services, envs: seq<string>, times: seq<nat>, disabled: bool, es: seq<EnvApiKey>,
                   i: nat, j: nat, key: ApiKey, key': ApiKey)
    requires i < |envs| && j < |envs| && |envs| == |times| && OneEntryPerKey(es) && key.id == key'.id
    requires forall e :: (exists i :: 0 <= i < |envs| && EntryOf(s, envs, times, disabled, i, e)) ==> e in es
    requires s.listKeys(envs[i], times[i]).Some? && key in s.listKeys(envs[i], times[i]).value
    requires s.listKeys(envs[j], times[j]).Some? && key' in s.listKeys(envs[j], times[j]).value
    ensures key == key' && envs[i] == envs[j]
  {
    var e, e' := EnvApiKey(key, envs[i], disabled), EnvApiKey(key', envs[j], disabled);
    assert EntryOf(s, envs, times, disabled, i, e) && EntryOf(s, envs, times, disabled, j, e');
    assert e in es && e' in es;
    var x, y :| 0 <= x < |es| && 0 <= y < |es| && es[x] == e && es[y] == e';
  }

  /** The part of the log that one handling took has no put of the key by anybody else. */
  ghost predicate OnlyOwn(log: Log, id: string) {
    forall p :: p in log && p.key == id ==> p.own
  }

  /** Right after an acked project event or deletion whose keys nobody else put meanwhile, all its keys are
      cached if and only if the listings the services gave for it agree. */
  lemma AckedCachesExactly(s: Services, hs: seq<Handling>, initial: Cache, log0: Log, log: Log, k: nat)
    requires Handled(s, hs, log0, log) && k < |hs| && hs[k].kind == Ack && Rewrites(hs[k].m)
    requires hs[k].from <= hs[k].to <= |log| && forall e :: e in hs[k].written ==>
               OnlyOwn(log[hs[k].from..hs[k].to], e.key.id)
    ensures |TimesOf(hs[k])| == |EnvsOf(s, hs[k])| && forall t :: t in TimesOf(hs[k]) ==> hs[k].start <= t
    ensures KeysCached(s, hs[k], Applied(initial, log[..hs[k].to])) <==>
            ListingsAgree(s, EnvsOf(s, hs[k]), TimesOf(hs[k]))
  {
    var h := hs[k];
    HandledAt(s, hs, log0, log, k);
    AckedEntries(s, h);
    SameLength(s, EnvsOf(s, h), TimesOf(h), FlagOf(h.m).value, h.written);
    RunCachesExactly(s, hs, initial, log0, log, k, h.to);
    AllLastExactly(h.written);
    ListingsAgreeExactly(s, EnvsOf(s, h), TimesOf(h), FlagOf(h.m).value, h.written);
    forall e | e in h.written
      ensures LastPut(log[..h.to], e.key.id) == LastPut(PutsOf(h.written), e.key.id)
    {
      LastInSpan(log, h, e.key.id);
    }
    hide KeysCached, ListingsAgree, OneEntryPerKey, LastPut, HandledTo, Handled, ProjectEntries, EnvsOf, TimesOf,
        FlagOf;
    if forall e :: e in h.written ==> LastPutIs(log[..h.to], e) {
      forall e | e in h.written ensures LastPut(PutsOf(h.written), e.key.id) == Some(Put(true, e.key.id, e)) {
        assert LastPutIs(log[..h.to], e);
        OwnLast(h.written, e.key.id);
      }
    }
  }

  lemma LastInSpan(log: Log, h: Handling, id: string)
    requires h.from <= h.to <= |log| && Wrote(log[..h.from], log[..h.to], h.written)
    requires OnlyOwn(log[h.from..h.to], id) && Writes(h.written, id)
    ensures LastPut(log[..h.to], id) == LastPut(PutsOf(h.written), id)
  {
    hide OwnPuts, LastPut;
    SpanPuts(log, h.from, h.to, h.written);
    assert log[..h.to] == log[..h.from] + log[h.from..h.to];
    LastPutConcat(log[..h.from], log[h.from..h.to], id);
    LastPutOfOwn(log[h.from..h.to], id);
    LastOfPuts(h.written, id);
  }

  lemma SpanPuts(log: Log, from: nat, to: nat, es: seq<EnvApiKey>)
    requires from <= to <= |log| && Wrote(log[..from], log[..to], es)
    ensures OwnPuts(log[from..to]) == PutsOf(es)
  {
    hide OwnPuts;
    var own := OwnPuts(log[..from]);
    OwnPutsConcat(log[..from], log[from..to]);
    assert log[..to] == log[..from] + log[from..to];
    assert (own + OwnPuts(log[from..to]))[|own|..] == OwnPuts(log[from..to]);
    assert (own + PutsOf(es))[|own|..] == PutsOf(es);
  }

  // ----- At any later moment of a chunk or a run -----

  predicate LastPutIs(log: Log, e: EnvApiKey) {
    LastPut(log, e.key.id).Some? && LastPut(log, e.key.id).value.value == e
  }

  /** For any run, whatever else it holds and whatever others put: at any later moment the keys of an acked
      project event or deletion are all cached if and only if the last put of each of them, whoever made it,
      is of the entry that this event wrote. */
  lemma RunCachesExactly(s: Services, hs: seq<Handling>, initial: Cache, log0: Log, log: Log, k: nat, n: nat)
    requires Handled(s, hs, log0, log) && k < |hs| && hs[k].kind == Ack && Rewrites(hs[k].m)
    requires hs[k].to <= n <= |log|
    ensures KeysCached(s, hs[k], Applied(initial, log[..n])) <==>
            forall e :: e in hs[k].written ==> LastPutIs(log[..n], e)
  {
    HandledAt(s, hs, log0, log, k);
    AckedEntries(s, hs[k]);
    KeysCachedExactly(s, hs[k], Applied(initial, log[..n]));
    hide Handled, Outcome, Caches, KeysCached, Applied, OwnPuts;
    forall e | e in hs[k].written
      ensures Caches(Applied(initial, log[..n]), e) <==> LastPutIs(log[..n], e)
    {
      WrittenIsPut(log, hs[k], n, e);
      EntryStaysExactly(initial, log[..n], e);
    }
  }

  /** What a handling wrote is put from then on, and the last put of its key is no older. */
  lemma WrittenIsPut(log: Log, h: Handling, n: nat, e: EnvApiKey)
    requires h.from <= h.to <= n <= |log| && Wrote(log[..h.from], log[..h.to], h.written) && e in h.written
    ensures LastPut(log[..n], e.key.id).Some? && LastPut(log[..n], e.key.id) == LastPut(log[h.from..n], e.key.id)
  {
    hide LastPut, OwnPuts, Wrote;
    SpanHolds(log, h, e);
    assert log[h.from..n] == log[h.from..h.to] + log[h.to..n] && log[..n] == log[..h.from] + log[h.from..n];
    LastPutConcat(log[h.from..h.to], log[h.to..n], e.key.id);
    LastPutConcat(log[..h.from], log[h.from..n], e.key.id);
  }

  lemma SpanHolds(log: Log, h: Handling, e: EnvApiKey)
    requires h.from <= h.to <= |log| && Wrote(log[..h.from], log[..h.to], h.written) && e in h.written
    ensures LastPut(log[h.from..h.to], e.key.id).Some?
  {
    hide LastPut, Wrote;
    SpanPuts(log, h.from, h.to, h.written);
    var i :| 0 <= i < |h.written| && h.written[i] == e;
    assert PutsOf(h.written)[i] in OwnPuts(log[h.from..h.to]);
    hide OwnPuts;
    assert PutsOf(h.written)[i].key == e.key.id;
  }

  /** Each key id is answered with one key of one environment. */
  ghost predicate StableKeys(s: Services) {
    forall key, env, key', env' :: Answered(s, key, env) && Answered(s, key', env') && key.id == key'.id ==>
      key == key' && env == env'
  }

  /** What everybody else puts was answered by the services too; the flag may be any. */
  ghost predicate OthersAnswered(s: Services, log: Log) {
    forall p :: p in log && !p.own ==> p.key == p.value.key.id && Answered(s, p.value.key, p.value.env)
  }

  /** The last put of the entry's key carries the entry's flag. */
  predicate SameFlag(log: Log, e: EnvApiKey) {
    LastPut(log, e.key.id).Some? && LastPut(log, e.key.id).value.value.environmentDisabled == e.environmentDisabled
  }

  lemma {:induction false} FromHandling(hs: seq<Handling>, e: EnvApiKey)
    ensures e in AllWritten(hs) <==> exists j :: 0 <= j < |hs| && e in hs[j].written
    decreases |hs|
  {
    if hs != [] {
      var n := |hs| - 1;
      FromHandling(hs[..n], e);
      if j :| 0 <= j < n && e in hs[j].written {
        assert e in hs[..n][j].written;
      }
    }
  }

  /** A put of the worker since the k-th handling began comes from that handling or a later one. */
  lemma PutByHandling(s: Services, hs: seq<Handling>, log0: Log, log: Log, k: nat, p: Put<EnvApiKey>) returns (j: nat)
    requires Handled(s, hs, log0, log) && k < |hs| && hs[k].from <= |log| && p in log[hs[k].from..] && p.own
    ensures k <= j < |hs| && p.value in hs[j].written && Outcome(s, hs[j]) && p.key == p.value.key.id
  {
    hide Handled, Outcome, Wrote, OwnPuts, AllWritten;
    HandledAt(s, hs, log0, log, k);
    var es := AllWritten(hs[k..]);
    assert log[..|log|] == log && log[hs[k].from..|log|] == log[hs[k].from..];
    SpanPuts(log, hs[k].from, |log|, es);
    assert p in OwnPuts(log[hs[k].from..]);
    var i :| 0 <= i < |es| && PutsOf(es)[i] == p;
    FromHandling(hs[k..], p.value);
    assert p.value in es;
    var l :| 0 <= l < |hs[k..]| && p.value in hs[k..][l].written;
    j := k + l;
    HandledAt(s, hs, log0, log, j);
  }

  /** The last put of a key that the k-th handling wrote was made by a worker's handling from the k-th on or
      by somebody else since it began; with stable keys it can differ in the flag only. */
  lemma LastDiffersInFlag(
    s: Services, hs: seq<Handling>, log0: Log, log: Log, k: nat, n: nat, e: EnvApiKey)
    requires Handled(s, hs, log0, log) && k < |hs| && hs[k].from <= hs[k].to <= n <= |log| && e in hs[k].written
    requires StableKeys(s) && OthersAnswered(s, log[hs[k].from..n])
    ensures LastPut(log[..n], e.key.id).Some?
    ensures var last := LastPut(log[..n], e.key.id).value;
            && last in log[hs[k].from..n] && last.value.key == e.key && last.value.env == e.env
            && (last.own ==> exists j :: k <= j < |hs| && last.value in hs[j].written && Outcome(s, hs[j]))
  {
    HandledAt(s, hs, log0, log, k);
    WrittenIsPut(log, hs[k], n, e);
    var last := LastPut(log[..n], e.key.id).value;
    assert last in log[hs[k].from..n];
    hide Handled, Wrote, LastPut, Answered;
    assert Answered(s, e.key, e.env);
    if last.own {
      assert last in log[hs[k].from..];
      var j := PutByHandling(s, hs, log0, log, k, last);
      assert Answered(s, last.value.key, last.value.env);
    }
  }

  /** With stable keys, whatever the other messages and the other writers are: at any later moment the keys
      of an acked project event or deletion are all cached if and only if the last put of each of them
      carries this event's flag. */
  lemma RunCachesByFlag(s: Services, hs: seq<Handling>, initial: Cache, log0: Log, log: Log, k: nat, n: nat)
    requires Handled(s, hs, log0, log) && k < |hs| && hs[k].kind == Ack && Rewrites(hs[k].m)
    requires hs[k].from <= hs[k].to <= n <= |log| && StableKeys(s) && OthersAnswered(s, log[hs[k].from..n])
    ensures KeysCached(s, hs[k], Applied(initial, log[..n])) <==>
            forall e :: e in hs[k].written ==> SameFlag(log[..n], e)
  {
    RunCachesExactly(s, hs, initial, log0, log, k, n);
    hide Handled, Applied, KeysCached, LastPut, StableKeys, OthersAnswered;
    forall e | e in hs[k].written ensures LastPutIs(log[..n], e) <==> SameFlag(log[..n], e) {
      LastDiffersInFlag(s, hs, log0, log, k, n, e);
    }
  }

  /** No later message that may touch the environment sets the other flag. */
  ghost predicate Unopposed(s: Services, hs: seq<Handling>, k: nat, env: string)
    requires k < |hs|
  {
    forall j :: k < j < |hs| && MayTouch(s, hs[j].m, env) && FlagOf(hs[j].m).Some? ==>
        FlagOf(hs[j].m) == FlagOf(hs[k].m)
  }

  /** Nobody else puts a key of the environment with the other flag. */
  ghost predicate OthersUnopposed(puts: Log, env: string, disabled: bool) {
    forall p :: p in puts && !p.own && p.value.env == env ==> p.value.environmentDisabled == disabled
  }

  /** In particular they stay cached in every run in which no later message of the worker, and no put of
      anybody else since this one was begun, sets the other flag for one of its environments. */
  lemma RunCachesUnopposed(s: Services, hs: seq<Handling>, initial: Cache, log0: Log, log: Log, k: nat, n: nat)
    requires Handled(s, hs, log0, log) && k < |hs| && hs[k].kind == Ack && Rewrites(hs[k].m)
    requires hs[k].from <= hs[k].to <= n <= |log| && StableKeys(s) && OthersAnswered(s, log[hs[k].from..n])
    requires forall i :: 0 <= i < |EnvsOf(s, hs[k])| ==>
               && Unopposed(s, hs, k, EnvsOf(s, hs[k])[i])
               && OthersUnopposed(log[hs[k].from..n], EnvsOf(s, hs[k])[i], FlagOf(hs[k].m).value)
    ensures KeysCached(s, hs[k], Applied(initial, log[..n]))
  {
    HandledAt(s, hs, log0, log, k);
    AckedEntries(s, hs[k]);
    RunCachesByFlag(s, hs, initial, log0, log, k, n);
    var envs, times, flag := EnvsOf(s, hs[k]), TimesOf(hs[k]), FlagOf(hs[k].m).value;
    SameLength(s, envs, times, flag, hs[k].written);
    hide Handled, Applied, KeysCached, LastPut, StableKeys, OthersAnswered, Wrote, ProjectEntries, Outcome, Unopposed,
         OthersUnopposed;
    forall e | e in hs[k].written ensures SameFlag(log[..n], e) {
      ProjectEntriesExactly(s, envs, times, flag, hs[k].written, e);
      var i :| 0 <= i < |envs| && EntryOf(s, envs, times, flag, i, e);
      KeyUnopposed(s, hs, log0, log, k, n, e);
    }
  }

  lemma KeyUnopposed(s: Services, hs: seq<Handling>, log0: Log, log: Log, k: nat, n: nat, e: EnvApiKey)
    requires Handled(s, hs, log0, log) && k < |hs| && hs[k].from <= hs[k].to <= n <= |log| && e in hs[k].written
    requires StableKeys(s) && OthersAnswered(s, log[hs[k].from..n])
    requires FlagOf(hs[k].m) == Some(e.environmentDisabled) && Unopposed(s, hs, k, e.env)
    requires OthersUnopposed(log[hs[k].from..n], e.env, e.environmentDisabled)
    ensures SameFlag(log[..n], e)
  {
    hide Handled, LastPut, StableKeys, OthersAnswered, Outcome, FlagOf, MayTouch;
    LastDiffersInFlag(s, hs, log0, log, k, n, e);
    var last := LastPut(log[..n], e.key.id).value;
    if last.own {
      var j :| k <= j < |hs| && last.value in hs[j].written && Outcome(s, hs[j]);
      WrittenMayTouch(s, hs[j], last.value);
    }
  }

  lemma WrittenMayTouch(s: Services, h: Handling, e: EnvApiKey)
    requires Outcome(s, h) && e in h.written
    ensures MayTouch(s, h.m, e.env) && FlagOf(h.m) == Some(e.environmentDisabled)
  {
  }

  // ----- A single writer -----

  /** The j-th handling is the last that writes the key. */
  ghost predicate LastWriter(hs: seq<Handling>, j: nat, id: string)
    requires j < |hs|
  {
    Writes(hs[j].written, id) && forall l :: j < l < |hs| ==> !Writes(hs[l].written, id)
  }

  lemma {:induction false} LastWriterWins(hs: seq<Handling>, id: string, j: nat)
    requires j < |hs| && LastWriter(hs, j, id)
    ensures LastPut(PutsOf(AllWritten(hs)), id).Some?
    ensures LastPut(PutsOf(AllWritten(hs)), id).value.value in hs[j].written
    decreases |hs|
  {
    hide LastPut, PutsOf, Writes;
    var n := |hs| - 1;
    var before, last := AllWritten(hs[..n]), hs[n].written;
    PutsOfConcat(before, last);
    LastPutConcat(PutsOf(before), PutsOf(last), id);
    LastOfPuts(last, id);
    if j < n {
      assert LastWriter(hs[..n], j, id) by {
        assert forall l :: j < l < n ==> hs[..n][l] == hs[l];
      }
      LastWriterWins(hs[..n], id, j);
    }
  }

  lemma PutsOfConcat(a: seq<EnvApiKey>, b: seq<EnvApiKey>)
    ensures PutsOf(a + b) == PutsOf(a) + PutsOf(b)
  {
  }

  lemma {:induction false} SomeLastWriter(hs: seq<Handling>, id: string, k: nat) returns (j: nat)
    requires k < |hs| && Writes(hs[k].written, id)
    ensures k <= j < |hs| && LastWriter(hs, j, id)
    decreases |hs|
  {
    var n := |hs| - 1;
    j := n;
    if !Writes(hs[n].written, id) {
      j := SomeLastWriter(hs[..n], id, k);
      assert forall l :: j < l < n ==> hs[l] == hs[..n][l];
    }
  }

  /** A worker that alone writes the cache: with stable keys, the keys of an acked project event or deletion
      are all cached at the end if and only if, for each of them, the last message that wrote it carries the
      same flag. */
  lemma SingleWriterCachesExactly(s: Services, hs: seq<Handling>, initial: Cache, log0: Log, log: Log, k: nat)
    requires Handled(s, hs, log0, log) && k < |hs| && hs[k].kind == Ack && Rewrites(hs[k].m)
    requires StableKeys(s) && forall p :: p in log ==> p.own
    ensures KeysCached(s, hs[k], Applied(initial, log)) <==>
            forall e, j :: e in hs[k].written && k <= j < |hs| && LastWriter(hs, j, e.key.id) ==>
              FlagOf(hs[j].m) == FlagOf(hs[k].m)
  {
    HandledAt(s, hs, log0, log, k);
    assert log[..|log|] == log;
    RunCachesByFlag(s, hs, initial, log0, log, k, |log|);
    hide Handled, Applied, KeysCached, StableKeys, Outcome, FlagOf, LastPut;
    forall e, j | e in hs[k].written && k <= j < |hs| && LastWriter(hs, j, e.key.id)
      ensures SameFlag(log, e) <==> FlagOf(hs[j].m) == FlagOf(hs[k].m)
    {
      LastFlag(s, hs, log0, log, k, e, j);
    }
    hide SameFlag;
    forall e | e in hs[k].written ensures exists j :: k <= j < |hs| && LastWriter(hs, j, e.key.id) {
      var j := SomeLastWriter(hs, e.key.id, k);
    }
  }

  lemma LastFlag(s: Services, hs: seq<Handling>, log0: Log, log: Log, k: nat, e: EnvApiKey, j: nat)
    requires Handled(s, hs, log0, log) && k <= j < |hs| && e in hs[k].written && LastWriter(hs, j, e.key.id)
    requires forall p :: p in log ==> p.own
    ensures SameFlag(log, e) <==> FlagOf(hs[j].m) == FlagOf(hs[k].m)
  {
    hide Handled, LastPut;
    HandledAt(s, hs, log0, log, k);
    HandledAt(s, hs, log0, log, j);
    WrittenMayTouch(s, hs[k], e);
    hide Outcome, FlagOf, Wrote;
    assert log[..|log|] == log;
    WrittenIsPut(log, hs[k], |log|, e);
    LastFrom(hs, log, k, hs[k].from, e.key.id, j);
    WrittenMayTouch(s, hs[j], LastPut(log, e.key.id).value.value);
  }

  lemma LastFrom(hs: seq<Handling>, log: Log, k: nat, from: nat, id: string, j: nat)
    requires from <= |log| && k <= j < |hs| && LastWriter(hs, j, id)
    requires Wrote(log[..from], log, AllWritten(hs[k..])) && forall p :: p in log ==> p.own
    ensures LastPut(log[from..], id).Some? && LastPut(log[from..], id).value.value in hs[j].written
  {
    hide LastPut, Wrote, LastWriter, AllWritten, PutsOf;
    OwnLogIsWritten(log, from, AllWritten(hs[k..]));
    LastWriterFrom(hs, k, id, j);
  }

  lemma OwnLogIsWritten(log: Log, from: nat, es: seq<EnvApiKey>)
    requires from <= |log| && Wrote(log[..from], log, es) && forall p :: p in log ==> p.own
    ensures log[from..] == PutsOf(es)
  {
    hide OwnPuts, Wrote;
    assert log[..|log|] == log && log[from..|log|] == log[from..];
    SpanPuts(log, from, |log|, es);
    assert forall p :: p in log[from..] ==> p in log;
    AllOwn(log[from..]);
  }

  lemma LastWriterFrom(hs: seq<Handling>, k: nat, id: string, j: nat)
    requires k <= j < |hs| && LastWriter(hs, j, id)
    ensures LastPut(PutsOf(AllWritten(hs[k..])), id).Some?
    ensures LastPut(PutsOf(AllWritten(hs[k..])), id).value.value in hs[j].written
  {
    hide LastPut, PutsOf, AllWritten, Writes;
    var rest := hs[k..];
    forall l | j - k < l < |rest| ensures !Writes(rest[l].written, id) {
      assert rest[l] == hs[k + l];
    }
    assert rest[j - k] == hs[j];
    LastWriterWins(rest, id, j - k);
  }

  // ----- Opposed messages -----

  /** From an empty cache, the key is cached as enabled and the message's keys are not all cached. */
  ghost predicate LeftEnabled(s: Services, h: Handling, log: Log, id: string) {
    var cache: Cache := Applied(map[], log);
    id in cache && !cache[id].environmentDisabled && !KeysCached(s, h, cache)
  }

  /** All other puts of the log were made by the others before, of keys that the services answered. */
  ghost predicate ForeignPuts(s: Services, others: Others<EnvApiKey>, log: Log, now: nat) {
    FromOthers(log, others, now) && OthersAnswered(s, log)
  }

  /** An acked event that had to disable all keys of its environments. */
  predicate AckedDisabling(h: Handling) {
    h.kind == Ack && Rewrites(h.m) && FlagOf(h.m) == Some(true)
  }

  /** A chunk that disables a project and then handles an event of one of its API keys: both are acked, and
      the key ends up cached as enabled. */
  lemma KeyEventUndoesDisabling() returns (s: Services, hs: seq<Handling>, log: Log)
    ensures StableKeys(s) && Handled(s, hs, [], log) && |hs| == 2 && hs[0].m.id != hs[1].m.id
    ensures forall p :: p in log ==> p.own
    ensures AckedDisabling(hs[0])
    ensures hs[1].kind == Ack && hs[1].m.data.ApiKeyEvent?
    ensures LeftEnabled(s, hs[0], log, "k")
  {
    hide Outcome, StableKeys, KeysCached, Applied, Handled, Wrote, ExampleServices;
    var h0, h1 := DisableProject(1), HandleKey();
    var off, on := Put(true, "k", ExampleEntry(true)), Put(true, "k", ExampleEntry(false));
    s, hs, log := ExampleServices(), [h0] + [h1], [off] + [on];
    ProjectOutcome(1);
    KeyOutcome();
    NothingHandled(s, []);
    WroteOne([], off);
    assert [] + [h0] == [h0] && [] + [off] == [off];
    HandledMore(s, [], [], [], [off], h0);
    WroteOne([off], on);
    HandledMore(s, [h0], [], [off], log, h1);
    EndsEnabled(log, 1);
  }

  /** The keys of a project that is disabled by one worker while another handles an earlier event of one of
      them: the other's put comes between this worker's put and its ack. The listings agree, the message is
      acked, and the key is cached as enabled. */
  lemma OtherWriterUndoesDisabling() returns (s: Services, others: Others<EnvApiKey>, hs: seq<Handling>, log: Log)
    ensures StableKeys(s) && Handled(s, hs, [], log) && |hs| == 1 && hs[0].to == |log|
    ensures ForeignPuts(s, others, log, 4)
    ensures AckedDisabling(hs[0])
    ensures |TimesOf(hs[0])| == |EnvsOf(s, hs[0])| && ListingsAgree(s, EnvsOf(s, hs[0]), TimesOf(hs[0]))
    ensures LeftEnabled(s, hs[0], log, "k")
  {
    hide Outcome, StableKeys, LeftEnabled, Handled, ForeignPuts, ListingsAgree, ExampleServices;
    var off, foreign := Put(true, "k", ExampleEntry(true)), Put(false, "k", ExampleEntry(false));
    s, hs, log := ExampleServices(), [DisableProject(2)], [off] + [foreign];
    others := t => if t == 2 then [foreign] else [];
    ProjectOutcome(2);
    ForeignAnswered(others, off, foreign);
    HandledAmongOthers(off, foreign);
    ExampleListing();
    EndsEnabled(log, 2);
  }

  lemma ExampleListing()
    ensures var s, h := ExampleServices(), DisableProject(2);
            |TimesOf(h)| == |EnvsOf(s, h)| && ListingsAgree(s, EnvsOf(s, h), TimesOf(h))
  {
    var s, h := ExampleServices(), DisableProject(2);
    assert EnvsOf(s, h) == ["e"] && TimesOf(h) == [1] && s.listKeys("e", 1) == Some([EXAMPLE_KEY]);
  }

  lemma {:induction false} HandledAmongOthers(off: Put<EnvApiKey>, foreign: Put<EnvApiKey>)
    requires off == Put(true, "k", ExampleEntry(true)) && foreign == Put(false, "k", ExampleEntry(false))
    ensures Handled(ExampleServices(), [DisableProject(2)], [], [off] + [foreign])
  {
    hide Outcome, StableKeys, Handled, Wrote, ExampleServices;
    var s, h, log := ExampleServices(), DisableProject(2), [off] + [foreign];
    ProjectOutcome(2);
    NothingHandled(s, []);
    WroteOne([], off);
    WroteOne([off], foreign);
    assert [] + [off] == [off] && [h.written[0]] + [] == h.written && [] + [h] == [h];
    WroteMore([], [off], log, h.written, []);
    HandledMore(s, [], [], [], log, h);
  }

  // Services with one project, one environment and one key, that never fail.

  const EXAMPLE_KEY := ApiKey("k", "n", false)

  function ExampleEntry(disabled: bool): EnvApiKey {
    EnvApiKey(EXAMPLE_KEY, "e", disabled)
  }

  function ExampleGet(id: string, env: string, t: nat): Option<ApiKey> {
    if id == "k" && env == "e" then Some(EXAMPLE_KEY) else None
  }

  function ExampleEnvironments(projectId: string, t: nat): Option<seq<string>> {
    Some(["e"])
  }

  function ExampleKeys(env: string, t: nat): Option<seq<ApiKey>> {
    Some(if env == "e" then [EXAMPLE_KEY] else [])
  }

  function ExamplePuts(t: nat): bool {
    true
  }

  function ExampleServices(): Services {
    Services(ExampleGet, ExampleEnvironments, ExampleKeys, ExamplePuts)
  }

  function DisableProject(to: nat): Handling {
    Handling(Message(0, "1", ProjectEvent(Disabled, "p")), Ack, 0, [1], [ExampleEntry(true)], 0, to)
  }

  function HandleKey(): Handling {
    Handling(Message(1, "2", ApiKeyEvent("k", "e")), Ack, 4, [], [ExampleEntry(false)], 1, 2)
  }

  lemma WroteOne(log: Log, p: Put<EnvApiKey>)
    requires p.key == p.value.key.id
    ensures Wrote(log, log + [p], if p.own then [p.value] else [])
  {
    OwnPutsOne(log, p);
  }

  lemma {:induction false} ForeignAnswered(
    others: Others<EnvApiKey>, own: Put<EnvApiKey>, foreign: Put<EnvApiKey>)
    requires own.own && foreign == Put(false, "k", ExampleEntry(false)) && others(2) == [foreign]
    ensures ForeignPuts(ExampleServices(), others, [own] + [foreign], 4)
  {
    ExampleAnswers();
    assert Foreign(others(2))[0] == foreign;
  }

  lemma {:induction false} EndsEnabled(log: Log, to: nat)
    requires LastPut(log, "k").Some? && LastPut(log, "k").value.value == ExampleEntry(false)
    ensures LeftEnabled(ExampleServices(), DisableProject(to), log, "k")
  {
    hide LastPut, Applied;
    var s, h, cache: Cache := ExampleServices(), DisableProject(to), Applied(map[], log);
    AppliedExactly(map[], log, "k");
    assert EnvsOf(s, h) == ["e"] && TimesOf(h) == [1] && FlagOf(h.m) == Some(true);
    assert s.listKeys("e", 1) == Some([EXAMPLE_KEY]) && EXAMPLE_KEY in [EXAMPLE_KEY];
    assert !Caches(cache, ExampleEntry(true));
    assert !EnvironmentCached(s, cache, EnvsOf(s, h)[0], TimesOf(h)[0], FlagOf(h.m).value);
  }

  lemma {:induction false} ProjectOutcome(to: nat)
    ensures StableKeys(ExampleServices()) && Outcome(ExampleServices(), DisableProject(to))
  {
    hide NeverFails, ProjectEntries, FromAnswers, Answered, StableKeys;
    var s := ExampleServices();
    ExampleAnswers();
    ProjectAnswers(to);
    assert s.listEnvironments("p", 0) == Some(["e"]);
    ProjectWritten();
  }

  lemma {:induction false} ProjectAnswers(to: nat)
    ensures FromAnswers(ExampleServices(), DisableProject(to).m, [ExampleEntry(true)])
  {
    hide Answered;
    var s := ExampleServices();
    ExampleAnswers();
    assert s.listEnvironments("p", 0) == Some(["e"]);
    assert MayTouch(s, DisableProject(to).m, "e");
  }

  lemma ProjectWritten()
    ensures ProjectEntries(ExampleServices(), ["e"], [1], true, [ExampleEntry(true)])
  {
    assert Entries([EXAMPLE_KEY], "e", true) == [ExampleEntry(true)];
    DeletionEntries(ExampleServices(), "e", 1, [ExampleEntry(true)]);
  }

  lemma KeyOutcome()
    ensures Outcome(ExampleServices(), HandleKey())
  {
    hide NeverFails;
    ExampleAnswers();
    hide Answered, StableKeys;
    assert ExampleServices().getKey("k", "e", 4) == Some(EXAMPLE_KEY);
  }

  lemma ExampleAnswers()
    ensures StableKeys(ExampleServices()) && Answered(ExampleServices(), EXAMPLE_KEY, "e")
  {
    var s := ExampleServices();
    assert s.listKeys("e", 1).Some? && EXAMPLE_KEY in s.listKeys("e", 1).value;
    assert forall k, env :: Answered(s, k, env) ==> k == EXAMPLE_KEY && env == "e";
  }
}
