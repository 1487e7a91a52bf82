/** The API key cacher: project and environment events make it rewrite every cached key of the
    affected environments, API key events one key. */
module ApiKeyCacher {
  import opened Batching
  import opened Paging
  import opened PubSub
  import opened SharedCache
  import opened Wrappers

  datatype ApiKey = ApiKey(id: string, name: string, disabled: bool)

  datatype EnvApiKey = EnvApiKey(key: ApiKey, env: string, environmentDisabled: bool)

  datatype ProjectChange = Enabled | Disabled | OtherChange

  datatype Data =
    | Bad
    | ApiKeyEvent(keyId: string, env: string)
    | ProjectEvent(change: ProjectChange, projectId: string)
    | EnvironmentEvent(deleted: bool, decodes: bool, env: string)
    | OtherEvent

  type Msg = Message<Data>

  /** The account and environment services and the cache, as they answer at a moment. */
  datatype Services = Services(
    getKey: (string, string, nat) -> Option<ApiKey>,
    listEnvironments: (string, nat) -> Option<seq<string>>,
    listKeys: (string, nat) -> Option<seq<ApiKey>>,
    puts: nat -> bool)

  type Cache = map<string, EnvApiKey>

  type Log = seq<Put<EnvApiKey>>

  // ----- Puts of entries -----

  /** The puts that write the entries, each under its key id. */
  function PutsOf(es: seq<EnvApiKey>): (r: Log)
    ensures |r| == |es| && forall i :: 0 <= i < |r| ==> r[i] == Put(true, es[i].key.id, es[i])
  {
    seq(|es|, i requires 0 <= i < |es| => Put(true, es[i].key.id, es[i]))
  }

  predicate Writes(es: seq<EnvApiKey>, id: string) {
    exists e :: e in es && e.key.id == id
  }

  predicate Caches(cache: Cache, e: EnvApiKey) {
    e.key.id in cache && cache[e.key.id] == e
  }

  /** No key id occurs with two different entries. */
  predicate OneEntryPerKey(es: seq<EnvApiKey>) {
    forall i, j :: 0 <= i < |es| && 0 <= j < |es| && es[i].key.id == es[j].key.id ==> es[i] == es[j]
  }

  /** Between the two logs the worker put the entries, in order, among whatever the others put. */
  ghost predicate Wrote(log: Log, log': Log, es: seq<EnvApiKey>) {
    log <= log' && OwnPuts(log') == OwnPuts(log) + PutsOf(es)
  }

  lemma WroteNothing(log: Log)
    ensures Wrote(log, log, [])
  {
  }

  lemma WroteMore(log: Log, log': Log, log'': Log, a: seq<EnvApiKey>, b: seq<EnvApiKey>)
    requires Wrote(log, log', a) && Wrote(log', log'', b)
    ensures Wrote(log, log'', a + b)
  {
    hide OwnPuts;
    assert PutsOf(a + b) == PutsOf(a) + PutsOf(b);
  }

  /** An entry that somebody put is cached afterwards exactly when the last put for its key is of that
      entry. */
  lemma EntryStaysExactly(initial: Cache, log: Log, e: EnvApiKey)
    ensures LastPut(log, e.key.id).Some? ==>
              (Caches(Applied(initial, log), e) <==> LastPut(log, e.key.id).value.value == e)
  {
    AppliedExactly(initial, log, e.key.id);
  }

  lemma {:induction false} LastOfPuts(es: seq<EnvApiKey>, id: string)
    ensures LastPut(PutsOf(es), id).Some? <==> Writes(es, id)
    ensures LastPut(PutsOf(es), id).Some? ==> LastPut(PutsOf(es), id).value.value in es
  {
    var puts := PutsOf(es);
    hide PutsOf;
    if LastPut(puts, id).Some? {
      var i :| 0 <= i < |puts| && puts[i] == LastPut(puts, id).value;
      assert es[i] in es;
    }
    if Writes(es, id) {
      var i :| 0 <= i < |es| && es[i].key.id == id;
      assert puts[i] in puts;
    }
  }

  /** Of entries written without another writer in between each is the last put of its key exactly when no
      key id was written with two values. */
  lemma AllLastExactly(es: seq<EnvApiKey>)
    ensures (forall e :: e in es ==> LastPut(PutsOf(es), e.key.id) == Some(Put(true, e.key.id, e))) <==>
            OneEntryPerKey(es)
  {
    forall e | e in es
      ensures LastPut(PutsOf(es), e.key.id).Some? && LastPut(PutsOf(es), e.key.id).value.value in es
      ensures LastPut(PutsOf(es), e.key.id).value ==
              Put(true, e.key.id, LastPut(PutsOf(es), e.key.id).value.value)
    {
      LastOfPuts(es, e.key.id);
      assert LastPut(PutsOf(es), e.key.id).value in PutsOf(es);
    }
    hide LastPut, PutsOf;
    if OneEntryPerKey(es) {
      forall e | e in es ensures LastPut(PutsOf(es), e.key.id) == Some(Put(true, e.key.id, e)) {
        var last := LastPut(PutsOf(es), e.key.id).value.value;
        var i, j :| 0 <= i < |es| && 0 <= j < |es| && es[i] == e && es[j] == last;
      }
    }
    if forall e :: e in es ==> LastPut(PutsOf(es), e.key.id) == Some(Put(true, e.key.id, e)) {
      forall i, j | 0 <= i < |es| && 0 <= j < |es| && es[i].key.id == es[j].key.id ensures es[i] == es[j] {
        assert es[i] in es && es[j] in es;
      }
    }
  }

  /** Every entry so written is cached afterwards exactly when no key id was written with two values. */
  lemma AllCachedExactly(initial: Cache, log: Log, es: seq<EnvApiKey>)
    ensures (forall e :: e in es ==> Caches(Applied(initial, log + PutsOf(es)), e)) <==> OneEntryPerKey(es)
  {
    AllLastExactly(es);
    hide Applied, LastPut, PutsOf, Caches, OneEntryPerKey;
    forall e | e in es
      ensures Caches(Applied(initial, log + PutsOf(es)), e) <==>
              LastPut(PutsOf(es), e.key.id) == Some(Put(true, e.key.id, e))
    {
      LastOfPuts(es, e.key.id);
      OwnLast(es, e.key.id);
      LastPutConcat(log, PutsOf(es), e.key.id);
      EntryStaysExactly(initial, log + PutsOf(es), e);
    }
  }

  lemma OwnLast(es: seq<EnvApiKey>, id: string)
    requires LastPut(PutsOf(es), id).Some?
    ensures LastPut(PutsOf(es), id).value.own && LastPut(PutsOf(es), id).value.key == id
  {
    assert LastPut(PutsOf(es), id).value in PutsOf(es);
  }

  // ----- What an event must write -----

  function Entries(keys: seq<ApiKey>, env: string, disabled: bool): (es: seq<EnvApiKey>)
    ensures |es| == |keys| && forall i :: 0 <= i < |es| ==> es[i] == EnvApiKey(keys[i], env, disabled)
  {
    seq(|keys|, i requires 0 <= i < |keys| => EnvApiKey(keys[i], env, disabled))
  }

  /** Every key listed in `env` at moment `t` is cached with that namespace and flag. */
  ghost predicate EnvironmentCached(s: Services, cache: Cache, env: string, t: nat, disabled: bool) {
    s.listKeys(env, t).Some? && forall key :: key in s.listKeys(env, t).value ==>
        Caches(cache, EnvApiKey(key, env, disabled))
  }

  /** `es` are the entries of the environments, each listed at its own moment. */
  predicate ProjectEntries(s: Services, envs: seq<string>, times: seq<nat>, disabled: bool, es: seq<EnvApiKey>)
    decreases |envs|
  {
    && |times| == |envs|
    && if envs == [] then es == []
       else var n := |envs| - 1;
         && s.listKeys(envs[n], times[n]).Some?
         && var last := Entries(s.listKeys(envs[n], times[n]).value, envs[n], disabled);
            |last| <= |es| && es[|es| - |last|..] == last
            && ProjectEntries(s, envs[..n], times[..n], disabled, es[..|es| - |last|])
  }

  lemma ProjectEntriesSnoc(
    s: Services, envs: seq<string>, times: seq<nat>, disabled: bool, es: seq<EnvApiKey>, env: string, t: nat)
    requires ProjectEntries(s, envs, times, disabled, es) && s.listKeys(env, t).Some?
    ensures ProjectEntries(s, envs + [env], times + [t], disabled,
            es + Entries(s.listKeys(env, t).value, env, disabled))
  {
  }

  // ----- Handling messages -----

  /** From the moment on, every call to the services and every write succeeds. */
  ghost predicate NeverFails(s: Services, from: nat) {
    && (forall t :: from <= t ==> s.puts(t))
    && (forall id, env, t :: from <= t ==> s.getKey(id, env, t).Some?)
    && (forall id, t :: from <= t ==> s.listEnvironments(id, t).Some?)
    && (forall env, t :: from <= t ==> s.listKeys(env, t).Some?)
  }

  /** The flag that the entries written for a message carry, if it makes the cacher write any. */
  function FlagOf(m: Msg): Option<bool> {
    match m.data
    case ApiKeyEvent(id, _) => if id == "" then None else Some(false)
    case ProjectEvent(change, id) => if change == OtherChange || id == "" then None else Some(change == Disabled)
    case EnvironmentEvent(deleted, decodes, _) => if deleted && decodes then Some(true) else None
    case _ => None
  }

  /** Whether handling the message may write keys of the environment. */
  ghost predicate MayTouch(s: Services, m: Msg, env: string) {
    match m.data
    case ApiKeyEvent(_, e) => e == env
    case ProjectEvent(_, id) => exists t :: s.listEnvironments(id, t).Some? && env in s.listEnvironments(id, t).value
    case EnvironmentEvent(_, _, e) => e == env
    case _ => false
  }

  /** The services answered with this key of this environment at some moment. */
  ghost predicate Answered(s: Services, key: ApiKey, env: string) {
    || (exists t :: s.listKeys(env, t).Some? && key in s.listKeys(env, t).value)
    || (exists id, t :: s.getKey(id, env, t) == Some(key))
  }

  /** Nothing but answered keys is written, with the message's flag and for its environments. */
  ghost predicate FromAnswers(s: Services, m: Msg, es: seq<EnvApiKey>) {
    forall e :: e in es ==>
      Answered(s, e.key, e.env) && MayTouch(s, m, e.env) && FlagOf(m) == Some(e.environmentDisabled)
  }

  /** How one message was handled: when it was begun, at what moments the environments of its project
      were listed, the entries written for it, in order, and which part of the cache's log this took. */
  datatype Handling = Handling(
    m: Msg, kind: Kind, start: nat, times: seq<nat>, written: seq<EnvApiKey>, from: nat, to: nat)

  /** What settling a message says about the entries written for it. */
  ghost predicate Outcome(s: Services, h: Handling) {
    && (forall t :: t in h.times ==> h.start <= t)
    && (h.kind == Nack ==> !NeverFails(s, h.start))
    && FromAnswers(s, h.m, h.written)
    && match h.m.data
       case ApiKeyEvent(id, env) =>
         if id == "" then h.kind == Ack && h.written == []
         else if h.kind == Nack then h.written == []
         else s.getKey(id, env, h.start).Some? &&
              h.written == [EnvApiKey(s.getKey(id, env, h.start).value, env, false)]
       case ProjectEvent(change, id) =>
         if change == OtherChange || id == "" then h.kind == Ack && h.written == []
         else h.kind == Nack ||
              (&& s.listEnvironments(id, h.start).Some?
               && ProjectEntries(s, s.listEnvironments(id, h.start).value, h.times, change == Disabled, h.written))
       case EnvironmentEvent(deleted, decodes, env) =>
         if !deleted || !decodes then h.kind == Ack && h.written == []
         else h.kind == Nack ||
              (s.listKeys(env, h.start).Some? && h.written == Entries(s.listKeys(env, h.start).value, env, true))
       case _ => h.kind == Ack && h.written == []
  }

  /** The handling took the log from one state to the next. */
  ghost predicate HandledTo(s: Services, h: Handling, log: Log, log': Log) {
    Outcome(s, h) && h.from == |log| && h.to == |log'| && Wrote(log, log', h.written)
  }

  lemma NothingListed(s: Services, disabled: bool)
    ensures ProjectEntries(s, [], [], disabled, [])
  {
  }

  /** One worker. The services, and what everybody else puts into the cache, are functions of its clock;
      the clock advances at every call. */
  class Cacher {
    const flushSize: nat
    const s: Services
    const others: Others<EnvApiKey>
    ghost const initial: Cache
    var settlements: seq<Settlement<Data>>
    var cache: Cache
    ghost var log: Log
    var now: nat
    var receivedCounter: nat
    var handledCounter: nat

    ghost predicate Valid()
      reads this
    {
      cache == Applied(initial, log) && FromOthers(log, others, now)
    }

    constructor (flushSize: nat, services: Services, others: Others<EnvApiKey>, cache: Cache)
      ensures this.flushSize == flushSize && this.cache == cache && initial == cache
      ensures s == services && this.others == others
      ensures Valid() && settlements == [] && log == [] && now == 0 && receivedCounter == 0 && handledCounter == 0
    {
      this.flushSize, this.s, this.others := flushSize, services, others;
      this.cache, initial, log := cache, cache, [];
      settlements, now, receivedCounter, handledCounter := [], 0, 0, 0;
    }

    /** A call takes time: the others' puts of the moment reach the cache. */
    method Elapse()
      requires Valid()
      modifies this`cache, this`now, this`log
      ensures Valid() && now == old(now) + 1 && Wrote(old(log), log, [])
    {
      hide OwnPuts, Applied, FromOthers;
      OthersPut(initial, log, others, now);
      log := log + Foreign(others(now));
      cache := Applied(cache, Foreign(others(now)));
      now := now + 1;
    }

    method Upsert(e: EnvApiKey) returns (ok: bool)
      requires Valid()
      modifies this`cache, this`now, this`log
      ensures Valid() && now == old(now) + 1 && ok == s.puts(old(now))
      ensures Wrote(old(log), log, if ok then [e] else [])
    {
      hide OwnPuts, Applied, FromOthers;
      ok := s.puts(now);
      if ok {
        ghost var p := Put(true, e.key.id, e);
        OwnPut(initial, log, others, now, p);
        cache := cache[e.key.id := e];
        log := log + [p];
      }
      Elapse();
    }

    method Refresh(id: string, env: string, disabled: bool) returns (ok: bool, ghost written: seq<EnvApiKey>)
      requires Valid()
      modifies this`cache, this`now, this`log
      ensures Valid() && now > old(now) && Wrote(old(log), log, written)
      ensures ok ==> s.getKey(id, env, old(now)).Some? &&
                     written == [EnvApiKey(s.getKey(id, env, old(now)).value, env, disabled)]
      ensures !ok ==> written == [] && !NeverFails(s, old(now))
    {
      hide OwnPuts, Applied, FromOthers;
      written := [];
      var key := s.getKey(id, env, now);
      Elapse();
      if key.None? {
        return false, [];
      }
      ok := Upsert(EnvApiKey(key.value, env, disabled));
      if ok {
        written := [EnvApiKey(key.value, env, disabled)];
      }
    }

    method RefreshAll(env: string, disabled: bool) returns (ok: bool, ghost written: seq<EnvApiKey>)
      requires Valid()
      modifies this`cache, this`now, this`log
      ensures Valid() && now > old(now) && Wrote(old(log), log, written)
      ensures forall e :: e in written ==> e.env == env && e.environmentDisabled == disabled && Answered(s, e.key, env)
      ensures ok ==> s.listKeys(env, old(now)).Some?
      ensures ok ==> written == Entries(s.listKeys(env, old(now)).value, env, disabled)
      ensures !ok ==> !NeverFails(s, old(now))
    {
      hide OwnPuts, Applied, FromOthers, Wrote;
      written := [];
      var listed := s.listKeys(env, now);
      Elapse();
      if listed.None? {
        return false, [];
      }
      var keys := Gather(listed.value);
      for i := 0 to |keys|
        invariant Valid() && now > old(now) && written == Entries(keys[..i], env, disabled)
        invariant Wrote(old(log), log, written)
        invariant forall k :: 0 <= k < i ==> Answered(s, keys[k], env)
      {
        var e := EnvApiKey(keys[i], env, disabled);
        ghost var before := log;
        var put := Upsert(e);
        assert keys[i] in listed.value;
        WroteMore(old(log), before, log, written, if put then [e] else []);
        if !put {
          assert written + [] == written;
          return false, written;
        }
        written := written + [e];
        assert written == Entries(keys[..i + 1], env, disabled);
      }
      assert keys[..|keys|] == keys;
      return true, written;
    }

    method Settle(m: Msg, kind: Kind)
      requires Valid()
      modifies this`settlements, this`handledCounter, this`cache, this`now, this`log
      ensures settlements == old(settlements) + [Settlement(m, kind)] && handledCounter == old(handledCounter) + 1
      ensures Valid() && now > old(now) && Wrote(old(log), log, [])
    {
      hide OwnPuts, Applied, FromOthers, Wrote;
      settlements, handledCounter := settlements + [Settlement(m, kind)], handledCounter + 1;
      Elapse();
    }

    method HandleProjectEvent(m: Msg)
      returns (ghost kind: Kind, ghost times: seq<nat>, ghost written: seq<EnvApiKey>)
      requires Valid() && m.data.ProjectEvent?
      modifies this
      ensures settlements == old(settlements) + [Settlement(m, kind)]
      ensures handledCounter == old(handledCounter) + 1 && receivedCounter == old(receivedCounter)
      ensures Valid() && now > old(now)
      ensures HandledTo(s, Handling(m, kind, old(now), times, written, |old(log)|, |log|), old(log), log)
    {
      hide ProjectEntries, OwnPuts, Applied, FromOthers, Wrote;
      NothingListed(s, m.data.change == Disabled);
      WroteNothing(log);
      kind, times, written := Ack, [], [];
      if !(m.data.change == Enabled || m.data.change == Disabled) {
        Settle(m, Ack);
        return;
      }
      var disabled := m.data.change == Disabled;
      if m.data.projectId == "" {
        Settle(m, Ack);
        return;
      }
      var listed := s.listEnvironments(m.data.projectId, now);
      Elapse();
      if listed.None? {
        kind := Nack;
        SettleWritten(m, Nack, old(log), []);
        return;
      }
      var envs := Gather(listed.value);
      for i := 0 to |envs|
        invariant Valid() && now > old(now) && settlements == old(settlements) && handledCounter == old(handledCounter)
        invariant receivedCounter == old(receivedCounter)
        invariant Wrote(old(log), log, written) && ProjectEntries(s, envs[..i], times, disabled, written)
        invariant forall t :: t in times ==> old(now) <= t
        invariant FromAnswers(s, m, written)
      {
        ghost var t, before := now, log;
        var ok;
        ghost var more;
        ok, more := RefreshAll(envs[i], disabled);
        WroteMore(old(log), before, log, written, more);
        assert MayTouch(s, m, envs[i]);
        if !ok {
          written, kind := written + more, Nack;
          SettleWritten(m, Nack, old(log), written);
          return;
        }
        ProjectEntriesSnoc(s, envs[..i], times, disabled, written, envs[i], t);
        assert envs[..i + 1] == envs[..i] + [envs[i]];
        times, written := times + [t], written + more;
      }
      assert envs[..|envs|] == envs;
      SettleWritten(m, Ack, old(log), written);
    }

    /** Settles after the entries were written. */
    method SettleWritten(m: Msg, kind: Kind, ghost log0: Log, ghost written: seq<EnvApiKey>)
      requires Valid() && Wrote(log0, log, written)
      modifies this`settlements, this`handledCounter, this`cache, this`now, this`log
      ensures settlements == old(settlements) + [Settlement(m, kind)] && handledCounter == old(handledCounter) + 1
      ensures Valid() && now > old(now) && Wrote(log0, log, written)
    {
      hide OwnPuts, Applied, FromOthers, Wrote;
      Settle(m, kind);
      WroteMore(log0, old(log), log, written, []);
      assert written + [] == written;
    }

    method HandleEnvironmentEvent(m: Msg) returns (ghost kind: Kind, ghost written: seq<EnvApiKey>)
      requires Valid() && m.data.EnvironmentEvent?
      modifies this
      ensures settlements == old(settlements) + [Settlement(m, kind)]
      ensures handledCounter == old(handledCounter) + 1 && receivedCounter == old(receivedCounter)
      ensures Valid() && now > old(now)
      ensures HandledTo(s, Handling(m, kind, old(now), [], written, |old(log)|, |log|), old(log), log)
    {
      hide OwnPuts, Applied, FromOthers, Wrote;
      kind, written := Ack, [];
      if !m.data.deleted {
        Settle(m, Ack);
        return;
      }
      if !m.data.decodes {
        Settle(m, Ack);
        return;
      }
      var ok;
      ok, written := RefreshAll(m.data.env, true);
      if !ok {
        SettleWritten(m, Nack, old(log), written);
        kind := Nack;
        return;
      }
      SettleWritten(m, Ack, old(log), written);
    }

    method HandleMessage(m: Msg) returns (ghost h: Handling)
      requires Valid()
      modifies this
      ensures settlements == old(settlements) + [Settlement(m, h.kind)]
      ensures handledCounter == old(handledCounter) + 1 && receivedCounter == old(receivedCounter)
      ensures Valid() && now > old(now)
      ensures h.m == m && h.start == old(now) && HandledTo(s, h, old(log), log)
    {
      hide OwnPuts, Applied, FromOthers, Wrote;
      ghost var kind, times, written := Ack, [], [];
      match m.data {
        case ApiKeyEvent(id, env) =>
          if id == "" {
            Settle(m, Ack);
          } else {
            var ok;
            ok, written := Refresh(id, env, false);
            if !ok {
              kind := Nack;
              SettleWritten(m, Nack, old(log), written);
            } else {
              SettleWritten(m, Ack, old(log), written);
            }
          }
        case ProjectEvent(_, _) => kind, times, written := HandleProjectEvent(m);
        case EnvironmentEvent(_, _, _) => kind, written := HandleEnvironmentEvent(m);
        case Bad => Settle(m, Ack);
        case OtherEvent => Settle(m, Ack);
      }
      h := Handling(m, kind, old(now), times, written, |old(log)|, |log|);
    }

    /** For every iteration order of the chunk, and whatever the others put meanwhile: each message is
        settled once and counted once, and `hs` tells what was done for each, in that order. */
    method HandleChunk(chunk: Pending<Data>) returns (ghost hs: seq<Handling>)
      requires Valid() && Keyed(chunk)
      modifies this
      ensures SettledOnce(chunk, old(settlements), settlements) && settlements == old(settlements) + Settlements(hs)
      ensures Handled(s, hs, old(log), log) && forall h :: h in hs ==> old(now) <= h.start
      ensures handledCounter == old(handledCounter) + |chunk| && receivedCounter == old(receivedCounter)
      ensures Valid() && now >= old(now)
    {
      hide SettledOnce, Outcome, HandledTo, Handled, OwnPuts, Applied, FromOthers, Wrote;
      hs := [];
      var todo := chunk.Keys;
      ghost var seen: Pending<Data> := map[];
      NothingSettled(settlements);
      NothingHandled(s, log);
      while todo != {}
        invariant todo <= chunk.Keys && seen == chunk - todo && Keyed(seen)
        invariant SettledOnce(seen, old(settlements), settlements) && settlements == old(settlements) + Settlements(hs)
        invariant Handled(s, hs, old(log), log) && forall h :: h in hs ==> old(now) <= h.start
        invariant handledCounter == old(handledCounter) + |chunk| - |todo| && receivedCounter == old(receivedCounter)
        invariant Valid() && now >= old(now)
      {
        var k :| k in todo;
        ghost var settled, before := settlements, log;
        ghost var h := HandleMessage(chunk[k]);
        SettleStep(seen, old(settlements), settled, chunk[k], h.kind);
        HandledMore(s, hs, old(log), before, log, h);
        hs := hs + [h];
        todo, seen := todo - {k}, seen[k := chunk[k]];
      }
      assert seen == chunk;
    }

    /** The worker's loop: it flushes exactly when a flush is due and settles exactly the messages of the
        batches and those without an id; every delivery is accounted for, received is handled plus held, and
        `hs` tells what was done for each handled message over the whole run, between the puts of everybody
        else. */
    method BatchLoop(signals: seq<Signal<Data>>)
      returns (held: Pending<Data>, consumed: nat, ghost displaced: set<Msg>, ghost hs: seq<Handling>,
               ghost cuts: seq<nat>)
      requires flushSize > 0 && receivedCounter == handledCounter == 0 && settlements == []
      requires Valid() && DistinctDeliveries(signals)
      modifies this
      ensures consumed <= |signals| && (consumed < |signals| ==>
              signals[consumed].Closed? || signals[consumed].Cancelled?)
      ensures consumed > 0 && signals[consumed - 1].Tick? ==> held == map[]
      ensures receivedCounter == |Messages(signals[..consumed])| == handledCounter + |held|
      ensures Accounted(Messages(signals[..consumed]), held, displaced, settlements) && |held| < flushSize
      ensures Batched(signals, cuts, flushSize, consumed, held)
      ensures SettledByBatch(Messages(signals[..consumed]), signals, cuts, settlements)
      ensures Valid() && Handled(s, hs, old(log), log) && HandledAll(hs, settlements)
    {
      hide Accounted, Handled, HandledAll, SettledOnce, Messages, DistinctDeliveries, Holds, Times, Settled, OwnPuts,
           Applied, FromOthers, Batched, SettledByBatch;
      held, consumed, displaced, hs, cuts := map[], 0, {}, [], [];
      NothingDelivered(s, log, signals, flushSize);
      while consumed < |signals|
        invariant consumed <= |signals|
        invariant consumed > 0 && signals[consumed - 1].Tick? ==> held == map[]
        invariant receivedCounter == |Messages(signals[..consumed])| == handledCounter + |held|
        invariant Accounted(Messages(signals[..consumed]), held, displaced, settlements) && |held| < flushSize
        invariant Batched(signals, cuts, flushSize, consumed, held)
        invariant SettledByBatch(Messages(signals[..consumed]), signals, cuts, settlements)
        invariant Valid() && Handled(s, hs, old(log), log) && HandledAll(hs, settlements)
      {
        ghost var received := Messages(signals[..consumed]);
        MessagesNext(signals, consumed);
        match signals[consumed] {
          case Receive(msg) =>
            held, displaced, hs, cuts := Receive(msg, held, signals, consumed, received, displaced, hs, old(log), cuts);
          case Tick =>
            assert received + [] == received;
            if |held| > 0 {
              FlushNow(signals, cuts, flushSize, consumed, held, held);
              held, hs := Flush(held, signals, consumed, received, displaced, hs, old(log), cuts);
              cuts := cuts + [consumed + 1];
            } else {
              KeepHolding(signals, cuts, flushSize, consumed, held, held);
            }
          case Closed => return;
          case Cancelled => return;
        }
        consumed := consumed + 1;
      }
    }

    method Receive(
      msg: Msg, chunk: Pending<Data>, ghost signals: seq<Signal<Data>>, ghost n: nat, ghost received: seq<Msg>,
      ghost displaced: set<Msg>, ghost before: seq<Handling>, ghost log0: Log, ghost cuts: seq<nat>)
      returns (held: Pending<Data>, ghost displaced': set<Msg>, ghost hs: seq<Handling>, ghost cuts': seq<nat>)
      requires flushSize > 0 && |chunk| < flushSize && msg !in received
      requires n < |signals| && signals[n] == Signal.Receive(msg) && Batched(signals, cuts, flushSize, n, chunk)
      requires SettledByBatch(received, signals, cuts, settlements)
      requires Valid() && Accounted(received, chunk, displaced, settlements)
      requires Handled(s, before, log0, log) && HandledAll(before, settlements)
      modifies this
      ensures Valid() && Accounted(received + [msg], held, displaced', settlements) && |held| < flushSize
      ensures Batched(signals, cuts', flushSize, n + 1, held)
      ensures SettledByBatch(received + [msg], signals, cuts', settlements)
      ensures Handled(s, hs, log0, log) && HandledAll(hs, settlements)
      ensures receivedCounter == old(receivedCounter) + 1
      ensures handledCounter + |held| == old(handledCounter) + |chunk| + 1
    {
      hide Accounted, Handled, HandledAll, OwnPuts, Applied, FromOthers, Wrote, Batched, SettledByBatch;
      receivedCounter := receivedCounter + 1;
      held, displaced', hs, cuts' := chunk, displaced, before, cuts;
      if msg.id == "" {
        AccountSettled(received, held, displaced, settlements, msg, Ack);
        AckedWithoutId(hs, settlements, msg);
        SettledWithoutId(received, signals, cuts, settlements, msg, Ack);
        KeepHolding(signals, cuts, flushSize, n, held, held);
        Settle(msg, Ack);
        HandledWhile(s, hs, log0, old(log), log);
        return;
      }
      if msg.id in held {
        handledCounter := handledCounter + 1;
      }
      HoldAccounted(received, held, displaced, settlements, msg);
      HeldNotSettled(received, signals, cuts, settlements, msg);
      displaced' := displaced + Displaced(held, msg);
      held := held[msg.id := msg];
      if |held| >= flushSize {
        FlushNow(signals, cuts, flushSize, n, chunk, held);
        cuts' := cuts + [n + 1];
        held, hs := Flush(held, signals, n, received + [msg], displaced', hs, log0, cuts);
      } else {
        KeepHolding(signals, cuts, flushSize, n, chunk, held);
      }
    }

    /** Handles the chunk and starts a new one. */
    method Flush(
      chunk: Pending<Data>, ghost signals: seq<Signal<Data>>, ghost n: nat, ghost received: seq<Msg>,
      ghost displaced: set<Msg>, ghost before: seq<Handling>, ghost log0: Log, ghost cuts: seq<nat>)
      returns (empty: Pending<Data>, ghost hs: seq<Handling>)
      requires Valid() && Accounted(received, chunk, displaced, settlements)
      requires Handled(s, before, log0, log) && HandledAll(before, settlements)
      requires SettledByBatch(received, signals, cuts, settlements) && n < |signals|
      requires Start(cuts + [n + 1], |cuts|) <= n + 1 && Batch(signals, cuts + [n + 1], |cuts|) == chunk
      modifies this
      ensures Valid() && empty == map[] && Accounted(received, empty, displaced, settlements)
      ensures Handled(s, hs, log0, log) && HandledAll(hs, settlements)
      ensures SettledByBatch(received, signals, cuts + [n + 1], settlements)
      ensures handledCounter == old(handledCounter) + |chunk| && receivedCounter == old(receivedCounter)
    {
      hide HandledAll, SettledOnce, Handled, OwnPuts, Applied, FromOthers, SettledByBatch, Batch, Start;
      HeldKeyed(received, chunk, displaced, settlements);
      ghost var more := HandleChunk(chunk);
      AccountFlushed(received, chunk, displaced, old(settlements), settlements);
      SettledByFlush(received, signals, cuts, n + 1, chunk, old(settlements), settlements);
      hide Accounted;
      HandledConcat(s, before, more, log0, old(log), log);
      HandledAllConcat(before, more, old(settlements));
      return map[], before + more;
    }
  }

  lemma NothingSettled(settlements: seq<Settlement<Data>>)
    ensures SettledOnce(map[], settlements, settlements)
  {
  }

  // ----- What was done for a list of messages -----

  /** The messages were handled one after the other, each with its outcome, and this is all that the
      worker put between the two logs. */
  ghost predicate Handled(s: Services, hs: seq<Handling>, log0: Log, log: Log)
    decreases |hs|
  {
    if hs == [] then Wrote(log0, log, [])
    else
      var h := hs[|hs| - 1];
      && h.from <= h.to <= |log| && Wrote(log[..h.to], log, [])
      && HandledTo(s, h, log[..h.from], log[..h.to])
      && Handled(s, hs[..|hs| - 1], log0, log[..h.from])
  }

  function Settlements(hs: seq<Handling>): seq<Settlement<Data>> {
    seq(|hs|, i requires 0 <= i < |hs| => Settlement(hs[i].m, hs[i].kind))
  }

  lemma NothingHandled(s: Services, log: Log)
    ensures Handled(s, [], log, log) && Settlements([]) == []
  {
    WroteNothing(log);
  }

  lemma HandledMore(s: Services, hs: seq<Handling>, log0: Log, log: Log, log': Log, h: Handling)
    requires Handled(s, hs, log0, log) && HandledTo(s, h, log, log')
    ensures Handled(s, hs + [h], log0, log') && Settlements(hs + [h]) == Settlements(hs) + [Settlement(h.m, h.kind)]
  {
    hide Outcome;
    WroteNothing(log');
    assert (hs + [h])[..|hs|] == hs;
    assert log <= log' && log'[..|log|] == log && log'[..|log'|] == log';
  }

  /** Nothing more is put by the worker while only the others write. */
  lemma HandledWhile(s: Services, hs: seq<Handling>, log0: Log, log: Log, log': Log)
    requires Handled(s, hs, log0, log) && Wrote(log, log', [])
    ensures Handled(s, hs, log0, log')
  {
    hide HandledTo;
    if hs == [] {
      WroteMore(log0, log, log', [], []);
    } else {
      var h := hs[|hs| - 1];
      WroteMore(log[..h.to], log, log', [], []);
      assert log'[..h.to] == log[..h.to] && log'[..h.from] == log[..h.from];
    }
  }

  lemma {:induction false} HandledConcat(
    s: Services, a: seq<Handling>, b: seq<Handling>, log0: Log, log1: Log, log2: Log)
    requires Handled(s, a, log0, log1) && Handled(s, b, log1, log2)
    ensures Handled(s, a + b, log0, log2)
    decreases |b|
  {
    hide HandledTo, Wrote;
    if b == [] {
      HandledWhile(s, a, log0, log1, log2);
      assert a + b == a;
    } else {
      HandledConcat(s, a, b[..|b| - 1], log0, log1, log2[..b[|b| - 1].from]);
      assert (a + b)[..|a + b| - 1] == a + b[..|b| - 1];
    }
  }

  /** Every settled message that had an id was handled, and settled the way its handling ended. */
  ghost predicate HandledAll(hs: seq<Handling>, settlements: seq<Settlement<Data>>) {
    forall m :: Settled(settlements, m) && m.id != "" ==>
      exists h :: h in hs && h.m == m && Times(settlements, m, h.kind) > 0
  }

  lemma NothingDelivered(s: Services, log: Log, signals: seq<Signal<Data>>, flushSize: nat)
    ensures Batched(signals, [], flushSize, 0, map[]) && SettledByBatch(Messages<Data>([]), signals, [], [])
    ensures Accounted<Data>(Messages<Data>([]), map[], {}, []) && Messages<Data>([]) == []
    ensures Handled(s, [], log, log) && HandledAll([], [])
  {
    NothingHandled(s, log);
    NothingBatched(signals, flushSize);
    NothingSettledYet(signals);
    hide Batched, SettledByBatch;
  }

  lemma HeldKeyed(received: seq<Msg>, held: Pending<Data>, displaced: set<Msg>, settlements: seq<Settlement<Data>>)
    requires Accounted(received, held, displaced, settlements)
    ensures Keyed(held)
  {
  }

  lemma AckedWithoutId(hs: seq<Handling>, settlements: seq<Settlement<Data>>, m: Msg)
    requires HandledAll(hs, settlements) && m.id == ""
    ensures HandledAll(hs, settlements + [Settlement(m, Ack)])
  {
  }

  lemma HandledAllConcat(hs: seq<Handling>, more: seq<Handling>, settlements: seq<Settlement<Data>>)
    requires HandledAll(hs, settlements)
    ensures HandledAll(hs + more, settlements + Settlements(more))
  {
  }

  function AllWritten(hs: seq<Handling>): seq<EnvApiKey> {
    if hs == [] then [] else AllWritten(hs[..|hs| - 1]) + hs[|hs| - 1].written
  }

  /** The worker put exactly what the handlings wrote, in order. */
  lemma {:induction false} WroteAll(s: Services, hs: seq<Handling>, log0: Log, log: Log)
    requires Handled(s, hs, log0, log)
    ensures Wrote(log0, log, AllWritten(hs))
    decreases |hs|
  {
    hide Wrote, Outcome;
    if hs != [] {
      var h := hs[|hs| - 1];
      WroteAll(s, hs[..|hs| - 1], log0, log[..h.from]);
      WroteMore(log0, log[..h.from], log[..h.to], AllWritten(hs[..|hs| - 1]), h.written);
      WroteMore(log0, log[..h.to], log, AllWritten(hs), []);
      assert AllWritten(hs) + [] == AllWritten(hs);
    }
  }

  lemma AllWrittenSnoc(hs: seq<Handling>, k: nat)
    requires k < |hs|
    ensures AllWritten(hs[k..]) == AllWritten(hs[..|hs| - 1][k..]) + hs[|hs| - 1].written
  {
    var rest := hs[k..];
    assert rest[..|rest| - 1] == hs[..|hs| - 1][k..];
  }

  /** The k-th handling, and what the worker put after it. */
  lemma {:induction false} HandledAt(s: Services, hs: seq<Handling>, log0: Log, log: Log, k: nat)
    requires Handled(s, hs, log0, log) && k < |hs|
    ensures log0 <= log && |log0| <= hs[k].from <= hs[k].to <= |log|
    ensures HandledTo(s, hs[k], log[..hs[k].from], log[..hs[k].to])
    ensures Wrote(log[..hs[k].from], log, AllWritten(hs[k..]))
    decreases |hs|
  {
    hide Outcome, OwnPuts, AllWritten;
    WroteAll(s, hs, log0, log);
    var n := |hs| - 1;
    var h, earlier := hs[n], AllWritten(hs[..n][k..]);
    WroteAll(s, hs[..n], log0, log[..h.from]);
    var from, to := hs[k].from, hs[k].to;
    if k < n {
      HandledAt(s, hs[..n], log0, log[..h.from], k);
      assert log[..h.from][..from] == log[..from] && log[..h.from][..to] == log[..to];
    } else {
      assert hs[..n][k..] == [];
      NothingWritten(log[..from]);
    }
    hide Wrote, Handled;
    WroteMore(log[..from], log[..h.from], log[..h.to], earlier, h.written);
    WroteMore(log[..from], log[..h.to], log, earlier + h.written, []);
    AllWrittenSnoc(hs, k);
    assert (earlier + h.written) + [] == earlier + h.written;
  }

  lemma NothingWritten(log: Log)
    ensures Wrote(log, log, AllWritten([]))
  {
    WroteNothing(log);
  }

  /** Keys that nobody puts keep what they had; a key that no handling writes is changed by others only. */
  lemma RunChangesOnlyWritten(s: Services, hs: seq<Handling>, initial: Cache, log: Log, id: string)
    requires Handled(s, hs, [], log) && !Writes(AllWritten(hs), id)
    ensures match LastPut(log, id)
            case Some(p) => !p.own && id in Applied(initial, log) && Applied(initial, log)[id] == p.value
            case None =>
              && (id in Applied(initial, log) <==> id in initial)
              && (id in initial ==> Applied(initial, log)[id] == initial[id])
  {
    AppliedExactly(initial, log, id);
    WroteAll(s, hs, [], log);
  }
}
