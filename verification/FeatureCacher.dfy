/** The feature cacher: each feature event makes a worker rewrite the cached feature list of the event's
    environment; events of a feature already handled in the same chunk are acked without a rewrite.
    Several workers, and the gateway on a miss, write the same cache. */
module FeatureCacher {
  import opened Batching
  import opened Paging
  import opened PubSub
  import opened Separators
  import opened SharedCache
  import opened Wrappers

  datatype Feature = Feature(id: string, enabled: bool, offVariation: string)

  datatype Data = Bad | Event(isFeature: bool, entityId: string, env: string)

  type Msg = Message<Data>

  type Chunk = Pending<Data>

  /** A cached list, with the moment its listing was read. */
  datatype Entry = Entry(readAt: nat, features: seq<Feature>)

  /** The unarchived features of an environment at a moment, unless the feature service fails. */
  type Listings = (string, nat) -> Option<seq<Feature>>

  // ----- Listing page by page -----

  predicate Keeps(f: Feature) {
    f.enabled || f.offVariation != ""
  }

  function Kept(fs: seq<Feature>): seq<Feature> {
    if fs == [] then [] else (if Keeps(fs[0]) then [fs[0]] else []) + Kept(fs[1..])
  }

  lemma KeptHead(fs: seq<Feature>)
    requires fs != []
    ensures Kept(fs) == Kept([fs[0]]) + Kept(fs[1..])
  {
    KeptOne(fs[0]);
  }

  lemma {:induction false} KeptConcat(a: seq<Feature>, b: seq<Feature>)
    ensures Kept(a + b) == Kept(a) + Kept(b)
  {
    if a == [] {
      assert a + b == b;
    } else {
      hide Kept;
      KeptConcat(a[1..], b);
      KeptHead(a);
      KeptHead(a + b);
      assert (a + b)[1..] == a[1..] + b && (a + b)[0] == a[0];
    }
  }

  /** One feature: it is worth caching when it is enabled or has an off variation. */
  lemma KeptOne(f: Feature)
    ensures Kept([f]) == if f.enabled || f.offVariation != "" then [f] else []
  {
    assert [f][1..] == [];
  }

  /** Gathers exactly the features worth caching, also when the last page is full. */
  method ListFeatures(rows: seq<Feature>) returns (features: seq<Feature>)
    ensures features == Kept(rows)
  {
    features := [];
    var cursor := 0;
    while true
      invariant cursor <= |rows| && features == Kept(rows[..cursor])
      decreases |rows| - cursor
    {
      var page := Page(rows, cursor, LIST_REQUEST_SIZE);
      ghost var before := features;
      for i := 0 to |page|
        invariant features == before + Kept(page[..i])
      {
        assert page[..i + 1] == page[..i] + [page[i]];
        KeptConcat(page[..i], [page[i]]);
        if !page[i].enabled && page[i].offVariation == "" {
          continue;
        }
        features := features + [page[i]];
      }
      assert page[..|page|] == page;
      assert rows[..cursor] + page == rows[..cursor + |page|];
      KeptConcat(rows[..cursor], page);
      if |page| == 0 || |page| < LIST_REQUEST_SIZE {
        assert cursor + |page| == |rows| && rows[..|rows|] == rows;
        return;
      }
      cursor := cursor + |page|;
    }
  }

  // ----- The key of a handled feature -----

  function HandledFeatureKey(featureId: string, env: string): string {
    if env == "" then featureId else env + ":" + featureId
  }

  predicate ColonFree(s: string) {
    Free(s, ':')
  }

  /** Keys of colon-free feature ids tell environment and feature apart, whatever the environment. */
  lemma KeyInjective(f: string, env: string, f': string, env': string)
    requires ColonFree(f) && ColonFree(f') && HandledFeatureKey(f, env) == HandledFeatureKey(f', env')
    ensures f == f' && env == env'
  {
    HasSeparator(env, ':', f);
    HasSeparator(env', ':', f');
    if env != "" && env' != "" {
      SplitAtLast(env, f, env', f', ':');
    }
  }

  /** With a colon in a feature id the default environment would share keys with another one; the check of
      feature ids at their creation rules such ids out. */
  lemma KeysCollideWithColons() returns (f: string, env: string, f': string, env': string)
    ensures HandledFeatureKey(f, env) == HandledFeatureKey(f', env') && env != env'
  {
    f, env, f', env' := "e:f", "", "f", "e";
    assert env' + ":" + f' == "e:f";
  }

  // ----- Handling a chunk -----

  /** An event that must make the worker rewrite its environment. */
  predicate IsTarget(m: Msg) {
    m.data.Event? && m.data.isFeature && m.data.entityId != ""
  }

  predicate ValidIds(chunk: Chunk) {
    forall k :: k in chunk && IsTarget(chunk[k]) ==> ColonFree(chunk[k].data.entityId)
  }

  /** The entry is what the service listed for the environment at the moment it names. */
  predicate Honest(listings: Listings, env: string, entry: Entry) {
    listings(env, entry.readAt).Some? && entry.features == Kept(listings(env, entry.readAt).value)
  }

  /** And that moment is no earlier than `start`. */
  predicate FreshEntry(listings: Listings, env: string, entry: Entry, start: nat) {
    start <= entry.readAt && Honest(listings, env, entry)
  }

  predicate Fresh(listings: Listings, cache: map<string, Entry>, env: string, start: nat) {
    env in cache && FreshEntry(listings, env, cache[env], start)
  }

  /** One of the worker's own puts rewrote the environment from a listing read no earlier than `start`. */
  ghost predicate Rewritten(listings: Listings, own: seq<Put<Entry>>, env: string, start: nat) {
    exists p :: p in own && p.key == env && FreshEntry(listings, env, p.value, start)
  }

  ghost predicate HandledKey(listings: Listings, own: seq<Put<Entry>>, key: string, start: nat) {
    exists f, env :: key == HandledFeatureKey(f, env) && ColonFree(f) && Rewritten(listings, own, env, start)
  }

  /** The listing at a moment or the put right after it fails. */
  predicate FailsAt(listings: Listings, puts: nat -> bool, env: string, t: nat) {
    listings(env, t).None? || !puts(t + 1)
  }

  /** Only a target whose listing or write failed in the meantime is nacked. */
  ghost predicate NackedFailed(
    listings: Listings, puts: nat -> bool, start: nat, end: nat, log0: seq<Settlement<Data>>,
    log: seq<Settlement<Data>>)
  {
    forall m :: Newly(log0, log, m, Nack) ==> IsTarget(m) && FailedBetween(listings, puts, m.data.env, start, end)
  }

  ghost predicate FailedBetween(listings: Listings, puts: nat -> bool, env: string, start: nat, end: nat) {
    exists t :: start <= t < end && FailsAt(listings, puts, env, t)
  }

  /** Every acked target, whether it caused the rewrite or was skipped, has its environment rewritten. */
  ghost predicate AckedAreRewritten(
    listings: Listings, seen: Chunk, start: nat, own: seq<Put<Entry>>,
    log0: seq<Settlement<Data>>, log: seq<Settlement<Data>>)
  {
    forall m :: Holds(seen, m) && IsTarget(m) && Newly(log0, log, m, Ack) ==>
      Rewritten(listings, own, m.data.env, start)
  }

  ghost predicate TargetEnv(seen: Chunk, env: string) {
    exists k :: k in seen && IsTarget(seen[k]) && seen[k].data.env == env
  }

  /** The worker's puts since `own0` are for environments with a target event and freshly read. */
  ghost predicate OnlyTargets(
    listings: Listings, seen: Chunk, start: nat, own0: seq<Put<Entry>>, own: seq<Put<Entry>>)
  {
    && own0 <= own
    && forall i :: |own0| <= i < |own| ==>
         TargetEnv(seen, own[i].key) && FreshEntry(listings, own[i].key, own[i].value, start)
  }

  ghost predicate HandledKeys(listings: Listings, handled: set<string>, own: seq<Put<Entry>>, start: nat) {
    forall key :: key in handled ==> HandledKey(listings, own, key, start)
  }

  lemma TargetEnvGrows(seen: Chunk, m: Msg, env: string)
    requires m.id !in seen
    ensures TargetEnv(seen[m.id := m], env) <==> TargetEnv(seen, env) || (IsTarget(m) && m.data.env == env)
  {
    var seen' := seen[m.id := m];
    if TargetEnv(seen, env) {
      var k :| k in seen && IsTarget(seen[k]) && seen[k].data.env == env;
      assert k in seen' && seen'[k] == seen[k];
    }
    if IsTarget(m) && m.data.env == env {
      assert m.id in seen' && seen'[m.id] == m;
    }
  }

  /** Further puts undo no rewrite. */
  lemma RewrittenMore(listings: Listings, own: seq<Put<Entry>>, more: seq<Put<Entry>>)
    ensures forall env, start :: Rewritten(listings, own, env, start) ==> Rewritten(listings, own + more, env, start)
    ensures forall handled, start :: HandledKeys(listings, handled, own, start) ==>
              HandledKeys(listings, handled, own + more, start)
  {
    forall env, start | Rewritten(listings, own, env, start) ensures Rewritten(listings, own + more, env, start) {
      var p :| p in own && p.key == env && FreshEntry(listings, env, p.value, start);
      assert p in own + more;
    }
    hide Rewritten;
    forall handled, start | HandledKeys(listings, handled, own, start)
      ensures HandledKeys(listings, handled, own + more, start)
    {
      forall key | key in handled ensures HandledKey(listings, own + more, key, start) {
        assert HandledKey(listings, own, key, start);
        var f, env :| key == HandledFeatureKey(f, env) && ColonFree(f) && Rewritten(listings, own, env, start);
        assert Rewritten(listings, own + more, env, start);
      }
    }
  }

  /** An event skipped because its key was handled belongs to the environment that was rewritten. */
  lemma SkippedIsRewritten(
    listings: Listings, handled: set<string>, own: seq<Put<Entry>>, start: nat, f: string, env: string)
    requires HandledKeys(listings, handled, own, start) && ColonFree(f) && HandledFeatureKey(f, env) in handled
    ensures Rewritten(listings, own, env, start)
  {
    assert HandledKey(listings, own, HandledFeatureKey(f, env), start);
    var f', env' :| HandledFeatureKey(f, env) == HandledFeatureKey(f', env') && ColonFree(f')
                    && Rewritten(listings, own, env', start);
    KeyInjective(f, env, f', env');
  }

  /** The worker's own puts are honest, and later ones were read later. */
  ghost predicate OwnInOrder(listings: Listings, own: seq<Put<Entry>>, now: nat) {
    && (forall i :: 0 <= i < |own| ==>
        own[i].own && Honest(listings, own[i].key, own[i].value) && own[i].value.readAt < now)
    && forall i, j :: 0 <= i < j < |own| ==> own[i].value.readAt < own[j].value.readAt
  }

  /** One worker. The services, and what everybody else puts into the cache, are functions of its clock;
      the clock advances at every call. */
  class Cacher {
    const flushSize: nat
    const listings: Listings
    const puts: nat -> bool
    const others: Others<Entry>
    ghost const initial: map<string, Entry>
    var settlements: seq<Settlement<Data>>
    var cache: map<string, Entry>
    ghost var log: seq<Put<Entry>>
    var now: nat
    var receivedCounter: nat
    var handledCounter: nat

    ghost predicate Valid()
      reads this
    {
      && cache == Applied(initial, log)
      && OwnInOrder(listings, OwnPuts(log), now) && FromOthers(log, others, now)
    }

    constructor (
      flushSize: nat, listings: Listings, puts: nat -> bool, others: Others<Entry>, cache: map<string, Entry>)
      ensures this.flushSize == flushSize && this.cache == cache && initial == cache
      ensures this.listings == listings && this.puts == puts && this.others == others
      ensures Valid() && settlements == [] && log == [] && now == 0 && receivedCounter == 0 && handledCounter == 0
    {
      this.flushSize, this.listings, this.puts, this.others := flushSize, listings, puts, others;
      this.cache, initial, log := cache, cache, [];
      settlements, now, receivedCounter, handledCounter := [], 0, 0, 0;
    }

    /** A call takes time: the others' puts of the moment reach the cache. */
    method Elapse()
      requires Valid()
      modifies this`cache, this`now, this`log
      ensures Valid() && now == old(now) + 1 && log == old(log) + Foreign(others(old(now)))
      ensures OwnPuts(log) == OwnPuts(old(log))
    {
      hide OwnPuts, Applied, FromOthers;
      OthersPut(initial, log, others, now);
      log := log + Foreign(others(now));
      cache := Applied(cache, Foreign(others(now)));
      now := now + 1;
    }

    /** Rewrites one environment: a listing, and then a put of what was listed. */
    method Refresh(env: string) returns (ok: bool)
      requires Valid()
      modifies this`cache, this`now, this`log
      ensures Valid() && now > old(now) && old(log) <= log
      ensures ok <==> listings(env, old(now)).Some? && puts(old(now) + 1)
      ensures ok ==>
                var entry := Entry(old(now), Kept(listings(env, old(now)).value));
                OwnPuts(log) == OwnPuts(old(log)) + [Put(true, env, entry)]
      ensures !ok ==> OwnPuts(log) == OwnPuts(old(log))
    {
      hide OwnPuts, Applied, FromOthers;
      var t := now;
      var rows := listings(env, t);
      Elapse();
      if rows.None? {
        return false;
      }
      var features := ListFeatures(rows.value);
      ok := puts(now);
      if ok {
        ghost var p := Put(true, env, Entry(t, features));
        OwnPut(initial, log, others, now, p);
        InOrderMore(listings, OwnPuts(log), now, p);
        cache := cache[env := Entry(t, features)];
        log := log + [p];
      }
      Elapse();
    }

    method Settle(m: Msg, kind: Kind)
      requires Valid()
      modifies this`settlements, this`handledCounter, this`cache, this`now, this`log
      ensures settlements == old(settlements) + [Settlement(m, kind)] && handledCounter == old(handledCounter) + 1
      ensures Valid() && now > old(now) && old(log) <= log && OwnPuts(log) == OwnPuts(old(log))
    {
      hide OwnPuts, Applied, FromOthers, OwnInOrder;
      settlements, handledCounter := settlements + [Settlement(m, kind)], handledCounter + 1;
      Elapse();
    }

    /** Settles one message, rewriting its environment unless its key was handled before. */
    method HandleMessage(m: Msg, handledFeatures: set<string>) returns (handled': set<string>, ghost kind: Kind)
      requires Valid()
      modifies this
      ensures settlements == old(settlements) + [Settlement(m, kind)]
      ensures handledCounter == old(handledCounter) + 1 && receivedCounter == old(receivedCounter)
      ensures Valid() && now > old(now) && old(log) <= log
      ensures Handled(listings, puts, old(now), m, kind, OwnPuts(old(log)), OwnPuts(log), handledFeatures, handled')
    {
      hide OwnPuts, Applied, FromOthers, OwnInOrder;
      handled', kind := handledFeatures, Ack;
      match m.data {
        case Bad => Settle(m, Ack);
        case Event(isFeature, featureId, env) =>
          if !isFeature {
            Settle(m, Ack);
            return;
          }
          if featureId == "" {
            Settle(m, Ack);
            return;
          }
          if HandledFeatureKey(featureId, env) in handledFeatures {
            Settle(m, Ack);
            return;
          }
          var ok := Refresh(env);
          if ok {
            Settle(m, Ack);
            handled' := handledFeatures + {HandledFeatureKey(featureId, env)};
          } else {
            Settle(m, Nack);
            kind := Nack;
          }
      }
    }

    /** For every iteration order of the chunk and whatever the others do meanwhile: each message is
        settled once, and every acked target had its environment rewritten by this worker during the
        chunk. */
    method HandleChunk(chunk: Chunk)
      requires Valid() && Keyed(chunk)
      modifies this
      ensures SettledOnce(chunk, old(settlements), settlements)
      ensures NackedFailed(listings, puts, old(now), now, old(settlements), settlements)
      ensures ValidIds(chunk) ==>
                AckedAreRewritten(listings, chunk, old(now), OwnPuts(log), old(settlements), settlements)
      ensures OnlyTargets(listings, chunk, old(now), OwnPuts(old(log)), OwnPuts(log))
      ensures handledCounter == old(handledCounter) + |chunk| && receivedCounter == old(receivedCounter)
      ensures Valid() && now >= old(now) && old(log) <= log
    {
      hide SettledOnce, NackedFailed, AckedAreRewritten, OnlyTargets, HandledKeys, Handled, ColonFree, Times,
           HandledFeatureKey, OwnPuts, Applied, FromOthers, OwnInOrder;
      var handledFeatures: set<string> := {};
      var todo := chunk.Keys;
      ghost var seen: Chunk := map[];
      ghost var own0 := OwnPuts(log);
      NothingSeen(listings, puts, now, own0, settlements);
      while todo != {}
        invariant todo <= chunk.Keys && seen == chunk - todo && Keyed(seen)
        invariant SettledOnce(seen, old(settlements), settlements)
        invariant NackedFailed(listings, puts, old(now), now, old(settlements), settlements)
        invariant ValidIds(chunk) ==>
                    AckedAreRewritten(listings, seen, old(now), OwnPuts(log), old(settlements), settlements)
        invariant ValidIds(chunk) ==> HandledKeys(listings, handledFeatures, OwnPuts(log), old(now))
        invariant OnlyTargets(listings, seen, old(now), own0, OwnPuts(log))
        invariant handledCounter == old(handledCounter) + |chunk| - |todo| && receivedCounter == old(receivedCounter)
        invariant Valid() && now >= old(now) && old(log) <= log
      {
        var k :| k in todo;
        ghost var own1, log1, handled1, t := OwnPuts(log), settlements, handledFeatures, now;
        ghost var kind;
        handledFeatures, kind := HandleMessage(chunk[k], handledFeatures);
        SettleStep(seen, old(settlements), log1, chunk[k], kind);
        NackStep(listings, puts, seen, old(now), t, now, chunk[k], kind, old(settlements), log1, own1, OwnPuts(log),
                 handled1, handledFeatures);
        TargetStep(listings, puts, seen, old(now), t, chunk[k], kind, own0, own1, OwnPuts(log), handled1,
                   handledFeatures);
        if ValidIds(chunk) {
          RewriteStep(listings, puts, seen, old(now), t, chunk[k], kind, own1, OwnPuts(log), old(settlements), log1,
                      handled1, handledFeatures);
        }
        todo, seen := todo - {k}, seen[k := chunk[k]];
      }
      assert seen == chunk;
    }

    /** The worker's loop, for any interleaving of deliveries, timer ticks and the end of the run, and
        whatever the others put meanwhile. It flushes exactly when a flush is due and settles exactly the
        messages of the batches and those without an id. Every delivery is accounted for, and the counters
        agree with it: received is handled plus held, whichever way the worker stops. Every acked feature
        event had its environment rewritten by this worker from a listing read no earlier than its own
        delivery, and every nacked one saw a listing or write fail since. `at` are the moments of the
        deliveries. */
    method BatchLoop(signals: seq<Signal<Data>>)
      returns (held: Chunk, consumed: nat, ghost displaced: set<Msg>, ghost at: map<Msg, nat>, ghost cuts: seq<nat>)
      requires flushSize > 0 && receivedCounter == handledCounter == 0 && settlements == []
      requires Valid() && DistinctDeliveries(signals)
      modifies this
      ensures consumed <= |signals|
      ensures consumed < |signals| ==> signals[consumed].Closed? || signals[consumed].Cancelled?
      ensures consumed > 0 && signals[consumed - 1].Tick? ==> held == map[]
      ensures receivedCounter == |Messages(signals[..consumed])| == handledCounter + |held|
      ensures Accounted(Messages(signals[..consumed]), held, displaced, settlements) && |held| < flushSize
      ensures TimedAll(at, Messages(signals[..consumed]))
      ensures Batched(signals, cuts, flushSize, consumed, held)
      ensures SettledByBatch(Messages(signals[..consumed]), signals, cuts, settlements)
      ensures Valid() && old(log) <= log
      ensures ValidSignals(signals) ==> RewrittenSinceDelivery(listings, at, now, OwnPuts(log), settlements)
      ensures NackedSinceDelivery(listings, puts, at, now, settlements)
    {
      hide Accounted, RewrittenSinceDelivery, NackedSinceDelivery, SettledOnce, NackedFailed, AckedAreRewritten,
           OnlyTargets, ValidIds, ValidSignals, Messages, DistinctDeliveries, OwnPuts, Applied, FromOthers, OwnInOrder,
           Batched, SettledByBatch, TimedAll;
      held, consumed, displaced, at, cuts := map[], 0, {}, map[], [];
      NothingDelivered(listings, puts, signals, flushSize, now, OwnPuts(log));
      while consumed < |signals|
        invariant consumed <= |signals|
        invariant consumed > 0 && signals[consumed - 1].Tick? ==> held == map[]
        invariant receivedCounter == |Messages(signals[..consumed])| == handledCounter + |held|
        invariant Accounted(Messages(signals[..consumed]), held, displaced, settlements) && |held| < flushSize
        invariant TimedAll(at, Messages(signals[..consumed]))
        invariant Batched(signals, cuts, flushSize, consumed, held)
        invariant SettledByBatch(Messages(signals[..consumed]), signals, cuts, settlements)
        invariant Valid() && old(log) <= log
        invariant ValidSignals(signals) ==> RewrittenSinceDelivery(listings, at, now, OwnPuts(log), settlements)
        invariant NackedSinceDelivery(listings, puts, at, now, settlements)
      {
        ghost var received := Messages(signals[..consumed]);
        MessagesNext(signals, consumed);
        match signals[consumed] {
          case Receive(msg) =>
            held, displaced, at, cuts := Receive(msg, held, signals, consumed, received, displaced, at, cuts);
          case Tick =>
            assert received + [] == received;
            if |held| > 0 {
              FlushNow(signals, cuts, flushSize, consumed, held, held);
              held := Flush(held, signals, consumed, received, displaced, at, cuts);
              cuts := cuts + [consumed + 1];
            } else {
              KeepHolding(signals, cuts, flushSize, consumed, held, held);
            }
          case Closed => return;
          case Cancelled => return;
        }
        consumed := consumed + 1;
      }
    }

    /** A message without an id. */
    method AckAtOnce(
      msg: Msg, ghost chunk: Chunk, ghost signals: seq<Signal<Data>>, ghost n: nat, ghost received: seq<Msg>,
      ghost displaced: set<Msg>, ghost at: map<Msg, nat>, ghost cuts: seq<nat>)
      requires msg.id == "" && msg !in received && msg !in at && |chunk| < flushSize
      requires n < |signals| && signals[n] == Signal.Receive(msg) && Batched(signals, cuts, flushSize, n, chunk)
      requires Valid() && Accounted(received, chunk, displaced, settlements)
      requires SettledByBatch(received, signals, cuts, settlements)
      requires ValidSignals(signals) ==> RewrittenSinceDelivery(listings, at, now, OwnPuts(log), settlements)
      requires NackedSinceDelivery(listings, puts, at, now, settlements)
      modifies this`settlements, this`handledCounter, this`cache, this`now, this`log
      ensures Valid() && old(log) <= log && handledCounter == old(handledCounter) + 1
      ensures Accounted(received + [msg], chunk, displaced, settlements)
      ensures Batched(signals, cuts, flushSize, n + 1, chunk)
      ensures SettledByBatch(received + [msg], signals, cuts, settlements)
      ensures ValidSignals(signals) ==>
                RewrittenSinceDelivery(listings, at[msg := old(now)], now, OwnPuts(log), settlements)
      ensures NackedSinceDelivery(listings, puts, at[msg := old(now)], now, settlements)
    {
      hide Accounted, RewrittenSinceDelivery, NackedSinceDelivery, ValidSignals, OwnPuts, Applied, FromOthers,
           OwnInOrder, Batched, SettledByBatch, TimedAll;
      ghost var at' := at[msg := now];
      AccountSettled(received, chunk, displaced, settlements, msg, Ack);
      Delivered(listings, at, now, OwnPuts(log), settlements, msg);
      AckedWithoutId(listings, at', now, OwnPuts(log), settlements, msg);
      SettledWithoutId(received, signals, cuts, settlements, msg, Ack);
      Settle(msg, Ack);
      Later(listings, at', old(now), now, OwnPuts(log), settlements);
      NacksStay(listings, puts, at, old(now), now, old(settlements), msg);
      KeepHolding(signals, cuts, flushSize, n, chunk, chunk);
    }

    method Receive(
      msg: Msg, chunk: Chunk, ghost signals: seq<Signal<Data>>, ghost n: nat, ghost received: seq<Msg>,
      ghost displaced: set<Msg>, ghost at: map<Msg, nat>, ghost cuts: seq<nat>)
      returns (held: Chunk, ghost displaced': set<Msg>, ghost at': map<Msg, nat>, ghost cuts': seq<nat>)
      requires flushSize > 0 && |chunk| < flushSize && msg !in received && TimedAll(at, received)
      requires n < |signals| && signals[n] == Signal.Receive(msg) && Batched(signals, cuts, flushSize, n, chunk)
      requires Valid() && Accounted(received, chunk, displaced, settlements)
      requires SettledByBatch(received, signals, cuts, settlements)
      requires ValidSignals(signals) ==> RewrittenSinceDelivery(listings, at, now, OwnPuts(log), settlements)
      requires NackedSinceDelivery(listings, puts, at, now, settlements)
      requires forall m :: m in received + [msg] ==> Signal.Receive(m) in signals
      modifies this
      ensures Valid() && old(log) <= log && at' == at[msg := old(now)] && TimedAll(at', received + [msg])
      ensures Accounted(received + [msg], held, displaced', settlements) && |held| < flushSize
      ensures Batched(signals, cuts', flushSize, n + 1, held)
      ensures SettledByBatch(received + [msg], signals, cuts', settlements)
      ensures ValidSignals(signals) ==> RewrittenSinceDelivery(listings, at', now, OwnPuts(log), settlements)
      ensures NackedSinceDelivery(listings, puts, at', now, settlements)
      ensures receivedCounter == old(receivedCounter) + 1
      ensures handledCounter + |held| == old(handledCounter) + |chunk| + 1
    {
      hide Accounted, RewrittenSinceDelivery, NackedSinceDelivery, ValidSignals, OwnPuts, Applied, FromOthers,
           OwnInOrder, Batched, SettledByBatch, TimedAll;
      receivedCounter := receivedCounter + 1;
      TimedMore(at, received, msg, now);
      Delivered(listings, at, now, OwnPuts(log), settlements, msg);
      held, displaced', at', cuts' := chunk, displaced, at[msg := now], cuts;
      if msg.id == "" {
        AckAtOnce(msg, chunk, signals, n, received, displaced, at, cuts);
        return;
      }
      if msg.id in held {
        handledCounter := handledCounter + 1;
      }
      HoldAccounted(received, held, displaced, settlements, msg);
      HeldNotSettled(received, signals, cuts, settlements, msg);
      NacksStay(listings, puts, at, now, now, settlements, msg);
      displaced' := displaced + Displaced(held, msg);
      held := held[msg.id := msg];
      if |held| >= flushSize {
        FlushNow(signals, cuts, flushSize, n, chunk, held);
        cuts' := cuts + [n + 1];
        held := Flush(held, signals, n, received + [msg], displaced', at', cuts);
      } else {
        KeepHolding(signals, cuts, flushSize, n, chunk, held);
      }
    }

    /** Handles the chunk and starts a new one. */
    method Flush(chunk: Chunk, ghost signals: seq<Signal<Data>>, ghost n: nat, ghost received: seq<Msg>,
                 ghost displaced: set<Msg>, ghost at: map<Msg, nat>, ghost cuts: seq<nat>) returns (empty: Chunk)
      requires Valid() && Accounted(received, chunk, displaced, settlements) && TimedAll(at, received)
      requires ValidSignals(signals) ==> RewrittenSinceDelivery(listings, at, now, OwnPuts(log), settlements)
      requires NackedSinceDelivery(listings, puts, at, now, settlements)
      requires forall m :: m in received ==> Signal.Receive(m) in signals
      requires SettledByBatch(received, signals, cuts, settlements) && n < |signals|
      requires Start(cuts + [n + 1], |cuts|) <= n + 1 && Batch(signals, cuts + [n + 1], |cuts|) == chunk
      modifies this
      ensures Valid() && old(log) <= log
      ensures empty == map[] && Accounted(received, empty, displaced, settlements)
      ensures SettledByBatch(received, signals, cuts + [n + 1], settlements)
      ensures ValidSignals(signals) ==> RewrittenSinceDelivery(listings, at, now, OwnPuts(log), settlements)
      ensures NackedSinceDelivery(listings, puts, at, now, settlements)
      ensures handledCounter == old(handledCounter) + |chunk| && receivedCounter == old(receivedCounter)
    {
      hide RewrittenSinceDelivery, NackedSinceDelivery, AckedAreRewritten, SettledOnce, NackedFailed, OwnPuts, Applied,
           FromOthers, OwnInOrder, SettledByBatch, Batch, Start;
      HeldKeyed(received, chunk, displaced, settlements);
      HeldValid(received, chunk, displaced, settlements, signals);
      ghost var own0 := OwnPuts(log);
      HandleChunk(chunk);
      AccountFlushed(received, chunk, displaced, old(settlements), settlements);
      SettledByFlush(received, signals, cuts, n + 1, chunk, old(settlements), settlements);
      hide Accounted;
      FlushNacks(listings, puts, chunk, at, old(now), now, old(settlements), settlements);
      if ValidSignals(signals) {
        FlushRewritten(listings, chunk, at, old(now), now, own0, OwnPuts(log), old(settlements), settlements);
      }
      return map[];
    }
  }

  lemma InOrderMore(listings: Listings, own: seq<Put<Entry>>, now: nat, p: Put<Entry>)
    requires OwnInOrder(listings, own, now)
    requires p.own && Honest(listings, p.key, p.value) && p.value.readAt < now
    requires forall q :: q in own ==> q.value.readAt < p.value.readAt
    ensures OwnInOrder(listings, own + [p], now)
  {
    assert forall i :: 0 <= i < |own| ==> own[i] in own;
  }

  /** What handling one message does to the worker's puts and to the handled keys. */
  ghost predicate Handled(
    listings: Listings, puts: nat -> bool, now: nat, m: Msg, kind: Kind,
    own: seq<Put<Entry>>, own': seq<Put<Entry>>, handled: set<string>, handled': set<string>)
  {
    if IsTarget(m) && HandledFeatureKey(m.data.entityId, m.data.env) !in handled && kind == Ack then
      && listings(m.data.env, now).Some?
      && own' == own + [Put(true, m.data.env, Entry(now, Kept(listings(m.data.env, now).value)))]
      && handled' == handled + {HandledFeatureKey(m.data.entityId, m.data.env)}
    else
      && own' == own && handled' == handled
      && (kind == Nack ==> IsTarget(m) && FailsAt(listings, puts, m.data.env, now))
  }

  lemma NackStep(
    listings: Listings, puts: nat -> bool, seen: Chunk, start: nat, now: nat, end: nat, m: Msg, kind: Kind,
    log0: seq<Settlement<Data>>, log: seq<Settlement<Data>>, own: seq<Put<Entry>>, own': seq<Put<Entry>>,
    handled: set<string>, handled': set<string>)
    requires NackedFailed(listings, puts, start, now, log0, log) && SettledOnce(seen, log0, log)
    requires Keyed(seen) && m.id !in seen && start <= now < end
    requires Handled(listings, puts, now, m, kind, own, own', handled, handled')
    ensures NackedFailed(listings, puts, start, end, log0, log + [Settlement(m, kind)])
  {
    SettleStep(seen, log0, log, m, kind);
    hide Newly, SettledOnce, FailsAt;
    forall env | FailedBetween(listings, puts, env, start, now) ensures FailedBetween(listings, puts, env, start, end) {
    }
  }

  lemma TargetStep(
    listings: Listings, puts: nat -> bool, seen: Chunk, start: nat, now: nat, m: Msg, kind: Kind,
    own0: seq<Put<Entry>>, own: seq<Put<Entry>>, own': seq<Put<Entry>>, handled: set<string>, handled': set<string>)
    requires OnlyTargets(listings, seen, start, own0, own) && m.id !in seen && start <= now
    requires Handled(listings, puts, now, m, kind, own, own', handled, handled')
    ensures OnlyTargets(listings, seen[m.id := m], start, own0, own')
  {
    forall i | |own0| <= i < |own'|
      ensures TargetEnv(seen[m.id := m], own'[i].key) && FreshEntry(listings, own'[i].key, own'[i].value, start)
    {
      TargetEnvGrows(seen, m, own'[i].key);
      assert i < |own| ==> own'[i] == own[i];
    }
  }

  lemma RewriteStep(
    listings: Listings, puts: nat -> bool, seen: Chunk, start: nat, now: nat, m: Msg, kind: Kind,
    own: seq<Put<Entry>>, own': seq<Put<Entry>>, log0: seq<Settlement<Data>>, log: seq<Settlement<Data>>,
    handled: set<string>, handled': set<string>)
    requires AckedAreRewritten(listings, seen, start, own, log0, log) && SettledOnce(seen, log0, log) && Keyed(seen)
    requires HandledKeys(listings, handled, own, start) && m.id !in seen && start <= now
    requires IsTarget(m) ==> ColonFree(m.data.entityId)
    requires Handled(listings, puts, now, m, kind, own, own', handled, handled')
    ensures AckedAreRewritten(listings, seen[m.id := m], start, own', log0, log + [Settlement(m, kind)])
    ensures HandledKeys(listings, handled', own', start)
  {
    SettleStep(seen, log0, log, m, kind);
    hide Times, SettledOnce, Newly, Rewritten, HandledKey, ColonFree;
    if IsTarget(m) && kind == Ack {
      var key := HandledFeatureKey(m.data.entityId, m.data.env);
      if key in handled {
        SkippedIsRewritten(listings, handled, own, start, m.data.entityId, m.data.env);
      } else {
        var p := Put(true, m.data.env, Entry(now, Kept(listings(m.data.env, now).value)));
        RewrittenMore(listings, own, [p]);
        NewlyRewritten(listings, own, p, start, m.data.entityId);
      }
    }
  }

  lemma NewlyRewritten(listings: Listings, own: seq<Put<Entry>>, p: Put<Entry>, start: nat, f: string)
    requires FreshEntry(listings, p.key, p.value, start) && ColonFree(f)
    ensures Rewritten(listings, own + [p], p.key, start)
    ensures HandledKey(listings, own + [p], HandledFeatureKey(f, p.key), start)
  {
    assert p in own + [p];
  }

  lemma NothingSeen(
    listings: Listings, puts: nat -> bool, start: nat, own: seq<Put<Entry>>, log: seq<Settlement<Data>>)
    ensures SettledOnce(map[], log, log) && NackedFailed(listings, puts, start, start, log, log)
    ensures AckedAreRewritten(listings, map[], start, own, log, log)
    ensures OnlyTargets(listings, map[], start, own, own) && HandledKeys(listings, {}, own, start)
  {
  }

  // ----- Whole runs -----

  ghost predicate ValidSignals(signals: seq<Signal<Data>>) {
    forall m :: Receive(m) in signals && IsTarget(m) ==> ColonFree(m.data.entityId)
  }

  ghost predicate RewrittenSinceDelivery(
    listings: Listings, at: map<Msg, nat>, now: nat, own: seq<Put<Entry>>, log: seq<Settlement<Data>>)
  {
    && (forall m :: m in at ==> at[m] <= now)
    && forall m :: Times(log, m, Ack) > 0 && IsTarget(m) && m.id != "" ==>
         m in at && Rewritten(listings, own, m.data.env, at[m])
  }

  /** Every nacked message is a feature event, and a listing or write of its environment failed after its
      delivery. */
  ghost predicate NackedSinceDelivery(
    listings: Listings, puts: nat -> bool, at: map<Msg, nat>, now: nat, log: seq<Settlement<Data>>)
  {
    && (forall m :: m in at ==> at[m] <= now)
    && forall m :: Times(log, m, Nack) > 0 ==>
         IsTarget(m) && m in at && FailedBetween(listings, puts, m.data.env, at[m], now)
  }

  /** In particular, while nothing fails nothing is nacked. */
  lemma NothingNacked(listings: Listings, puts: nat -> bool, at: map<Msg, nat>, now: nat, log: seq<Settlement<Data>>)
    requires NackedSinceDelivery(listings, puts, at, now, log)
    requires forall t, env :: 0 <= t < now ==> !FailsAt(listings, puts, env, t)
    ensures forall m :: Times(log, m, Nack) == 0
  {
    hide Times, FailsAt;
  }

  lemma NacksStay(
    listings: Listings, puts: nat -> bool, at: map<Msg, nat>, start: nat, now: nat, log: seq<Settlement<Data>>, m: Msg)
    requires NackedSinceDelivery(listings, puts, at, start, log) && start <= now
    ensures NackedSinceDelivery(listings, puts, at, now, log)
    ensures m !in at ==> NackedSinceDelivery(listings, puts, at[m := start], now, log)
    ensures NackedSinceDelivery(listings, puts, at, now, log + [Settlement(m, Ack)])
    ensures m !in at ==> NackedSinceDelivery(listings, puts, at[m := start], now, log + [Settlement(m, Ack)])
  {
    OneMore(log, Settlement(m, Ack));
    hide Times, FailsAt, IsTarget;
    forall env, t | FailedBetween(listings, puts, env, t, start) ensures FailedBetween(listings, puts, env, t, now) {
    }
    hide FailedBetween;
  }

  lemma FlushNacks(
    listings: Listings, puts: nat -> bool, chunk: Chunk, at: map<Msg, nat>, start: nat, now: nat,
    log: seq<Settlement<Data>>, log': seq<Settlement<Data>>)
    requires NackedSinceDelivery(listings, puts, at, start, log) && start <= now
    requires forall m :: Holds(chunk, m) ==> m in at
    requires SettledOnce(chunk, log, log') && NackedFailed(listings, puts, start, now, log, log')
    ensures NackedSinceDelivery(listings, puts, at, now, log')
  {
    hide FailsAt;
    forall m | Times(log', m, Nack) > 0
      ensures IsTarget(m) && m in at && FailedBetween(listings, puts, m.data.env, at[m], now)
    {
      if Times(log, m, Nack) == 0 {
        assert Newly(log, log', m, Nack) && Holds(chunk, m);
        var t :| start <= t < now && FailsAt(listings, puts, m.data.env, t);
        assert at[m] <= t;
      } else {
        var t :| at[m] <= t < start && FailsAt(listings, puts, m.data.env, t);
        assert t < now;
      }
    }
  }

  lemma NothingDelivered(listings: Listings, puts: nat -> bool, signals: seq<Signal<Data>>, flushSize: nat, now: nat,
                         own: seq<Put<Entry>>)
    ensures Batched(signals, [], flushSize, 0, map[]) && SettledByBatch([], signals, [], []) && TimedAll(map[], [])
    ensures RewrittenSinceDelivery(listings, map[], now, own, []) && NackedSinceDelivery(listings, puts, map[], now, [])
    ensures Accounted<Data>(Messages<Data>([]), map[], {}, []) && Messages<Data>([]) == []
  {
    NothingBatched(signals, flushSize);
    NothingSettledYet(signals);
    hide Batched, SettledByBatch;
  }

  lemma Delivered(
    listings: Listings, at: map<Msg, nat>, now: nat, own: seq<Put<Entry>>, log: seq<Settlement<Data>>, m: Msg)
    ensures RewrittenSinceDelivery(listings, at, now, own, log) && m !in at ==>
              RewrittenSinceDelivery(listings, at[m := now], now, own, log)
  {
    hide Times, Rewritten;
  }

  lemma AckedWithoutId(
    listings: Listings, at: map<Msg, nat>, now: nat, own: seq<Put<Entry>>, log: seq<Settlement<Data>>, m: Msg)
    requires m.id == ""
    ensures RewrittenSinceDelivery(listings, at, now, own, log) ==>
              RewrittenSinceDelivery(listings, at, now, own, log + [Settlement(m, Ack)])
  {
    OneMore(log, Settlement(m, Ack));
    hide Times, Rewritten;
  }

  lemma Later(
    listings: Listings, at: map<Msg, nat>, start: nat, now: nat, own: seq<Put<Entry>>, log: seq<Settlement<Data>>)
    requires start <= now
    ensures RewrittenSinceDelivery(listings, at, start, own, log) ==>
              RewrittenSinceDelivery(listings, at, now, own, log)
  {
    hide Times, Rewritten;
  }

  /** The messages with a moment of delivery are the received ones. */
  ghost predicate TimedAll(at: map<Msg, nat>, received: seq<Msg>) {
    forall m :: m in at <==> m in received
  }

  lemma TimedMore(at: map<Msg, nat>, received: seq<Msg>, m: Msg, t: nat)
    requires TimedAll(at, received)
    ensures TimedAll(at[m := t], received + [m]) && (m !in received ==> m !in at)
  {
  }

  lemma HeldKeyed(received: seq<Msg>, held: Chunk, displaced: set<Msg>, log: seq<Settlement<Data>>)
    requires Accounted(received, held, displaced, log)
    ensures Keyed(held) && forall m :: Holds(held, m) ==> m in received
  {
  }

  lemma HeldValid(
    received: seq<Msg>, held: Chunk, displaced: set<Msg>, log: seq<Settlement<Data>>, signals: seq<Signal<Data>>)
    requires Accounted(received, held, displaced, log) && forall m :: m in received ==> Signal.Receive(m) in signals
    ensures ValidSignals(signals) ==> ValidIds(held)
  {
  }

  lemma FlushRewritten(
    listings: Listings, chunk: Chunk, at: map<Msg, nat>, start: nat, now: nat,
    own: seq<Put<Entry>>, own': seq<Put<Entry>>, log: seq<Settlement<Data>>, log': seq<Settlement<Data>>)
    requires RewrittenSinceDelivery(listings, at, start, own, log) && start <= now
    requires forall m :: Holds(chunk, m) ==> m in at
    requires SettledOnce(chunk, log, log') && AckedAreRewritten(listings, chunk, start, own', log, log')
    requires own <= own'
    ensures RewrittenSinceDelivery(listings, at, now, own', log')
  {
    RewrittenMore(listings, own, own'[|own|..]);
    assert own + own'[|own|..] == own';
    forall m | Times(log', m, Ack) > 0 && IsTarget(m) && m.id != ""
      ensures m in at && Rewritten(listings, own', m.data.env, at[m])
    {
      if Times(log, m, Ack) == 0 {
        assert Newly(log, log', m, Ack) && Holds(chunk, m);
        var p :| p in own' && p.key == m.data.env && FreshEntry(listings, m.data.env, p.value, start);
      }
    }
  }

  // ----- What the cache then holds -----

  /** Whatever the others put: the cached list of an environment is fresh exactly when the last put for it
      is. */
  lemma FreshExactly(listings: Listings, initial: map<string, Entry>, log: seq<Put<Entry>>, env: string, start: nat)
    requires LastPut(log, env).Some?
    ensures Fresh(listings, Applied(initial, log), env, start) <==>
            FreshEntry(listings, env, LastPut(log, env).value.value, start)
  {
    AppliedExactly(initial, log, env);
  }

  ghost predicate OthersHonest(listings: Listings, others: Others<Entry>) {
    forall t, p :: p in Foreign(others(t)) ==> Honest(listings, p.key, p.value)
  }

  /** For an acked event of a worker among others that also put what they listed: its environment is cached
      from a listing no older than the delivery if and only if the last put for the environment, whoever
      made it, was read no earlier. */
  lemma AckedFreshExactly(listings: Listings, others: Others<Entry>, initial: map<string, Entry>,
      log: seq<Put<Entry>>, now: nat, env: string, start: nat)
    requires OwnInOrder(listings, OwnPuts(log), now) && FromOthers(log, others, now) && OthersHonest(listings, others)
    requires Rewritten(listings, OwnPuts(log), env, start)
    ensures LastPut(log, env).Some?
    ensures Fresh(listings, Applied(initial, log), env, start) <==> start <= LastPut(log, env).value.value.readAt
  {
    var own :| own in OwnPuts(log) && own.key == env && FreshEntry(listings, env, own.value, start);
    assert own in log;
    var last := LastPut(log, env).value;
    if last.own {
      assert last in OwnPuts(log);
      var i :| 0 <= i < |OwnPuts(log)| && OwnPuts(log)[i] == last;
    } else {
      var t :| 0 <= t < now && last in Foreign(others(t));
    }
    FreshExactly(listings, initial, log, env, start);
  }

  /** The last put for the environment among the worker's own is fresh for every acked event. */
  lemma OwnLastIsFresh(
    listings: Listings, own: seq<Put<Entry>>, now: nat, env: string, start: nat, last: Put<Entry>)
    requires OwnInOrder(listings, own, now) && Rewritten(listings, own, env, start) && LastPut(own, env) == Some(last)
    ensures FreshEntry(listings, env, last.value, start)
  {
    var p :| p in own && p.key == env && FreshEntry(listings, env, p.value, start);
    var i :| 0 <= i < |own| && own[i] == p;
    LastPutAfter(own, i);
    var j :| i <= j < |own| && own[j] == last;
  }

  lemma {:induction false} LastPutAfter(log: seq<Put<Entry>>, i: nat)
    requires i < |log|
    ensures LastPut(log, log[i].key).Some? && exists j :: i <= j < |log| && log[j] == LastPut(log, log[i].key).value
    decreases |log|
  {
    var n := |log| - 1;
    if log[n].key != log[i].key {
      LastPutAfter(log[..n], i);
      var j :| i <= j < n && log[..n][j] == LastPut(log[..n], log[i].key).value;
      assert log[j] == LastPut(log, log[i].key).value;
    }
  }

  /** A worker that alone writes the cache leaves every acked environment fresh. */
  lemma SingleWriterFresh(listings: Listings, initial: map<string, Entry>, log: seq<Put<Entry>>, now: nat,
      env: string, start: nat)
    requires OwnInOrder(listings, OwnPuts(log), now) && Rewritten(listings, OwnPuts(log), env, start)
    requires forall p :: p in log ==> p.own
    ensures Fresh(listings, Applied(initial, log), env, start)
  {
    AllOwn(log);
    var p :| p in log && p.key == env && FreshEntry(listings, env, p.value, start);
    FreshExactly(listings, initial, log, env, start);
    OwnLastIsFresh(listings, log, now, env, start, LastPut(log, env).value);
  }

  /** Two workers: one lists an environment, the other then handles and acks a later event of it, and the
      first one's put comes last. Both were honest, and the cached list is older than the acked event. */
  lemma StalePutExample() returns (listings: Listings, others: Others<Entry>, log: seq<Put<Entry>>)
    ensures OthersHonest(listings, others) && FromOthers(log, others, 7) && OwnInOrder(listings, OwnPuts(log), 7)
    ensures Rewritten(listings, OwnPuts(log), "e", 3)
    ensures !Fresh(listings, Applied(map[], log), "e", 3)
  {
    var was, changed := Feature("f", true, ""), Feature("f", true, "v");
    listings := (env, t) => Some(if t < 2 then [was] else [changed]);
    var stale, own := Put(false, "e", Entry(1, [was])), Put(true, "e", Entry(3, [changed]));
    others := t => if t == 5 then [stale] else [];
    log := [own] + [stale];
    KeptOne(was);
    KeptOne(changed);
    OwnOfTwo(own, stale);
    hide OwnPuts, Kept;
    assert OthersHonest(listings, others) by {
      assert forall t, p :: p in Foreign(others(t)) ==> p == stale;
    }
    assert FromOthers(log, others, 7) by {
      assert stale in Foreign(others(5));
    }
    assert Rewritten(listings, [own], "e", 3) by {
      assert own in [own];
    }
    assert LastPut(log, "e") == Some(stale);
    FreshExactly(listings, map[], log, "e", 3);
  }

  lemma OwnOfTwo(own: Put<Entry>, foreign: Put<Entry>)
    requires own.own && !foreign.own
    ensures OwnPuts([own] + [foreign]) == [own]
  {
    OwnPutsOne([own], foreign);
    OwnPutsOne([], own);
    assert [] + [own] == [own];
  }
}
