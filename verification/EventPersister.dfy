/** The event persister: a worker collects messages by id and sends each full batch. Sending settles
    every message of the batch; whether it is retried depends on marshalling and on the writer. */
module EventPersister {
  import opened Batching
  import opened PubSub

  /** A decoded message, or one that does not decode. */
  datatype Data = Bad | Event(id: string, env: string, payload: string)

  type Msg = Message<Data>

  datatype Marshalled = Json(text: string) | MarshalError(repeatable: bool)

  /** The services a send talks to: marshalling (which queries evaluations) and the datastore
      writer, which reports the ids that failed and whether each may be retried. */
  datatype Services = Services(
    marshal: (string, string, string) -> Marshalled,
    write: (string, map<string, string>) -> map<string, bool>)

  /** One call of the datastore writer. */
  datatype Write = Write(env: string, events: map<string, string>)

  /** The "id" attribute of every decodable message is the id of its event. */
  predicate Aligned(messages: Pending<Data>) {
    Keyed(messages) && forall k :: k in messages && messages[k].data.Event? ==> messages[k].data.id == k
  }

  ghost predicate ReportsGiven(s: Services) {
    forall env, evs :: s.write(env, evs).Keys <= evs.Keys
  }

  /** The events of one environment that were marshalled. */
  function Jsons(s: Services, messages: Pending<Data>, env: string): map<string, string> {
    map k | k in messages && messages[k].data.Event? && messages[k].data.env == env &&
            s.marshal(k, messages[k].data.payload, env).Json? :: s.marshal(k, messages[k].data.payload, env).text
  }

  /** A retryable failure is recorded for this message. */
  predicate Retryable(s: Services, messages: Pending<Data>, k: string)
    requires k in messages
  {
    messages[k].data.Event? &&
    var env := messages[k].data.env;
    match s.marshal(k, messages[k].data.payload, env)
    case MarshalError(repeatable) => repeatable
    case Json(_) => var fails := s.write(env, Jsons(s, messages, env)); k in fails && fails[k]
  }

  predicate SomeGood(messages: Pending<Data>) {
    exists k :: k in messages && messages[k].data.Event?
  }

  type EventMap = map<string, string>

  function Group(messages: Pending<Data>, env: string): EventMap {
    map k | k in messages && messages[k].data.Event? && messages[k].data.env == env :: messages[k].data.payload
  }

  // ----- Extracting -----

  function AddEvent(envEvents: map<string, EventMap>, env: string, id: string, payload: string): map<string, EventMap> {
    if env in envEvents then envEvents[env := envEvents[env][id := payload]]
    else envEvents[env := map[id := payload]]
  }

  /** `seen` are the messages extracted so far. */
  ghost predicate Extracted(
    seen: Pending<Data>, before: seq<Settlement<Data>>, log: seq<Settlement<Data>>, envEvents: map<string, EventMap>)
  {
    && (forall m, kind :: Times(log, m, kind) == Times(before, m, kind) +
          if kind == Ack && m.data.Bad? && m.id in seen && seen[m.id] == m then 1 else 0)
    && (forall env :: env in envEvents ==> exists k :: k in seen && seen[k].data.Event? && seen[k].data.env == env)
    && (forall k :: k in seen && seen[k].data.Event? ==> seen[k].data.env in envEvents)
    && (Aligned(seen) ==> forall env :: env in envEvents ==> envEvents[env] == Group(seen, env))
  }

  lemma ExtractBad(
    seen: Pending<Data>, m: Msg, before: seq<Settlement<Data>>, log: seq<Settlement<Data>>, envEvents: map<string,
        EventMap>)
    requires Extracted(seen, before, log, envEvents) && Keyed(seen) && m.id !in seen && m.data.Bad?
    ensures Extracted(seen[m.id := m], before, log + [Settlement(m, Ack)], envEvents)
  {
    var seen' := seen[m.id := m];
    OneMore(log, Settlement(m, Ack));
    hide Times;
    forall env | env in envEvents ensures exists k :: k in seen' && seen'[k].data.Event? && seen'[k].data.env == env {
      var k :| k in seen && seen[k].data.Event? && seen[k].data.env == env;
      assert k in seen';
    }
    if Aligned(seen') {
      AlignedPart(seen, m);
      forall env | env in envEvents ensures envEvents[env] == Group(seen', env) {
        assert Group(seen', env) == Group(seen, env);
      }
    }
  }

  lemma AlignedPart(seen: Pending<Data>, m: Msg)
    requires Aligned(seen[m.id := m]) && m.id !in seen
    ensures Aligned(seen)
  {
    assert forall k :: k in seen ==> seen[m.id := m][k] == seen[k];
  }

  lemma GroupMore(seen: Pending<Data>, m: Msg, env: string)
    requires m.id !in seen && m.data.Event?
    ensures Group(seen[m.id := m], env) ==
            if env == m.data.env then Group(seen, env)[m.id := m.data.payload] else Group(seen, env)
  {
  }

  lemma ExtractGood(
    seen: Pending<Data>, m: Msg, before: seq<Settlement<Data>>, log: seq<Settlement<Data>>, envEvents: map<string,
        EventMap>)
    requires Extracted(seen, before, log, envEvents) && Keyed(seen) && m.id !in seen && m.data.Event?
    ensures Extracted(seen[m.id := m], before, log, AddEvent(envEvents, m.data.env, m.data.id, m.data.payload))
  {
    hide Times;
    var seen' := seen[m.id := m];
    var events' := AddEvent(envEvents, m.data.env, m.data.id, m.data.payload);
    assert forall k :: k in seen ==> seen'[k] == seen[k];
    assert seen'[m.id] == m;
    forall env | env in events' ensures exists k :: k in seen' && seen'[k].data.Event? && seen'[k].data.env == env {
      if env == m.data.env {
        assert m.id in seen';
      } else {
        var k :| k in seen && seen[k].data.Event? && seen[k].data.env == env;
        assert k in seen';
      }
    }
    if Aligned(seen') {
      AlignedPart(seen, m);
      forall env | env in events' ensures events'[env] == Group(seen', env) {
        GroupMore(seen, m, env);
        if env == m.data.env && env !in envEvents {
          assert Group(seen, env) == map[];
        }
      }
    }
  }

  // ----- Marshalling and writing one environment -----

  function MarshalFails(s: Services, env: string, events: EventMap): map<string, bool> {
    map id | id in events && s.marshal(id, events[id], env).MarshalError? :: s.marshal(id, events[id], env).repeatable
  }

  function Texts(s: Services, env: string, events: EventMap): map<string, string> {
    map id | id in events && s.marshal(id, events[id], env).Json? :: s.marshal(id, events[id], env).text
  }

  function EnvFails(s: Services, env: string, events: EventMap): map<string, bool> {
    MarshalFails(s, env, events)
    + if Texts(s, env, events) == map[] then map[] else s.write(env, Texts(s, env, events))
  }

  lemma MarshalOne(s: Services, env: string, seen: EventMap, id: string, payload: string)
    requires id !in seen
    ensures Texts(s, env, seen[id := payload]) ==
            if s.marshal(id, payload, env).Json? then Texts(s, env, seen)[id := s.marshal(id, payload, env).text]
            else Texts(s, env, seen)
    ensures MarshalFails(s, env, seen[id := payload]) ==
            if s.marshal(id, payload, env).Json? then MarshalFails(s, env, seen)
            else MarshalFails(s, env, seen)[id := s.marshal(id, payload, env).repeatable]
  {
  }

  lemma MarshalNone(s: Services, env: string)
    ensures Texts(s, env, map[]) == map[] && MarshalFails(s, env, map[]) == map[]
  {
  }

  lemma TextsAreJsons(s: Services, messages: Pending<Data>, env: string)
    ensures Texts(s, env, Group(messages, env)) == Jsons(s, messages, env)
  {
  }

  /** The failures recorded so far, for the environments in `done`. */
  ghost predicate Recorded(s: Services, messages: Pending<Data>, done: set<string>, fails: map<string, bool>) {
    && (forall k :: k in fails ==> k in messages && messages[k].data.Event? && messages[k].data.env in done)
    && (forall k :: k in messages && messages[k].data.Event? && messages[k].data.env in done ==>
          ((k in fails && fails[k]) <==> Retryable(s, messages, k)))
  }

  lemma RecordEnv(s: Services, messages: Pending<Data>, done: set<string>, fails: map<string, bool>, env: string)
    requires Recorded(s, messages, done, fails) && ReportsGiven(s) && env !in done
    ensures Recorded(s, messages, done + {env}, fails + EnvFails(s, env, Group(messages, env)))
  {
    var events := Group(messages, env);
    assert Texts(s, env, events) == Jsons(s, messages, env);
    assert forall k :: k in MarshalFails(s, env, events) ==> k in events;
    assert forall k :: k in Texts(s, env, events) ==> k in events;
    assert forall k :: k in EnvFails(s, env, events) ==> k in events;
    var fails' := fails + EnvFails(s, env, events);
    forall k | k in messages && messages[k].data.Event? && messages[k].data.env in done + {env}
      ensures (k in fails' && fails'[k]) <==> Retryable(s, messages, k)
    {
      if messages[k].data.env == env {
        assert k in events;
      }
    }
  }

  /** Between the two lists of calls the writer got, for each environment in `done` that has marshalled events
      in the batch, exactly these events in one call, and nothing else. */
  ghost predicate Wrote(s: Services, messages: Pending<Data>, done: set<string>, writes: seq<Write>,
      writes': seq<Write>) {
    && writes <= writes'
    && (forall i :: |writes| <= i < |writes'| ==>
          && writes'[i].env in done && writes'[i].events != map[]
          && writes'[i].events == Jsons(s, messages, writes'[i].env))
    && (forall env :: env in done && Jsons(s, messages, env) != map[] ==>
          Write(env, Jsons(s, messages, env)) in writes'[|writes|..])
    && forall i, j :: |writes| <= i < j < |writes'| ==> writes'[i].env != writes'[j].env
  }

  lemma WroteOne(s: Services, messages: Pending<Data>, done: set<string>, env: string, before: seq<Write>,
      writes: seq<Write>,
                 writes': seq<Write>)
    requires Wrote(s, messages, done, before, writes) && env !in done
    requires writes' == if Jsons(s, messages, env) != map[] then writes
             + [Write(env, Jsons(s, messages, env))] else writes
    ensures Wrote(s, messages, done + {env}, before, writes')
  {
    hide Jsons;
    assert writes'[|before|..] == writes[|before|..] + if |writes'| > |writes| then [writes'[|writes|]] else [];
  }

  /** A send: the writer gets the marshalled events of each environment of the batch, in one call each. */
  ghost predicate SentTo(s: Services, messages: Pending<Data>, writes: seq<Write>, writes': seq<Write>) {
    && writes <= writes'
    && (forall i :: |writes| <= i < |writes'| ==>
          writes'[i].events != map[] && writes'[i].events == Jsons(s, messages, writes'[i].env))
    && (forall env :: Jsons(s, messages, env) != map[] ==>
          Write(env, Jsons(s, messages, env)) in writes'[|writes|..])
    && forall i, j :: |writes| <= i < j < |writes'| ==> writes'[i].env != writes'[j].env
  }

  lemma WroteAll(s: Services, messages: Pending<Data>, done: set<string>, writes: seq<Write>, writes': seq<Write>)
    requires Wrote(s, messages, done, writes, writes')
    requires forall k :: k in messages && messages[k].data.Event? ==> messages[k].data.env in done
    ensures SentTo(s, messages, writes, writes')
  {
    forall env | Jsons(s, messages, env) != map[] ensures env in done {
      var k :| k in Jsons(s, messages, env);
    }
  }

  // ----- Settling -----

  function FinalKind(fails: map<string, bool>, id: string): Kind {
    if id in fails && fails[id] then Nack else Ack
  }

  ghost predicate FinallySettled(
    seen: Pending<Data>, fails: map<string, bool>, before: seq<Settlement<Data>>, log: seq<Settlement<Data>>)
  {
    forall m, kind :: Times(log, m, kind) == Times(before, m, kind) +
      if m.id in seen && seen[m.id] == m && kind == FinalKind(fails, m.id) then 1 else 0
  }

  lemma SettleOne(
    seen: Pending<Data>, fails: map<string, bool>, before: seq<Settlement<Data>>, log: seq<Settlement<Data>>, m: Msg)
    requires FinallySettled(seen, fails, before, log) && m.id !in seen
    ensures FinallySettled(seen[m.id := m], fails, before, log + [Settlement(m, FinalKind(fails, m.id))])
  {
  }

  /** How often a send settles a message, each way. A message that does not decode is acked once
      while extracting and once more at the end, unless the whole batch is bad. */
  function Expected(s: Services, messages: Pending<Data>, m: Msg, kind: Kind): nat {
    if !Holds(messages, m) then 0
    else if m.data.Bad? then (if kind == Nack then 0 else if SomeGood(messages) then 2 else 1)
    else if kind == (if Retryable(s, messages, m.id) then Nack else Ack) then 1 else 0
  }

  /** Settled at least once, whatever the ids say, and only the messages of the batch. */
  ghost predicate AllSettled(messages: Pending<Data>, before: seq<Settlement<Data>>, log: seq<Settlement<Data>>) {
    forall m :: if Holds(messages, m)
      then Times(log, m, Ack) + Times(log, m, Nack) > Times(before, m, Ack) + Times(before, m, Nack)
      else Times(log, m, Ack) == Times(before, m, Ack) && Times(log, m, Nack) == Times(before, m, Nack)
  }

  ghost predicate SettledAsExpected(
    s: Services, messages: Pending<Data>, before: seq<Settlement<Data>>, log: seq<Settlement<Data>>)
  {
    forall m, kind :: Times(log, m, kind) == Times(before, m, kind) + Expected(s, messages, m, kind)
  }

  lemma AllBad(s: Services, messages: Pending<Data>, before: seq<Settlement<Data>>, log: seq<Settlement<Data>>)
    requires Extracted(messages, before, log, map[])
    ensures AllSettled(messages, before, log) && SettledAsExpected(s, messages, before, log)
  {
  }

  lemma SomeSent(
    s: Services, messages: Pending<Data>, envEvents: map<string, EventMap>, fails: map<string, bool>,
    before: seq<Settlement<Data>>, mid: seq<Settlement<Data>>, log: seq<Settlement<Data>>)
    requires Extracted(messages, before, mid, envEvents) && envEvents != map[]
    requires FinallySettled(messages, fails, mid, log)
    ensures AllSettled(messages, before, log)
    ensures Recorded(s, messages, envEvents.Keys, fails) ==> SettledAsExpected(s, messages, before, log)
  {
    hide Times, Retryable;
    var env :| env in envEvents;
    assert SomeGood(messages);
    hide SomeGood;
    forall m, kind | Recorded(s, messages, envEvents.Keys, fails)
      ensures Times(log, m, kind) == Times(before, m, kind) + Expected(s, messages, m, kind)
    {
    }
    forall m | Holds(messages, m)
      ensures Times(log, m, Ack) + Times(log, m, Nack) > Times(before, m, Ack) + Times(before, m, Nack)
    {
    }
  }

  class Persister {
    const flushSize: nat
    var settlements: seq<Settlement<Data>>
    /** The calls of the datastore writer. */
    var writes: seq<Write>

    constructor (flushSize: nat)
      ensures this.flushSize == flushSize && settlements == [] && writes == []
    {
      this.flushSize, settlements, writes := flushSize, [], [];
    }

    /** Acks the messages that do not decode and groups the rest by environment. */
    method ExtractEvents(messages: Pending<Data>) returns (envEvents: map<string, EventMap>)
      requires Keyed(messages)
      modifies this`settlements
      ensures Extracted(messages, old(settlements), settlements, envEvents)
    {
      envEvents := map[];
      var todo := messages.Keys;
      ghost var seen: Pending<Data> := map[];
      hide Extracted;
      NothingExtracted(settlements);
      while todo != {}
        invariant todo <= messages.Keys && seen == messages - todo
        invariant Extracted(seen, old(settlements), settlements, envEvents)
      {
        var k :| k in todo;
        var m := messages[k];
        match m.data {
          case Bad =>
            ExtractBad(seen, m, old(settlements), settlements, envEvents);
            settlements := settlements + [Settlement(m, Ack)];
          case Event(id, env, payload) =>
            ExtractGood(seen, m, old(settlements), settlements, envEvents);
            if env in envEvents {
              envEvents := envEvents[env := envEvents[env][id := payload]];
            } else {
              envEvents := envEvents[env := map[id := payload]];
            }
        }
        todo, seen := todo - {k}, seen[k := m];
      }
      assert seen == messages;
    }

    method MarshalEvents(s: Services, env: string, events: EventMap, fails: map<string, bool>)
      returns (evs: map<string, string>, fails': map<string, bool>)
      ensures evs == Texts(s, env, events) && fails' == fails + MarshalFails(s, env, events)
    {
      evs, fails' := map[], fails;
      var todo := events.Keys;
      ghost var seen: EventMap := map[];
      hide Texts, MarshalFails;
      MarshalNone(s, env);
      while todo != {}
        invariant todo <= events.Keys && seen == events - todo
        invariant evs == Texts(s, env, seen) && fails' == fails + MarshalFails(s, env, seen)
      {
        var id :| id in todo;
        MarshalOne(s, env, seen, id, events[id]);
        match s.marshal(id, events[id], env) {
          case MarshalError(repeatable) => fails' := fails'[id := repeatable];
          case Json(text) => evs := evs[id := text];
        }
        todo, seen := todo - {id}, seen[id := events[id]];
      }
      assert seen == events;
    }

    method WriteAll(s: Services, ghost messages: Pending<Data>, envEvents: map<string, EventMap>)
      returns (fails: map<string, bool>)
      requires Aligned(messages) ==> forall env :: env in envEvents ==> envEvents[env] == Group(messages, env)
      modifies this`writes
      ensures Aligned(messages) && ReportsGiven(s) ==> Recorded(s, messages, envEvents.Keys, fails)
      ensures Aligned(messages) ==> Wrote(s, messages, envEvents.Keys, old(writes), writes)
    {
      hide Recorded, Texts, MarshalFails, Group, Wrote, Jsons;
      fails := map[];
      var todo := envEvents.Keys;
      NothingRecorded(s, messages, writes);
      assert envEvents.Keys - todo == {};
      while todo != {}
        invariant todo <= envEvents.Keys
        invariant Aligned(messages) && ReportsGiven(s) ==> Recorded(s, messages, envEvents.Keys - todo, fails)
        invariant Aligned(messages) ==> Wrote(s, messages, envEvents.Keys - todo, old(writes), writes)
      {
        var env :| env in todo;
        ghost var before, written := fails, writes;
        var evs;
        evs, fails := MarshalEvents(s, env, envEvents[env], fails);
        if evs != map[] {
          fails := fails + s.write(env, evs);
          writes := writes + [Write(env, evs)];
        }
        assert fails == before + EnvFails(s, env, envEvents[env]);
        ghost var done := envEvents.Keys - todo;
        assert envEvents.Keys - (todo - {env}) == done + {env};
        if Aligned(messages) {
          TextsAreJsons(s, messages, env);
          WroteOne(s, messages, done, env, old(writes), written, writes);
          if ReportsGiven(s) {
            RecordEnv(s, messages, done, before, env);
          }
        }
        todo := todo - {env};
      }
      assert envEvents.Keys - todo == envEvents.Keys;
    }

    method SettleAll(messages: Pending<Data>, fails: map<string, bool>)
      requires Keyed(messages)
      modifies this`settlements
      ensures FinallySettled(messages, fails, old(settlements), settlements)
    {
      hide FinallySettled;
      var todo := messages.Keys;
      ghost var seen: Pending<Data> := map[];
      NothingSettled(fails, settlements);
      while todo != {}
        invariant todo <= messages.Keys && seen == messages - todo
        invariant FinallySettled(seen, fails, old(settlements), settlements)
      {
        var id :| id in todo;
        var m := messages[id];
        SettleOne(seen, fails, old(settlements), settlements, m);
        if id in fails {
          if fails[id] {
            settlements := settlements + [Settlement(m, Nack)];
          } else {
            settlements := settlements + [Settlement(m, Ack)];
          }
        } else {
          settlements := settlements + [Settlement(m, Ack)];
        }
        todo, seen := todo - {id}, seen[id := m];
      }
      assert seen == messages;
    }

    /** Every message of the batch is settled, and when the ids agree each exactly as expected: all its
        settlements are of one kind, Nack if and only if a retryable failure is recorded for it. */
    method Send(s: Services, messages: Pending<Data>)
      requires Keyed(messages)
      modifies this
      ensures AllSettled(messages, old(settlements), settlements)
      ensures Aligned(messages) && ReportsGiven(s) ==> SettledAsExpected(s, messages, old(settlements), settlements)
      ensures Aligned(messages) ==> SentTo(s, messages, old(writes), writes)
    {
      var envEvents := ExtractEvents(messages);
      if envEvents == map[] {
        AllBad(s, messages, old(settlements), settlements);
        NothingRecorded(s, messages, writes);
        WroteAll(s, messages, {}, writes, writes);
        return;
      }
      ghost var mid := settlements;
      hide Group, Retryable, Wrote, SentTo, Jsons;
      assert Aligned(messages) ==> forall env :: env in envEvents ==> envEvents[env] == Group(messages, env);
      var fails := WriteAll(s, messages, envEvents);
      if Aligned(messages) {
        WroteAll(s, messages, envEvents.Keys, old(writes), writes);
      }
      SettleAll(messages, fails);
      SomeSent(s, messages, envEvents, fails, old(settlements), mid, settlements);
    }

    /** The worker's loop, for any interleaving of deliveries, timer ticks, and the end of the run.
        `services(k)` are the services as they answer the k-th send. It sends exactly when a send is due; a
        message is nacked exactly when it was in a batch in whose send a retryable failure came up for it;
        and the writer gets exactly the marshalled events of each batch. `marks` are the numbers of calls
        of the writer after each send. */
    method BatchLoop(signals: seq<Signal<Data>>, services: nat -> Services)
      returns (held: Pending<Data>, consumed: nat, ghost cuts: seq<nat>, ghost marks: seq<nat>)
      requires settlements == [] && writes == [] && flushSize > 0 && DistinctDeliveries(signals)
      modifies this
      ensures consumed <= |signals| && (consumed < |signals| ==>
              signals[consumed].Closed? || signals[consumed].Cancelled?)
      ensures consumed > 0 && signals[consumed - 1].Tick? ==> held == map[]
      ensures Conserved(Messages(signals[..consumed]), held, flushSize, settlements)
      ensures Batched(signals, cuts, flushSize, consumed, held)
      ensures Good(signals, services) ==>
                && OneVerdict(settlements) && NackedExactly(signals, cuts, services, settlements)
                && WritesOf(signals, cuts, services, marks, writes)
    {
      hide Conserved, OneVerdict, Good, Messages, DistinctDeliveries, Batched, NackedExactly, WritesOf;
      held, consumed, cuts, marks := map[], 0, [], [];
      var sends: nat := 0;
      NothingReceived(signals, flushSize, services);
      while consumed < |signals|
        invariant consumed <= |signals|
        invariant consumed > 0 && signals[consumed - 1].Tick? ==> held == map[]
        invariant Conserved(Messages(signals[..consumed]), held, flushSize, settlements)
        invariant Batched(signals, cuts, flushSize, consumed, held) && sends == |cuts|
        invariant Good(signals, services) ==> OneVerdict(settlements)
        invariant Good(signals, services) ==> NackedExactly(signals, cuts, services, settlements)
        invariant Good(signals, services) ==> WritesOf(signals, cuts, services, marks, writes)
      {
        ghost var received := Messages(signals[..consumed]);
        MessagesNext(signals, consumed);
        match signals[consumed] {
          case Receive(msg) =>
            held, sends, cuts, marks := Take(msg, held, received, signals, services, sends, consumed, cuts, marks);
          case Tick =>
            assert received + [] == received;
            if |held| > 0 {
              FlushNow(signals, cuts, flushSize, consumed, held, held);
              held, sends, marks := Flush(received, held, flushSize, signals, services, sends, consumed, cuts, marks);
              cuts := cuts + [consumed + 1];
            } else {
              KeepHolding(signals, cuts, flushSize, consumed, held, held);
            }
          case Closed => return;
          case Cancelled => return;
        }
        consumed := consumed + 1;
      }
    }

    /** Takes one delivery: acks it when it has no id, otherwise holds it, acking the one it displaces, and
        sends the batch when it is full. */
    method Take(msg: Msg, batch: Pending<Data>, ghost received: seq<Msg>, ghost signals: seq<Signal<Data>>,
                services: nat -> Services, sends: nat, ghost n: nat, ghost cuts: seq<nat>, ghost marks: seq<nat>)
      returns (held: Pending<Data>, sends': nat, ghost cuts': seq<nat>, ghost marks': seq<nat>)
      requires n < |signals| && signals[n] == Receive(msg) && msg !in received && flushSize > 0 && sends == |cuts|
      requires forall m :: m in received + [msg] ==> Receive(m) in signals
      requires Conserved(received, batch, flushSize, settlements) && Batched(signals, cuts, flushSize, n, batch)
      requires Good(signals, services) ==> OneVerdict(settlements)
      requires Good(signals, services) ==> NackedExactly(signals, cuts, services, settlements)
      requires Good(signals, services) ==> WritesOf(signals, cuts, services, marks, writes)
      modifies this
      ensures Conserved(received + [msg], held, flushSize, settlements) && sends' == |cuts'|
      ensures Batched(signals, cuts', flushSize, n + 1, held)
      ensures Good(signals, services) ==> OneVerdict(settlements)
      ensures Good(signals, services) ==> NackedExactly(signals, cuts', services, settlements)
      ensures Good(signals, services) ==> WritesOf(signals, cuts', services, marks', writes)
    {
      hide Conserved, OneVerdict, Good, Batched, NackedExactly, WritesOf;
      held, sends', cuts', marks' := batch, sends, cuts, marks;
      ghost var before := settlements;
      if msg.id == "" {
        AckOne(received, held, flushSize, settlements, msg);
        settlements := settlements + [Settlement(msg, Ack)];
        AckNacksNothing(signals, cuts, services, before, msg);
        NotFull(received, held, flushSize, before);
        KeepHolding(signals, cuts, flushSize, n, held, held);
        return;
      }
      if msg.id in held {
        settlements := settlements + [Settlement(held[msg.id], Ack)];
        AckNacksNothing(signals, cuts, services, before, held[msg.id]);
      }
      Hold(received, held, flushSize, before, msg, settlements);
      held := held[msg.id := msg];
      if |held| < flushSize {
        ConservedSmaller(received + [msg], held, flushSize, settlements);
        KeepHolding(signals, cuts, flushSize, n, batch, held);
      } else {
        FlushNow(signals, cuts, flushSize, n, batch, held);
        cuts' := cuts + [n + 1];
        held, sends', marks' := Flush(received + [msg], held, flushSize + 1, signals, services, sends, n, cuts, marks);
      }
    }

    /** Sends the batch and starts a new one. */
    method Flush(ghost received: seq<Msg>, batch: Pending<Data>, ghost size: nat, ghost signals: seq<Signal<Data>>,
                 services: nat -> Services, sends: nat, ghost n: nat, ghost cuts: seq<nat>, ghost marks: seq<nat>)
      returns (empty: Pending<Data>, sends': nat, ghost marks': seq<nat>)
      requires Conserved(received, batch, size, settlements) && flushSize > 0 && n < |signals| && sends == |cuts|
      requires Batched(signals, cuts + [n + 1], flushSize, n + 1, map[])
      requires Start(cuts + [n + 1], |cuts|) <= n + 1 && Batch(signals, cuts + [n + 1], |cuts|) == batch
      requires forall m :: m in received ==> Receive(m) in signals
      requires Good(signals, services) ==> OneVerdict(settlements)
      requires Good(signals, services) ==> NackedExactly(signals, cuts, services, settlements)
      requires Good(signals, services) ==> WritesOf(signals, cuts, services, marks, writes)
      modifies this
      ensures empty == map[] && sends' == sends + 1 && Conserved(received, empty, flushSize, settlements)
      ensures Good(signals, services) ==> OneVerdict(settlements)
      ensures Good(signals, services) ==> NackedExactly(signals, cuts + [n + 1], services, settlements)
      ensures Good(signals, services) ==> WritesOf(signals, cuts + [n + 1], services, marks', writes)
    {
      hide OneVerdict, AllSettled, SettledAsExpected, SentTo, NackedExactly, WritesOf, Batched, Window;
      BatchAligned(received, batch, size, settlements);
      Send(services(sends), batch);
      AfterSend(received, batch, size, flushSize, old(settlements), settlements);
      marks' := marks + [|writes|];
      if Good(signals, services) {
        SendOneVerdict(services(|cuts|), received, batch, size, old(settlements), settlements);
        SendNacks(signals, cuts, services, n + 1, batch, old(settlements), settlements);
        SendWrites(signals, cuts, services, n + 1, batch, marks, old(writes), writes);
      }
      return map[], sends + 1, marks';
    }
  }

  lemma NothingRecorded(s: Services, messages: Pending<Data>, writes: seq<Write>)
    ensures Recorded(s, messages, {}, map[]) && Wrote(s, messages, {}, writes, writes)
  {
  }

  lemma NothingSettled(fails: map<string, bool>, log: seq<Settlement<Data>>)
    ensures FinallySettled(map[], fails, log, log)
  {
  }

  lemma NothingExtracted(log: seq<Settlement<Data>>)
    ensures Extracted(map[], log, log, map[])
  {
  }

  // ----- The worker -----

  /** The ids of decodable messages are those of their events, and the writer reports on events it was
      given. */
  ghost predicate Good(signals: seq<Signal<Data>>, services: nat -> Services) {
    (forall m :: Receive(m) in signals ==> AlignedMessage(m)) && forall k :: ReportsGiven(services(k))
  }

  /** A retryable failure came up for the message in a send of a batch that held it. */
  ghost predicate FailedIn(signals: seq<Signal<Data>>, cuts: seq<nat>, services: nat -> Services, k: nat, m: Msg) {
    InBatch(signals, cuts, k, m) && Retryable(services(k), Batch(signals, cuts, k), m.id)
  }

  ghost predicate NackedExactly(
    signals: seq<Signal<Data>>, cuts: seq<nat>, services: nat -> Services, log: seq<Settlement<Data>>)
  {
    forall m :: Times(log, m, Nack) > 0 <==> exists k :: 0 <= k < |cuts| && FailedIn(signals, cuts, services, k, m)
  }

  /** The calls of the writer are those of the sends, one after the other. */
  ghost predicate WritesOf(signals: seq<Signal<Data>>, cuts: seq<nat>, services: nat -> Services, marks: seq<nat>,
                           writes: seq<Write>)
  {
    && |marks| == |cuts| && Start(marks, |marks|) == |writes|
    && forall k :: 0 <= k < |cuts| ==>
         && Start(marks, k) <= marks[k] <= |writes| && Start(cuts, k) <= cuts[k] <= |signals|
         && SentTo(services(k), Batch(signals, cuts, k), writes[..Start(marks, k)], writes[..marks[k]])
  }

  lemma AckNacksNothing(
    signals: seq<Signal<Data>>, cuts: seq<nat>, services: nat -> Services, log: seq<Settlement<Data>>, m: Msg)
    ensures NackedExactly(signals, cuts, services, log) ==>
              NackedExactly(signals, cuts, services, log + [Settlement(m, Ack)])
  {
    hide FailedIn;
    OneMore(log, Settlement(m, Ack));
    hide Times;
  }

  lemma SendNacks(signals: seq<Signal<Data>>, cuts: seq<nat>, services: nat -> Services, n: nat, batch: Pending<Data>,
                  log: seq<Settlement<Data>>, log': seq<Settlement<Data>>)
    requires NackedExactly(signals, cuts, services, log) && SettledAsExpected(services(|cuts|), batch, log, log')
    requires Start(cuts + [n], |cuts|) <= n <= |signals| && Batch(signals, cuts + [n], |cuts|) == batch
    ensures NackedExactly(signals, cuts + [n], services, log')
  {
    hide Times, Retryable, Window, SomeGood;
    var cuts', s := cuts + [n], services(|cuts|);
    forall k, m | 0 <= k < |cuts|
      ensures FailedIn(signals, cuts', services, k, m) <==> FailedIn(signals, cuts, services, k, m)
    {
      assert Start(cuts', k) == Start(cuts, k) && cuts'[k] == cuts[k];
    }
    forall m ensures Expected(s, batch, m, Nack) > 0 <==> FailedIn(signals, cuts', services, |cuts|, m) {
      BadNotRetryable(s, batch, m);
    }
    hide FailedIn, Expected;
    forall m
      ensures Times(log', m, Nack) > 0 <==> exists k :: 0 <= k < |cuts'| && FailedIn(signals, cuts', services, k, m)
    {
      if FailedIn(signals, cuts', services, |cuts|, m) {
        assert Times(log', m, Nack) > 0;
      }
    }
  }

  lemma BadNotRetryable(s: Services, messages: Pending<Data>, m: Msg)
    ensures Holds(messages, m) && m.data.Bad? ==> !Retryable(s, messages, m.id)
  {
  }

  lemma SendWrites(signals: seq<Signal<Data>>, cuts: seq<nat>, services: nat -> Services, n: nat, batch: Pending<Data>,
                   marks: seq<nat>, writes: seq<Write>, writes': seq<Write>)
    requires WritesOf(signals, cuts, services, marks, writes) && SentTo(services(|cuts|), batch, writes, writes')
    requires Start(cuts + [n], |cuts|) <= n <= |signals| && Batch(signals, cuts + [n], |cuts|) == batch
    ensures WritesOf(signals, cuts + [n], services, marks + [|writes'|], writes')
  {
    hide Window, SentTo, Start;
    assert writes <= writes' by {
      SentMore(services(|cuts|), batch, writes, writes');
    }
    var cuts', marks' := cuts + [n], marks + [|writes'|];
    StartsStay(cuts, n);
    StartsStay(marks, |writes'|);
    forall k | 0 <= k < |cuts'|
      ensures Start(marks', k) <= marks'[k] <= |writes'| && Start(cuts', k) <= cuts'[k] <= |signals|
      ensures SentTo(services(k), Batch(signals, cuts', k), writes'[..Start(marks', k)], writes'[..marks'[k]])
    {
      if k < |cuts| {
        assert writes'[..marks[k]] == writes[..marks[k]] && writes'[..Start(marks, k)] == writes[..Start(marks, k)];
      } else {
        assert writes'[..|writes'|] == writes' && writes'[..|writes|] == writes;
      }
    }
  }

  lemma SentMore(s: Services, batch: Pending<Data>, writes: seq<Write>, writes': seq<Write>)
    requires SentTo(s, batch, writes, writes')
    ensures writes <= writes'
  {
  }

  /** The deliveries received so far are split between the settled ones and the ones held in the
      batch, which are not settled yet; and the batch is not full. */
  ghost predicate Conserved(received: seq<Msg>, batch: Pending<Data>, flushSize: nat, log: seq<Settlement<Data>>) {
    && Keyed(batch) && |batch| < flushSize
    && (forall m :: Settled(log, m) || Holds(batch, m) <==> m in received)
    && (forall m :: Holds(batch, m) ==> !Settled(log, m))
  }

  /** No message is both acked and nacked, and one that decodes is settled at most once. */
  ghost predicate OneVerdict(log: seq<Settlement<Data>>) {
    && (forall m :: Times(log, m, Ack) == 0 || Times(log, m, Nack) == 0)
    && (forall m: Msg :: m.data.Event? ==> Times(log, m, Ack) + Times(log, m, Nack) <= 1)
  }

  predicate AlignedMessage(m: Msg) {
    m.data.Event? ==> m.data.id == m.id
  }

  lemma AckUnsettled(log: seq<Settlement<Data>>, m: Msg)
    requires !Settled(log, m)
    ensures forall x :: Settled(log + [Settlement(m, Ack)], x) <==> Settled(log, x) || x == m
    ensures OneVerdict(log) ==> OneVerdict(log + [Settlement(m, Ack)])
  {
    OneMore(log, Settlement(m, Ack));
    hide Times;
  }

  lemma AckOne(received: seq<Msg>, batch: Pending<Data>, flushSize: nat, log: seq<Settlement<Data>>, m: Msg)
    requires Conserved(received, batch, flushSize, log) && m !in received
    ensures Conserved(received + [m], batch, flushSize, log + [Settlement(m, Ack)])
    ensures OneVerdict(log) ==> OneVerdict(log + [Settlement(m, Ack)])
  {
    hide Settled, OneVerdict;
    AckUnsettled(log, m);
  }

  /** Putting a message into the batch, acking the one it displaces. */
  lemma Hold(received: seq<Msg>, batch: Pending<Data>, flushSize: nat, log: seq<Settlement<Data>>, m: Msg,
      log': seq<Settlement<Data>>)
    requires Conserved(received, batch, flushSize, log) && m !in received
    requires log' == if m.id in batch then log + [Settlement(batch[m.id], Ack)] else log
    ensures Conserved(received + [m], batch[m.id := m], flushSize + 1, log')
    ensures OneVerdict(log) ==> OneVerdict(log')
  {
    hide Settled, OneVerdict;
    if m.id in batch {
      assert Holds(batch, batch[m.id]);
      AckUnsettled(log, batch[m.id]);
    }
    HoldMore(batch, m);
  }

  lemma AfterSend(received: seq<Msg>, batch: Pending<Data>, n: nat, flushSize: nat, log: seq<Settlement<Data>>,
      log': seq<Settlement<Data>>)
    requires Conserved(received, batch, n, log) && AllSettled(batch, log, log') && flushSize > 0
    ensures Conserved(received, map[], flushSize, log')
  {
  }

  lemma SendOneVerdict(s: Services, received: seq<Msg>, batch: Pending<Data>, n: nat, log: seq<Settlement<Data>>,
      log': seq<Settlement<Data>>)
    requires Conserved(received, batch, n, log) && SettledAsExpected(s, batch, log, log') && OneVerdict(log)
    ensures OneVerdict(log')
  {
  }

  lemma NothingReceived(signals: seq<Signal<Data>>, flushSize: nat, services: nat -> Services)
    requires flushSize > 0
    ensures Conserved(Messages<Data>([]), map[], flushSize, []) && OneVerdict([])
    ensures Batched(signals, [], flushSize, 0, map[])
    ensures NackedExactly(signals, [], services, []) && WritesOf(signals, [], services, [], [])
  {
    NothingBatched(signals, flushSize);
    hide Batched;
  }

  lemma ConservedSmaller(received: seq<Msg>, batch: Pending<Data>, flushSize: nat, log: seq<Settlement<Data>>)
    requires Conserved(received, batch, flushSize + 1, log) && |batch| < flushSize
    ensures Conserved(received, batch, flushSize, log)
  {
  }

  lemma NotFull(received: seq<Msg>, batch: Pending<Data>, flushSize: nat, log: seq<Settlement<Data>>)
    requires Conserved(received, batch, flushSize, log)
    ensures |batch| < flushSize
  {
  }

  lemma BatchAligned(received: seq<Msg>, batch: Pending<Data>, n: nat, log: seq<Settlement<Data>>)
    requires Conserved(received, batch, n, log)
    ensures Keyed(batch) && ((forall m :: m in received ==> AlignedMessage(m)) ==> Aligned(batch))
  {
    forall k | k in batch ensures batch[k] in received {
      assert Holds(batch, batch[k]);
    }
  }
}
