/** Deliveries of a Pub/Sub subscription and their settlements. */
module PubSub {

  datatype Kind = Ack | Nack

  /** One delivery. `serial` tells deliveries apart, `id` is the "id" attribute ("" when missing). */
  datatype Message<D> = Message(serial: nat, id: string, data: D)

  datatype Settlement<D> = Settlement(msg: Message<D>, kind: Kind)

  /** What a worker's select statement can see. */
  datatype Signal<D> = Receive(msg: Message<D>) | Tick | Closed | Cancelled

  function Times<D(==)>(log: seq<Settlement<D>>, m: Message<D>, kind: Kind): nat {
    multiset(log)[Settlement(m, kind)]
  }

  predicate Settled<D(==)>(log: seq<Settlement<D>>, m: Message<D>) {
    Times(log, m, Ack) + Times(log, m, Nack) > 0
  }

  lemma OneMore<D(!new)>(log: seq<Settlement<D>>, s: Settlement<D>)
    ensures forall m, kind :: Times(log + [s], m, kind) ==
              Times(log, m, kind) + if s == Settlement(m, kind) then 1 else 0
  {
  }

  function Messages<D>(signals: seq<Signal<D>>): (ms: seq<Message<D>>)
    decreases |signals|
  {
    if signals == [] then []
    else Messages(signals[..|signals| - 1])
         + if signals[|signals| - 1].Receive? then [signals[|signals| - 1].msg] else []
  }

  /** Every delivery is a new message. */
  predicate DistinctDeliveries<D(==)>(signals: seq<Signal<D>>) {
    forall i, j :: 0 <= i < j < |signals| && signals[i].Receive? && signals[j].Receive? ==>
      signals[i].msg != signals[j].msg
  }

  lemma {:induction false} MessageReceived<D>(signals: seq<Signal<D>>, m: Message<D>)
    ensures m in Messages(signals) <==> Receive(m) in signals
  {
    if signals != [] {
      var n := |signals| - 1;
      assert signals == signals[..n] + [signals[n]];
      MessageReceived(signals[..n], m);
    }
  }

  /** The messages a worker holds, under their ids. */
  type Pending<D> = map<string, Message<D>>

  predicate Keyed<D>(pending: Pending<D>) {
    forall k :: k in pending ==> pending[k].id == k
  }

  predicate Holds<D(==)>(pending: Pending<D>, m: Message<D>) {
    m.id in pending && pending[m.id] == m
  }

  /** Holding one more message: it displaces the one with its id, if any. */
  lemma HoldMore<D(!new)>(pending: Pending<D>, m: Message<D>)
    requires Keyed(pending)
    ensures Keyed(pending[m.id := m]) && |pending[m.id := m]| == |pending| + if m.id in pending then 0 else 1
    ensures forall x :: Holds(pending[m.id := m], x) <==>
                        x == m || (Holds(pending, x) && !(m.id in pending && x == pending[m.id]))
  {
    var pending' := pending[m.id := m];
    assert pending'.Keys == pending.Keys + {m.id} && |pending'| == |pending'.Keys| && |pending| == |pending.Keys|;
    if m.id in pending {
      assert pending.Keys + {m.id} == pending.Keys;
    }
    forall x ensures Holds(pending', x) <==> x == m || (Holds(pending, x) && !(m.id in pending && x == pending[m.id])) {
      if x.id == m.id {
        assert pending'[x.id] == m;
      } else {
        assert x.id in pending' <==> x.id in pending;
        assert m.id in pending ==> pending[m.id].id == m.id;
      }
    }
  }

  /** Between the two logs each message of `seen` got exactly one settlement, and no other message any. */
  ghost predicate SettledOnce<D(!new)>(seen: Pending<D>, log0: seq<Settlement<D>>, log: seq<Settlement<D>>) {
    && (forall m :: Times(log, m, Ack) + Times(log, m, Nack) ==
          Times(log0, m, Ack) + Times(log0, m, Nack) + if Holds(seen, m) then 1 else 0)
    && (forall m, kind :: Times(log, m, kind) >= Times(log0, m, kind))
  }

  /** Settled this way between the two logs. */
  predicate Newly<D(==)>(log0: seq<Settlement<D>>, log: seq<Settlement<D>>, m: Message<D>, kind: Kind) {
    Times(log, m, kind) > Times(log0, m, kind)
  }

  lemma SettleStep<D(!new)>(
    seen: Pending<D>, log0: seq<Settlement<D>>, log: seq<Settlement<D>>, m: Message<D>, kind: Kind)
    requires SettledOnce(seen, log0, log) && m.id !in seen && Keyed(seen)
    ensures SettledOnce(seen[m.id := m], log0, log + [Settlement(m, kind)])
    ensures forall x, k :: Newly(log0, log + [Settlement(m, kind)], x, k) <==>
            Newly(log0, log, x, k) || (x == m && k == kind)
    ensures Keyed(seen[m.id := m]) && forall x :: Holds(seen[m.id := m], x) <==> x == m || Holds(seen, x)
  {
    HoldMore(seen, m);
    OneMore(log, Settlement(m, kind));
    hide Times;
    assert !Holds(seen, m);
  }

  // ----- What a worker does with its deliveries -----

  /** Every delivery is settled, or held, or displaced: neither settled nor held any more, because a
      delivery with the same id came later. Nothing is settled twice. */
  ghost predicate Accounted<D(!new)>(
    received: seq<Message<D>>, held: Pending<D>, displaced: set<Message<D>>, log: seq<Settlement<D>>)
  {
    && Keyed(held)
    && (forall m :: m in received <==> Settled(log, m) || Holds(held, m) || m in displaced)
    && (forall m :: Holds(held, m) ==> !Settled(log, m) && m !in displaced)
    && (forall m :: m in displaced ==> !Settled(log, m) && Superseded(received, m))
    && (forall m :: Times(log, m, Ack) + Times(log, m, Nack) <= 1)
  }

  ghost predicate Superseded<D(!new)>(received: seq<Message<D>>, m: Message<D>) {
    exists m' :: m' in received && m' != m && m'.id == m.id
  }

  lemma SupersededMore<D(!new)>(received: seq<Message<D>>, m: Message<D>)
    ensures forall x :: Superseded(received, x) || (x != m && x.id == m.id) ==> Superseded(received + [m], x)
    ensures forall x :: x in received + [m] <==> x in received || x == m
  {
  }

  lemma AccountSettled<D(!new)>(
    received: seq<Message<D>>, held: Pending<D>, displaced: set<Message<D>>, log: seq<Settlement<D>>, m: Message<D>,
        kind: Kind)
    requires Accounted(received, held, displaced, log) && m !in received
    ensures Accounted(received + [m], held, displaced, log + [Settlement(m, kind)])
  {
    OneMore(log, Settlement(m, kind));
    SupersededMore(received, m);
    hide Times;
    forall x ensures Settled(log + [Settlement(m, kind)], x) <==> Settled(log, x) || x == m {
    }
    hide Settled, Superseded;
  }

  function Displaced<D(==)>(held: Pending<D>, m: Message<D>): set<Message<D>> {
    if m.id in held then {held[m.id]} else {}
  }

  lemma AccountHeld<D(!new)>(
    received: seq<Message<D>>, held: Pending<D>, displaced: set<Message<D>>, log: seq<Settlement<D>>, m: Message<D>)
    requires Accounted(received, held, displaced, log) && m !in received
    ensures Accounted(received + [m], held[m.id := m], displaced + Displaced(held, m), log)
  {
  }

  lemma HoldAccounted<D(!new)>(
    received: seq<Message<D>>, held: Pending<D>, displaced: set<Message<D>>, log: seq<Settlement<D>>, m: Message<D>)
    requires Accounted(received, held, displaced, log) && m !in received
    ensures Accounted(received + [m], held[m.id := m], displaced + Displaced(held, m), log)
    ensures |held[m.id := m]| == |held| + if m.id in held then 0 else 1
  {
    AccountHeld(received, held, displaced, log, m);
    HoldMore(held, m);
  }

  lemma AccountFlushed<D(!new)>(
    received: seq<Message<D>>, held: Pending<D>, displaced: set<Message<D>>, log: seq<Settlement<D>>,
        log': seq<Settlement<D>>)
    requires Accounted(received, held, displaced, log) && SettledOnce(held, log, log')
    ensures Accounted(received, map[], displaced, log')
  {
  }

  lemma MessagesNext<D(!new)>(signals: seq<Signal<D>>, n: nat)
    requires n < |signals|
    ensures Messages(signals[..n + 1]) == Messages(signals[..n]) + if signals[n].Receive? then [signals[n].msg] else []
    ensures DistinctDeliveries(signals) && signals[n].Receive? ==> signals[n].msg !in Messages(signals[..n])
    ensures forall m :: m in Messages(signals[..n + 1]) ==> Receive(m) in signals
  {
    assert signals[..n + 1][..n] == signals[..n];
    if signals[n].Receive? {
      MessageReceived(signals[..n], signals[n].msg);
    }
    forall m | m in Messages(signals[..n + 1]) ensures Receive(m) in signals {
      MessageReceived(signals[..n + 1], m);
    }
  }
}
