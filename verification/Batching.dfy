/** When a worker flushes, and what it then holds, read off the signals alone: it flushes exactly when it
    holds enough messages, or at a tick while it holds any, and a batch has the last delivery of each id since
    the flush before. */
module Batching {
  import opened PubSub

  /** The messages held after the signals when nothing is flushed in between. */
  function Window<D>(signals: seq<Signal<D>>): Pending<D>
    decreases |signals|
  {
    if signals == [] then map[]
    else
      var before, last := Window(signals[..|signals| - 1]), signals[|signals| - 1];
      if last.Receive? && last.msg.id != "" then before[last.msg.id := last.msg] else before
  }

  /** The i-th signal delivers the message, and no later one a message with its id. */
  ghost predicate DeliveredLast<D>(signals: seq<Signal<D>>, m: Message<D>, i: nat)
    requires i < |signals|
  {
    && signals[i] == Receive(m)
    && forall j :: i < j < |signals| && signals[j].Receive? ==> signals[j].msg.id != m.id
  }

  ghost predicate IsLastDelivery<D>(signals: seq<Signal<D>>, m: Message<D>) {
    exists i :: 0 <= i < |signals| && DeliveredLast(signals, m, i)
  }

  /** A window holds exactly the last delivery of each id. */
  lemma {:induction false} WindowExactly<D(!new)>(signals: seq<Signal<D>>)
    ensures Keyed(Window(signals))
    ensures forall m :: Holds(Window(signals), m) <==> m.id != "" && IsLastDelivery(signals, m)
    decreases |signals|
  {
    if signals != [] {
      var n, before, last := |signals| - 1, signals[..|signals| - 1], signals[|signals| - 1];
      WindowExactly(before);
      forall m
        ensures IsLastDelivery(signals, m) <==>
                last == Receive(m) || (IsLastDelivery(before, m) && (last.Receive? ==> last.msg.id != m.id))
      {
        LastDeliverySnoc(signals, m);
      }
      hide IsLastDelivery;
      if last.Receive? && last.msg.id != "" {
        HoldMore(Window(before), last.msg);
      }
    }
  }

  lemma LastDeliverySnoc<D>(signals: seq<Signal<D>>, m: Message<D>)
    requires signals != []
    ensures var before, last := signals[..|signals| - 1], signals[|signals| - 1];
            IsLastDelivery(signals, m) <==>
            last == Receive(m) || (IsLastDelivery(before, m) && (last.Receive? ==> last.msg.id != m.id))
  {
    var n, before, last := |signals| - 1, signals[..|signals| - 1], signals[|signals| - 1];
    if last == Receive(m) {
      assert DeliveredLast(signals, m, n);
    }
    if IsLastDelivery(before, m) && (last.Receive? ==> last.msg.id != m.id) {
      var i :| 0 <= i < n && DeliveredLast(before, m, i);
      forall j | i < j < |signals| && signals[j].Receive? ensures signals[j].msg.id != m.id {
        assert j < n ==> before[j] == signals[j];
      }
      assert DeliveredLast(signals, m, i);
    }
    if i :| 0 <= i < n && DeliveredLast(signals, m, i) {
      assert DeliveredLast(before, m, i);
    }
  }

  /** A flush is due after these signals since the last one. */
  predicate Due<D>(signals: seq<Signal<D>>, flushSize: nat) {
    && signals != [] && Window(signals) != map[]
    && (signals[|signals| - 1].Tick? || |Window(signals)| >= flushSize)
  }

  function Start(cuts: seq<nat>, k: nat): nat
    requires k <= |cuts|
  {
    if k == 0 then 0 else cuts[k - 1]
  }

  lemma StartsStay(cuts: seq<nat>, n: nat)
    ensures forall k :: 0 <= k <= |cuts| ==> Start(cuts + [n], k) == Start(cuts, k)
    ensures Start(cuts + [n], |cuts| + 1) == n
  {
  }

  /** The first moment after `a` at which a flush is due is `b`. */
  ghost predicate FirstDue<D>(signals: seq<Signal<D>>, a: nat, b: nat, flushSize: nat) {
    a < b <= |signals| && Due(signals[a..b], flushSize) && NotDue(signals, a, b - 1, flushSize)
  }

  ghost predicate NotDue<D>(signals: seq<Signal<D>>, a: nat, b: nat, flushSize: nat)
    requires b <= |signals|
  {
    forall i :: a < i <= b ==> !Due(signals[a..i], flushSize)
  }

  /** Of the first `n` signals the flushes come after those at `cuts`, each exactly when it is due, and
      `held` is held then. */
  ghost predicate Batched<D>(signals: seq<Signal<D>>, cuts: seq<nat>, flushSize: nat, n: nat, held: Pending<D>) {
    && n <= |signals|
    && (forall k :: 0 <= k < |cuts| ==> FirstDue(signals, Start(cuts, k), cuts[k], flushSize) && cuts[k] <= n)
    && Start(cuts, |cuts|) <= n && NotDue(signals, Start(cuts, |cuts|), n, flushSize)
    && held == Window(signals[Start(cuts, |cuts|)..n])
  }

  /** The batch of the k-th flush. */
  ghost function Batch<D>(signals: seq<Signal<D>>, cuts: seq<nat>, k: nat): Pending<D>
    requires k < |cuts| && Start(cuts, k) <= cuts[k] <= |signals|
  {
    Window(signals[Start(cuts, k)..cuts[k]])
  }

  ghost predicate InBatch<D>(signals: seq<Signal<D>>, cuts: seq<nat>, k: nat, m: Message<D>) {
    k < |cuts| && Start(cuts, k) <= cuts[k] <= |signals| && Holds(Batch(signals, cuts, k), m)
  }

  lemma NothingBatched<D>(signals: seq<Signal<D>>, flushSize: nat)
    ensures Batched(signals, [], flushSize, 0, map[])
  {
    assert signals[0..0] == [];
  }

  lemma WindowNext<D>(signals: seq<Signal<D>>, a: nat, n: nat)
    requires a <= n < |signals|
    ensures Window(signals[a..n + 1]) ==
            if signals[n].Receive? && signals[n].msg.id != ""
            then Window(signals[a..n])[signals[n].msg.id := signals[n].msg] else Window(signals[a..n])
    ensures signals[a..n + 1] != [] && signals[a..n + 1][|signals[a..n + 1]| - 1] == signals[n]
  {
    assert signals[a..n + 1][..n - a] == signals[a..n];
  }

  /** What is held after one more signal. */
  function HoldNext<D>(held: Pending<D>, s: Signal<D>): Pending<D> {
    if s.Receive? && s.msg.id != "" then held[s.msg.id := s.msg] else held
  }

  lemma {:induction false} DueNext<D>(signals: seq<Signal<D>>, a: nat, n: nat, flushSize: nat)
    requires a <= n < |signals|
    ensures var held := HoldNext(Window(signals[a..n]), signals[n]);
            && Window(signals[a..n + 1]) == held
            && (Due(signals[a..n + 1], flushSize) <==> held != map[] && (signals[n].Tick? || |held| >= flushSize))
  {
    WindowNext(signals, a, n);
    hide Window;
  }

  /** One more signal, after which no flush is due. */
  lemma {:induction false} KeepHolding<D>(
    signals: seq<Signal<D>>, cuts: seq<nat>, flushSize: nat, n: nat, held: Pending<D>, held': Pending<D>)
    requires Batched(signals, cuts, flushSize, n, held) && n < |signals| && held' == HoldNext(held, signals[n])
    requires held' == map[] || (!signals[n].Tick? && |held'| < flushSize)
    ensures Batched(signals, cuts, flushSize, n + 1, held')
  {
    hide Window, FirstDue, Due, HoldNext;
    DueNext(signals, Start(cuts, |cuts|), n, flushSize);
  }

  /** One more signal, after which a flush is due. */
  lemma {:induction false} FlushNow<D>(
    signals: seq<Signal<D>>, cuts: seq<nat>, flushSize: nat, n: nat, held: Pending<D>, held': Pending<D>)
    requires Batched(signals, cuts, flushSize, n, held) && n < |signals| && held' == HoldNext(held, signals[n])
    requires held' != map[] && (signals[n].Tick? || |held'| >= flushSize)
    ensures Batched(signals, cuts + [n + 1], flushSize, n + 1, map[])
    ensures Start(cuts + [n + 1], |cuts|) <= n + 1 && Batch(signals, cuts + [n + 1], |cuts|) == held'
  {
    hide Window, Due, HoldNext, FirstDue, NotDue;
    var a, cuts' := Start(cuts, |cuts|), cuts + [n + 1];
    DueNext(signals, a, n, flushSize);
    DueFirst(signals, a, n + 1, flushSize);
    forall k | 0 <= k < |cuts'|
      ensures FirstDue(signals, Start(cuts', k), cuts'[k], flushSize) && cuts'[k] <= n + 1
    {
      assert Start(cuts', k) == Start(cuts, k);
      if k < |cuts| {
        assert cuts'[k] == cuts[k];
      }
    }
    EmptyWindow(signals, n + 1, flushSize);
  }

  lemma DueFirst<D>(signals: seq<Signal<D>>, a: nat, b: nat, flushSize: nat)
    requires a < b <= |signals| && Due(signals[a..b], flushSize) && NotDue(signals, a, b - 1, flushSize)
    ensures FirstDue(signals, a, b, flushSize)
  {
  }

  lemma EmptyWindow<D>(signals: seq<Signal<D>>, n: nat, flushSize: nat)
    requires n <= |signals|
    ensures Window(signals[n..n]) == map[] && NotDue(signals, n, n, flushSize)
  {
    assert signals[n..n] == [];
  }

  /** The earlier batches stay what they were. */
  lemma BatchesStay<D(!new)>(signals: seq<Signal<D>>, cuts: seq<nat>, n: nat)
    ensures forall k, m :: 0 <= k < |cuts| ==> (InBatch(signals, cuts + [n], k, m) <==> InBatch(signals, cuts, k, m))
  {
    hide Window;
    var cuts' := cuts + [n];
    assert forall k :: 0 <= k < |cuts| ==> Start(cuts', k) == Start(cuts, k) && cuts'[k] == cuts[k];
  }

  // ----- What this says about a run -----

  lemma FirstDueUnique<D>(signals: seq<Signal<D>>, a: nat, b: nat, b': nat, flushSize: nat)
    requires FirstDue(signals, a, b, flushSize) && FirstDue(signals, a, b', flushSize)
    ensures b == b'
  {
    hide Due;
  }

  lemma DueWithin<D>(signals: seq<Signal<D>>, a: nat, b: nat, n: nat, flushSize: nat)
    requires FirstDue(signals, a, b, flushSize) && b <= n <= |signals|
    ensures !NotDue(signals, a, n, flushSize)
  {
    hide Due;
  }

  lemma {:induction false} CutsAgree<D>(
    signals: seq<Signal<D>>, cuts: seq<nat>, cuts': seq<nat>, flushSize: nat, n: nat, held: Pending<D>,
    held': Pending<D>, k: nat)
    requires Batched(signals, cuts, flushSize, n, held) && Batched(signals, cuts', flushSize, n, held')
    requires k <= |cuts| && k <= |cuts'|
    ensures Start(cuts, k) == Start(cuts', k) && forall i :: 0 <= i < k ==> cuts[i] == cuts'[i]
  {
    hide FirstDue, NotDue, Window;
    if k > 0 {
      CutsAgree(signals, cuts, cuts', flushSize, n, held, held', k - 1);
      FirstDueUnique(signals, Start(cuts, k - 1), cuts[k - 1], cuts'[k - 1], flushSize);
    }
  }

  lemma NoMoreCuts<D>(
    signals: seq<Signal<D>>, cuts: seq<nat>, cuts': seq<nat>, flushSize: nat, n: nat, held: Pending<D>,
    held': Pending<D>)
    requires Batched(signals, cuts, flushSize, n, held) && Batched(signals, cuts', flushSize, n, held')
    ensures |cuts'| <= |cuts|
  {
    hide FirstDue, NotDue, Window;
    if |cuts| < |cuts'| {
      CutsAgree(signals, cuts, cuts', flushSize, n, held, held', |cuts|);
      DueWithin(signals, Start(cuts, |cuts|), cuts'[|cuts|], n, flushSize);
    }
  }

  /** The signals determine when the worker flushes and what it holds. */
  lemma BatchedUnique<D>(
    signals: seq<Signal<D>>, cuts: seq<nat>, cuts': seq<nat>, flushSize: nat, n: nat, held: Pending<D>,
    held': Pending<D>)
    requires Batched(signals, cuts, flushSize, n, held) && Batched(signals, cuts', flushSize, n, held')
    ensures cuts == cuts' && held == held'
  {
    hide FirstDue, NotDue, Window;
    NoMoreCuts(signals, cuts, cuts', flushSize, n, held, held');
    NoMoreCuts(signals, cuts', cuts, flushSize, n, held', held);
    CutsAgree(signals, cuts, cuts', flushSize, n, held, held', |cuts|);
  }

  /** A later delivery of the same id. */
  ghost predicate DeliveredAgain<D>(signals: seq<Signal<D>>, i: nat, n: nat)
    requires i < n <= |signals| && signals[i].Receive?
  {
    exists j :: i < j < n && signals[j].Receive? && signals[j].msg.id == signals[i].msg.id
  }

  /** Every delivery with an id gets into a batch, or is held, or the id is delivered again. */
  lemma DeliveredFate<D(!new)>(
    signals: seq<Signal<D>>, cuts: seq<nat>, flushSize: nat, n: nat, held: Pending<D>, i: nat)
    requires Batched(signals, cuts, flushSize, n, held) && i < n && signals[i].Receive? && signals[i].msg.id != ""
    ensures (exists k :: 0 <= k < |cuts| && InBatch(signals, cuts, k, signals[i].msg))
            || Holds(held, signals[i].msg) || DeliveredAgain(signals, i, n)
  {
    hide Window, Due, NotDue;
    var m := signals[i].msg;
    if i >= Start(cuts, |cuts|) {
      FateInWindow(signals, Start(cuts, |cuts|), n, i);
    } else {
      var k := WindowAt(signals, cuts, flushSize, n, held, i, |cuts|);
      assert FirstDue(signals, Start(cuts, k), cuts[k], flushSize);
      FateInWindow(signals, Start(cuts, k), cuts[k], i);
      assert InBatch(signals, cuts, k, m) <==> Holds(Window(signals[Start(cuts, k)..cuts[k]]), m);
    }
  }

  lemma {:induction false} WindowAt<D>(
    signals: seq<Signal<D>>, cuts: seq<nat>, flushSize: nat, n: nat, held: Pending<D>, i: nat, c: nat) returns (k: nat)
    requires Batched(signals, cuts, flushSize, n, held) && c <= |cuts| && i < Start(cuts, c)
    ensures k < c && Start(cuts, k) <= i < cuts[k]
  {
    k := c - 1;
    if i < Start(cuts, k) {
      k := WindowAt(signals, cuts, flushSize, n, held, i, k);
    }
  }

  lemma FateInWindow<D(!new)>(signals: seq<Signal<D>>, a: nat, b: nat, i: nat)
    requires a <= i < b <= |signals| && signals[i].Receive? && signals[i].msg.id != ""
    ensures Holds(Window(signals[a..b]), signals[i].msg) || DeliveredAgain(signals, i, b)
  {
    var w, m := signals[a..b], signals[i].msg;
    WindowExactly(w);
    hide Window;
    assert w[i - a] == signals[i];
    if !DeliveredAgain(signals, i, b) {
      assert DeliveredLast(w, m, i - a);
    }
  }

  /** The settled messages are those without an id and those of the batches. */
  ghost predicate SettledByBatch<D(!new)>(
    received: seq<Message<D>>, signals: seq<Signal<D>>, cuts: seq<nat>, log: seq<Settlement<D>>)
  {
    forall m :: Settled(log, m) <==>
      (m.id == "" && m in received) || exists k :: 0 <= k < |cuts| && InBatch(signals, cuts, k, m)
  }

  lemma NothingSettledYet<D(!new)>(signals: seq<Signal<D>>)
    ensures SettledByBatch([], signals, [], [])
  {
  }

  lemma HeldNotSettled<D(!new)>(
    received: seq<Message<D>>, signals: seq<Signal<D>>, cuts: seq<nat>, log: seq<Settlement<D>>, m: Message<D>)
    requires SettledByBatch(received, signals, cuts, log) && m.id != ""
    ensures SettledByBatch(received + [m], signals, cuts, log)
  {
    hide InBatch, Settled;
  }

  lemma SettledWithoutId<D(!new)>(
    received: seq<Message<D>>, signals: seq<Signal<D>>, cuts: seq<nat>, log: seq<Settlement<D>>, m: Message<D>,
    kind: Kind)
    requires SettledByBatch(received, signals, cuts, log) && m.id == ""
    ensures SettledByBatch(received + [m], signals, cuts, log + [Settlement(m, kind)])
  {
    OneMore(log, Settlement(m, kind));
    hide InBatch, Times;
    assert forall x :: Settled(log + [Settlement(m, kind)], x) <==> Settled(log, x) || x == m;
    hide Settled;
  }

  lemma SettledByFlush<D(!new)>(
    received: seq<Message<D>>, signals: seq<Signal<D>>, cuts: seq<nat>, n: nat, batch: Pending<D>,
    log: seq<Settlement<D>>, log': seq<Settlement<D>>)
    requires SettledByBatch(received, signals, cuts, log) && SettledOnce(batch, log, log')
    requires Start(cuts + [n], |cuts|) <= n <= |signals| && Batch(signals, cuts + [n], |cuts|) == batch
    ensures SettledByBatch(received, signals, cuts + [n], log')
  {
    hide Window, Times;
    var cuts' := cuts + [n];
    BatchesStay(signals, cuts, n);
    assert forall m :: InBatch(signals, cuts', |cuts|, m) <==> Holds(batch, m);
    hide InBatch, Start, Batch;
    assert forall m :: Settled(log', m) <==> Settled(log, m) || Holds(batch, m);
    hide Settled, Holds, SettledOnce;
    forall m
      ensures (exists k :: 0 <= k < |cuts'| && InBatch(signals, cuts', k, m)) <==>
              (exists k :: 0 <= k < |cuts| && InBatch(signals, cuts, k, m)) || InBatch(signals, cuts', |cuts|, m)
    {
      if k :| 0 <= k < |cuts| && InBatch(signals, cuts, k, m) {
        assert InBatch(signals, cuts', k, m);
      }
    }
  }
}
