/** The audit log persister: a flush stores the decodable messages of a chunk in two groups, admin and
    environment logs, and settles each message by what became of its own group. */
module AuditLogPersister {
  import opened Batching
  import opened PubSub

  datatype Data = Bad | Event(isAdmin: bool, env: string, entry: string)

  type Msg = Message<Data>

  datatype AuditLog = AuditLog(entry: string, env: string)

  const ADMIN_ENVIRONMENT_NAMESPACE: string := ""

  function NewAuditLog(m: Msg): AuditLog
    requires m.data.Event?
  {
    AuditLog(m.data.entry, if m.data.isAdmin then ADMIN_ENVIRONMENT_NAMESPACE else m.data.env)
  }

  /** The logs made of the messages, index by index. */
  function LogsOf(ms: seq<Msg>): (logs: seq<AuditLog>)
    requires forall m :: m in ms ==> m.data.Event?
    ensures |logs| == |ms| && forall i :: 0 <= i < |ms| ==> logs[i] == NewAuditLog(ms[i])
  {
    seq(|ms|, i requires 0 <= i < |ms| => NewAuditLog(ms[i]))
  }

  /** `ms` lists the decodable messages of one group, each once. */
  ghost predicate Lists(seen: Pending<Data>, isAdmin: bool, ms: seq<Msg>) {
    && (forall m :: m in ms <==> Holds(seen, m) && m.data.Event? && m.data.isAdmin == isAdmin)
    && (forall i, j :: 0 <= i < j < |ms| ==> ms[i] != ms[j])
  }

  function Undecodable(seen: Pending<Data>): Pending<Data> {
    map k | k in seen && seen[k].data.Bad? :: seen[k]
  }

  lemma UndecodableMore(seen: Pending<Data>, m: Msg)
    requires m.id !in seen
    ensures Undecodable(seen[m.id := m]) == if m.data.Bad? then Undecodable(seen)[m.id := m] else Undecodable(seen)
  {
  }

  lemma ListsMore(seen: Pending<Data>, isAdmin: bool, ms: seq<Msg>, m: Msg)
    requires Lists(seen, isAdmin, ms) && Keyed(seen) && m.id !in seen
    ensures Lists(seen[m.id := m], isAdmin, if m.data.Event? && m.data.isAdmin == isAdmin then ms + [m] else ms)
  {
  }

  /** Only acks of undecodable messages so far. */
  ghost predicate AckedUndecodable(seen: Pending<Data>, log0: seq<Settlement<Data>>, log: seq<Settlement<Data>>) {
    && SettledOnce(Undecodable(seen), log0, log)
    && forall m, kind :: Newly(log0, log, m, kind) <==> Holds(seen, m) && m.data.Bad? && kind == Ack
  }

  lemma AckUndecodable(seen: Pending<Data>, log0: seq<Settlement<Data>>, log: seq<Settlement<Data>>, m: Msg)
    requires AckedUndecodable(seen, log0, log) && Keyed(seen) && m.id !in seen && m.data.Bad?
    ensures AckedUndecodable(seen[m.id := m], log0, log + [Settlement(m, Ack)])
  {
    UndecodableMore(seen, m);
    HoldMore(seen, m);
    SettleStep(Undecodable(seen), log0, log, m, Ack);
    hide Newly, SettledOnce, Undecodable;
    assert !Holds(seen, m);
  }

  lemma PassDecodable(seen: Pending<Data>, log0: seq<Settlement<Data>>, log: seq<Settlement<Data>>, m: Msg)
    requires AckedUndecodable(seen, log0, log) && Keyed(seen) && m.id !in seen && m.data.Event?
    ensures AckedUndecodable(seen[m.id := m], log0, log)
  {
  }

  class Persister {
    var settlements: seq<Settlement<Data>>
    var auditLogs: seq<AuditLog>
    var adminAuditLogs: seq<AuditLog>

    constructor ()
      ensures settlements == [] && auditLogs == [] && adminAuditLogs == []
    {
      settlements, auditLogs, adminAuditLogs := [], [], [];
    }

    /** Acks what does not decode; the log lists stay aligned with the message lists. */
    method ExtractAuditLogs(chunk: Pending<Data>)
      returns (logs: seq<AuditLog>, adminLogs: seq<AuditLog>, ms: seq<Msg>, adminMs: seq<Msg>)
      requires Keyed(chunk)
      modifies this`settlements
      ensures AckedUndecodable(chunk, old(settlements), settlements)
      ensures Lists(chunk, false, ms) && Lists(chunk, true, adminMs)
      ensures logs == LogsOf(ms) && adminLogs == LogsOf(adminMs)
    {
      hide AckedUndecodable, Lists;
      logs, adminLogs, ms, adminMs := [], [], [], [];
      var todo := chunk.Keys;
      ghost var seen: Pending<Data> := map[];
      NothingExtracted(settlements);
      while todo != {}
        invariant todo <= chunk.Keys && seen == chunk - todo && Keyed(seen)
        invariant AckedUndecodable(seen, old(settlements), settlements)
        invariant Lists(seen, false, ms) && Lists(seen, true, adminMs)
        invariant forall m :: m in ms || m in adminMs ==> m.data.Event?
        invariant logs == LogsOf(ms) && adminLogs == LogsOf(adminMs)
      {
        var k :| k in todo;
        var m := chunk[k];
        ListsMore(seen, false, ms, m);
        ListsMore(seen, true, adminMs, m);
        match m.data {
          case Bad =>
            AckUndecodable(seen, old(settlements), settlements, m);
            settlements := settlements + [Settlement(m, Ack)];
          case Event(isAdmin, env, entry) =>
            PassDecodable(seen, old(settlements), settlements, m);
            if isAdmin {
              adminLogs, adminMs := adminLogs + [AuditLog(entry, ADMIN_ENVIRONMENT_NAMESPACE)], adminMs + [m];
            } else {
              logs, ms := logs + [AuditLog(entry, env)], ms + [m];
            }
        }
        todo, seen := todo - {k}, seen[k := m];
      }
      assert seen == chunk;
    }

    /** Settles the messages of one group alike. `seen` are the messages settled before. */
    method SettleGroup(ms: seq<Msg>, kind: Kind, ghost seen: Pending<Data>, ghost log0: seq<Settlement<Data>>)
      requires SettledOnce(seen, log0, settlements) && Keyed(seen) && NewIds(seen, ms)
      modifies this`settlements
      ensures SettledOnce(AddAll(seen, ms), log0, settlements)
      ensures forall x, k :: Newly(log0, settlements, x, k) <==>
              Newly(log0, old(settlements), x, k) || (x in ms && k == kind)
    {
      hide SettledOnce, Newly;
      for i := 0 to |ms|
        invariant SettledOnce(AddAll(seen, ms[..i]), log0, settlements)
        invariant forall x, k :: Newly(log0, settlements, x, k) <==>
                                 Newly(log0, old(settlements), x, k) || (x in ms[..i] && k == kind)
      {
        AddAllStep(seen, ms, i);
        SettleStep(AddAll(seen, ms[..i]), log0, settlements, ms[i], kind);
        settlements := settlements + [Settlement(ms[i], kind)];
        assert ms[..i + 1] == ms[..i] + [ms[i]];
      }
      assert ms[..|ms|] == ms;
    }

    /** Stores a group, then acks all its messages, or nacks them all if the store fails. */
    method CreateAuditLogs(logs: seq<AuditLog>, ms: seq<Msg>, isAdmin: bool, stores: bool,
                           ghost seen: Pending<Data>, ghost log0: seq<Settlement<Data>>)
      requires SettledOnce(seen, log0, settlements) && Keyed(seen) && NewIds(seen, ms) && |logs| == |ms|
      modifies this
      ensures SettledOnce(AddAll(seen, ms), log0, settlements)
      ensures forall x, k :: Newly(log0, settlements, x, k) <==>
                Newly(log0, old(settlements), x, k) || (x in ms && k == if stores then Ack else Nack)
      ensures auditLogs == old(auditLogs) + if !isAdmin && stores then logs else []
      ensures adminAuditLogs == old(adminAuditLogs) + if isAdmin && stores then logs else []
    {
      if |logs| == 0 {
        return;
      }
      if !stores {
        SettleGroup(ms, Nack, seen, log0);
        return;
      }
      if isAdmin {
        adminAuditLogs := adminAuditLogs + logs;
      } else {
        auditLogs := auditLogs + logs;
      }
      SettleGroup(ms, Ack, seen, log0);
    }

    /** Every message of the chunk is settled exactly once; it is acked exactly when it does not decode
        or its own group was stored. */
    method FlushChunk(chunk: Pending<Data>, stores: bool, storesAdmin: bool)
      returns (ghost ms: seq<Msg>, ghost adminMs: seq<Msg>)
      requires Keyed(chunk)
      modifies this
      ensures SettledOnce(chunk, old(settlements), settlements)
      ensures forall m :: Newly(old(settlements), settlements, m, Ack) <==>
                Holds(chunk, m) && (m.data.Bad? || if m.data.isAdmin then storesAdmin else stores)
      ensures Lists(chunk, false, ms) && Lists(chunk, true, adminMs)
      ensures auditLogs == old(auditLogs) + if stores then LogsOf(ms) else []
      ensures adminAuditLogs == old(adminAuditLogs) + if storesAdmin then LogsOf(adminMs) else []
    {
      hide SettledOnce, Newly, Undecodable, AddAll, NewIds, LogsOf, Holds, Keyed;
      var logs, adminLogs, ms', adminMs';
      logs, adminLogs, ms', adminMs' := ExtractAuditLogs(chunk);
      ms, adminMs := ms', adminMs';
      GroupsAreNew(chunk, ms, adminMs);
      CreateAuditLogs(logs, ms', false, stores, Undecodable(chunk), old(settlements));
      CreateAuditLogs(adminLogs, adminMs', true, storesAdmin, AddAll(Undecodable(chunk), ms), old(settlements));
    }

    /** The worker's loop: it flushes exactly when a flush is due, settles exactly the messages of the batches
        and those without an id, and every delivery is accounted for. A message is nacked exactly when the
        store of its own group failed at the flush of its batch, and the logs grow by exactly the logs of the
        stored groups, flush by flush. `stores(k)` says whether the k-th flush can store environment logs and
        admin logs; `marks` and `adminMarks` are the lengths of the logs after each flush. */
    method RunWorker(flushSize: nat, signals: seq<Signal<Data>>, stores: nat -> (bool, bool))
      returns (chunk: Pending<Data>, consumed: nat, ghost displaced: set<Msg>, ghost cuts: seq<nat>,
               ghost marks: seq<nat>, ghost adminMarks: seq<nat>)
      requires flushSize > 0 && settlements == [] && DistinctDeliveries(signals)
      modifies this
      ensures consumed <= |signals| && (consumed < |signals| ==>
              signals[consumed].Closed? || signals[consumed].Cancelled?)
      ensures consumed > 0 && signals[consumed - 1].Tick? ==> chunk == map[]
      ensures Accounted(Messages(signals[..consumed]), chunk, displaced, settlements) && |chunk| < flushSize
      ensures Batched(signals, cuts, flushSize, consumed, chunk)
      ensures SettledByBatch(Messages(signals[..consumed]), signals, cuts, settlements)
      ensures NackedExactly(signals, cuts, stores, settlements)
      ensures AckedAreStored(settlements, auditLogs, adminAuditLogs)
      ensures old(auditLogs) <= auditLogs && old(adminAuditLogs) <= adminAuditLogs
      ensures StoredBy(signals, cuts, stores, false, marks, auditLogs[|old(auditLogs)|..])
      ensures StoredBy(signals, cuts, stores, true, adminMarks, adminAuditLogs[|old(adminAuditLogs)|..])
    {
      hide Accounted, AckedAreStored, Messages, DistinctDeliveries, Batched, SettledByBatch, NackedExactly, StoredBy;
      chunk, consumed, displaced, cuts, marks, adminMarks := map[], 0, {}, [], [], [];
      var flushes: nat := 0;
      ghost var logs0, adminLogs0 := auditLogs, adminAuditLogs;
      NothingDelivered(signals, flushSize, stores, auditLogs, adminAuditLogs);
      while consumed < |signals|
        invariant consumed <= |signals| && flushes == |cuts|
        invariant consumed > 0 && signals[consumed - 1].Tick? ==> chunk == map[]
        invariant Accounted(Messages(signals[..consumed]), chunk, displaced, settlements) && |chunk| < flushSize
        invariant Batched(signals, cuts, flushSize, consumed, chunk)
        invariant SettledByBatch(Messages(signals[..consumed]), signals, cuts, settlements)
        invariant NackedExactly(signals, cuts, stores, settlements)
        invariant AckedAreStored(settlements, auditLogs, adminAuditLogs)
        invariant logs0 <= auditLogs && adminLogs0 <= adminAuditLogs
        invariant StoredBy(signals, cuts, stores, false, marks, auditLogs[|logs0|..])
        invariant StoredBy(signals, cuts, stores, true, adminMarks, adminAuditLogs[|adminLogs0|..])
      {
        ghost var received := Messages(signals[..consumed]);
        MessagesNext(signals, consumed);
        match signals[consumed] {
          case Receive(msg) =>
            chunk, flushes, displaced, cuts, marks, adminMarks :=
              Take(flushSize, msg, chunk, flushes, stores, received, displaced, signals, consumed, cuts, logs0,
                   adminLogs0, marks, adminMarks);
          case Tick =>
            assert received + [] == received;
            if |chunk| > 0 {
              FlushNow(signals, cuts, flushSize, consumed, chunk, chunk);
              chunk, marks, adminMarks := Flush(chunk, stores(flushes), received, displaced, signals, stores, consumed,
                  cuts, logs0, adminLogs0, marks, adminMarks);
              cuts, flushes := cuts + [consumed + 1], flushes + 1;
            } else {
              KeepHolding(signals, cuts, flushSize, consumed, chunk, chunk);
            }
          case Closed => return;
          case Cancelled => return;
        }
        consumed := consumed + 1;
      }
    }

    /** Takes one delivery. */
    method Take(
      flushSize: nat, msg: Msg, chunk0: Pending<Data>, flushes: nat, stores: nat -> (bool, bool),
      ghost received: seq<Msg>, ghost displaced: set<Msg>, ghost signals: seq<Signal<Data>>, ghost n: nat,
      ghost cuts: seq<nat>, ghost logs0: seq<AuditLog>, ghost adminLogs0: seq<AuditLog>, ghost marks: seq<nat>,
      ghost adminMarks: seq<nat>)
      returns (chunk: Pending<Data>, flushes': nat, ghost displaced': set<Msg>, ghost cuts': seq<nat>,
               ghost marks': seq<nat>, ghost adminMarks': seq<nat>)
      requires n < |signals| && signals[n] == Receive(msg) && msg !in received && flushSize > 0 && flushes == |cuts|
      requires Accounted(received, chunk0, displaced, settlements) && |chunk0| < flushSize
      requires Batched(signals, cuts, flushSize, n, chunk0) && SettledByBatch(received, signals, cuts, settlements)
      requires NackedExactly(signals, cuts, stores, settlements)
      requires AckedAreStored(settlements, auditLogs, adminAuditLogs)
      requires logs0 <= auditLogs && adminLogs0 <= adminAuditLogs
      requires StoredBy(signals, cuts, stores, false, marks, auditLogs[|logs0|..])
      requires StoredBy(signals, cuts, stores, true, adminMarks, adminAuditLogs[|adminLogs0|..])
      modifies this
      ensures flushes' == |cuts'| && |chunk| < flushSize
      ensures Accounted(received + [msg], chunk, displaced', settlements)
      ensures Batched(signals, cuts', flushSize, n + 1, chunk)
      ensures SettledByBatch(received + [msg], signals, cuts', settlements)
      ensures NackedExactly(signals, cuts', stores, settlements)
      ensures AckedAreStored(settlements, auditLogs, adminAuditLogs)
      ensures logs0 <= auditLogs && adminLogs0 <= adminAuditLogs
      ensures StoredBy(signals, cuts', stores, false, marks', auditLogs[|logs0|..])
      ensures StoredBy(signals, cuts', stores, true, adminMarks', adminAuditLogs[|adminLogs0|..])
    {
      hide Accounted, AckedAreStored, Batched, SettledByBatch, NackedExactly, StoredBy;
      chunk, flushes', displaced', cuts', marks', adminMarks' := chunk0, flushes, displaced, cuts, marks, adminMarks;
      if msg.id == "" {
        AccountSettled(received, chunk, displaced, settlements, msg, Ack);
        AckedWithoutId(settlements, auditLogs, adminAuditLogs, msg);
        SettledWithoutId(received, signals, cuts, settlements, msg, Ack);
        AckNacksNothing(signals, cuts, stores, settlements, msg);
        settlements := settlements + [Settlement(msg, Ack)];
        KeepHolding(signals, cuts, flushSize, n, chunk0, chunk);
        return;
      }
      HoldAccounted(received, chunk, displaced, settlements, msg);
      HeldNotSettled(received, signals, cuts, settlements, msg);
      displaced' := displaced + Displaced(chunk, msg);
      chunk := chunk[msg.id := msg];
      if |chunk| >= flushSize {
        FlushNow(signals, cuts, flushSize, n, chunk0, chunk);
        chunk, marks', adminMarks' := Flush(chunk, stores(flushes), received + [msg], displaced', signals, stores, n,
            cuts, logs0, adminLogs0, marks, adminMarks);
        cuts', flushes' := cuts + [n + 1], flushes + 1;
      } else {
        KeepHolding(signals, cuts, flushSize, n, chunk0, chunk);
      }
    }

    /** Flushes the chunk and starts a new one. */
    method Flush(
      chunk: Pending<Data>, store: (bool, bool), ghost received: seq<Msg>, ghost displaced: set<Msg>,
      ghost signals: seq<Signal<Data>>, ghost stores: nat -> (bool, bool), ghost n: nat, ghost cuts: seq<nat>,
      ghost logs0: seq<AuditLog>, ghost adminLogs0: seq<AuditLog>, ghost marks: seq<nat>, ghost adminMarks: seq<nat>)
      returns (empty: Pending<Data>, ghost marks': seq<nat>, ghost adminMarks': seq<nat>)
      requires Accounted(received, chunk, displaced, settlements) && store == stores(|cuts|) && n < |signals|
      requires AckedAreStored(settlements, auditLogs, adminAuditLogs)
      requires SettledByBatch(received, signals, cuts, settlements) && NackedExactly(signals, cuts, stores, settlements)
      requires Start(cuts + [n + 1], |cuts|) <= n + 1 && Batch(signals, cuts + [n + 1], |cuts|) == chunk
      requires logs0 <= auditLogs && adminLogs0 <= adminAuditLogs
      requires StoredBy(signals, cuts, stores, false, marks, auditLogs[|logs0|..])
      requires StoredBy(signals, cuts, stores, true, adminMarks, adminAuditLogs[|adminLogs0|..])
      modifies this
      ensures empty == map[] && Accounted(received, empty, displaced, settlements)
      ensures AckedAreStored(settlements, auditLogs, adminAuditLogs)
      ensures SettledByBatch(received, signals, cuts + [n + 1], settlements)
      ensures NackedExactly(signals, cuts + [n + 1], stores, settlements)
      ensures logs0 <= auditLogs && adminLogs0 <= adminAuditLogs
      ensures StoredBy(signals, cuts + [n + 1], stores, false, marks', auditLogs[|logs0|..])
      ensures StoredBy(signals, cuts + [n + 1], stores, true, adminMarks', adminAuditLogs[|adminLogs0|..])
    {
      hide AckedAreStored, SettledOnce, Newly, Lists, SettledByBatch, NackedExactly, StoredBy, Batch, Start, LogsOf;
      ChunkKeyed(received, chunk, displaced, settlements);
      ghost var ms, adminMs;
      ms, adminMs := FlushChunk(chunk, store.0, store.1);
      AccountFlushed(received, chunk, displaced, old(settlements), settlements);
      hide Accounted;
      SettledByFlush(received, signals, cuts, n + 1, chunk, old(settlements), settlements);
      FlushNacks(signals, cuts, stores, n + 1, chunk, old(settlements), settlements);
      ListsDecode(chunk, false, ms);
      ListsDecode(chunk, true, adminMs);
      FlushStored(chunk, store, ms, adminMs, old(settlements), settlements, old(auditLogs), old(adminAuditLogs),
          auditLogs, adminAuditLogs);
      marks' := GroupAdded(signals, cuts, stores, false, marks, old(auditLogs)[|logs0|..], auditLogs[|logs0|..],
                           n + 1, chunk, ms);
      adminMarks' := GroupAdded(signals, cuts, stores, true, adminMarks, old(adminAuditLogs)[|adminLogs0|..],
                                adminAuditLogs[|adminLogs0|..], n + 1, chunk, adminMs);
      return map[], marks', adminMarks';
    }
  }

  // ----- Whole runs -----

  predicate IsStored(logs: seq<AuditLog>, adminLogs: seq<AuditLog>, m: Msg) {
    m.data.Event? && NewAuditLog(m) in if m.data.isAdmin then adminLogs else logs
  }

  ghost predicate AckedAreStored(log: seq<Settlement<Data>>, logs: seq<AuditLog>, adminLogs: seq<AuditLog>) {
    forall m :: Times(log, m, Ack) > 0 && m.data.Event? && m.id != "" ==> IsStored(logs, adminLogs, m)
  }

  /** Whether the k-th flush stores the group. */
  function StoresGroup(stores: nat -> (bool, bool), isAdmin: bool, k: nat): bool {
    if isAdmin then stores(k).1 else stores(k).0
  }

  ghost predicate FailedIn(
    signals: seq<Signal<Data>>, cuts: seq<nat>, stores: nat -> (bool, bool), k: nat, m: Msg)
  {
    InBatch(signals, cuts, k, m) && m.data.Event? && !(if m.data.isAdmin then stores(k).1 else stores(k).0)
  }

  ghost predicate NackedExactly(
    signals: seq<Signal<Data>>, cuts: seq<nat>, stores: nat -> (bool, bool), log: seq<Settlement<Data>>)
  {
    forall m :: Times(log, m, Nack) > 0 <==> exists k :: 0 <= k < |cuts| && FailedIn(signals, cuts, stores, k, m)
  }

  /** The logs are those of the decodable messages of one group of the chunk, in some order, with the
      namespace of the administrator or of the message's environment. */
  ghost predicate GroupLogs(chunk: Pending<Data>, isAdmin: bool, logs: seq<AuditLog>, ms: seq<Msg>) {
    && Lists(chunk, isAdmin, ms) && |logs| == |ms|
    && forall i :: 0 <= i < |ms| ==>
         ms[i].data.Event? && logs[i] == AuditLog(ms[i].data.entry, if isAdmin then "" else ms[i].data.env)
  }

  ghost predicate IsGroup(chunk: Pending<Data>, isAdmin: bool, logs: seq<AuditLog>) {
    exists ms :: GroupLogs(chunk, isAdmin, logs, ms)
  }

  /** What a flush adds to a log: its group, or nothing when the store fails. */
  ghost predicate StoredBy(
    signals: seq<Signal<Data>>, cuts: seq<nat>, stores: nat -> (bool, bool), isAdmin: bool, marks: seq<nat>,
    logs: seq<AuditLog>)
  {
    && |marks| == |cuts| && Start(marks, |marks|) == |logs|
    && forall k :: 0 <= k < |cuts| ==>
         && Start(marks, k) <= marks[k] <= |logs| && Start(cuts, k) <= cuts[k] <= |signals|
         && var added := logs[Start(marks, k)..marks[k]];
            if StoresGroup(stores, isAdmin, k) then IsGroup(Batch(signals, cuts, k), isAdmin, added) else added == []
  }

  lemma AckNacksNothing(
    signals: seq<Signal<Data>>, cuts: seq<nat>, stores: nat -> (bool, bool), log: seq<Settlement<Data>>, m: Msg)
    requires NackedExactly(signals, cuts, stores, log)
    ensures NackedExactly(signals, cuts, stores, log + [Settlement(m, Ack)])
  {
    hide FailedIn;
    OneMore(log, Settlement(m, Ack));
    hide Times;
  }

  lemma FlushNacks(signals: seq<Signal<Data>>, cuts: seq<nat>, stores: nat -> (bool, bool), n: nat,
                   chunk: Pending<Data>, log: seq<Settlement<Data>>, log': seq<Settlement<Data>>)
    requires NackedExactly(signals, cuts, stores, log) && SettledOnce(chunk, log, log')
    requires forall m :: Newly(log, log', m, Ack) <==>
               Holds(chunk, m) && (m.data.Bad? || if m.data.isAdmin then stores(|cuts|).1 else stores(|cuts|).0)
    requires Start(cuts + [n], |cuts|) <= n <= |signals| && Batch(signals, cuts + [n], |cuts|) == chunk
    ensures NackedExactly(signals, cuts + [n], stores, log')
  {
    hide Times, Window;
    var cuts' := cuts + [n];
    BatchesStay(signals, cuts, n);
    forall m ensures Times(log', m, Nack) > Times(log, m, Nack) <==> FailedIn(signals, cuts', stores, |cuts|, m) {
      assert Times(log', m, Ack) + Times(log', m, Nack) ==
             Times(log, m, Ack) + Times(log, m, Nack) + if Holds(chunk, m) then 1 else 0;
    }
    forall k, m | 0 <= k < |cuts|
      ensures FailedIn(signals, cuts', stores, k, m) <==> FailedIn(signals, cuts, stores, k, m)
    {
    }
    hide FailedIn, Start, Batch;
    forall m
      ensures Times(log', m, Nack) > 0 <==> exists k :: 0 <= k < |cuts'| && FailedIn(signals, cuts', stores, k, m)
    {
      if FailedIn(signals, cuts', stores, |cuts|, m) {
        assert Times(log', m, Nack) > 0;
      }
    }
  }

  lemma GroupAdded(
    signals: seq<Signal<Data>>, cuts: seq<nat>, stores: nat -> (bool, bool), isAdmin: bool, marks: seq<nat>,
    logs: seq<AuditLog>, logs': seq<AuditLog>, n: nat, chunk: Pending<Data>, ms: seq<Msg>) returns (marks': seq<nat>)
    requires StoredBy(signals, cuts, stores, isAdmin, marks, logs)
    requires Start(cuts + [n], |cuts|) <= n <= |signals| && Batch(signals, cuts + [n], |cuts|) == chunk
    requires Lists(chunk, isAdmin, ms) && forall m :: m in ms ==> m.data.Event?
    requires logs' == logs + if StoresGroup(stores, isAdmin, |cuts|) then LogsOf(ms) else []
    ensures StoredBy(signals, cuts + [n], stores, isAdmin, marks', logs')
  {
    hide Window, StoresGroup, Start, IsGroup, Lists, LogsOf;
    marks' := marks + [|logs'|];
    var cuts' := cuts + [n];
    StartsStay(cuts, n);
    StartsStay(marks, |logs'|);
    if StoresGroup(stores, isAdmin, |cuts|) {
      ListedLogs(chunk, isAdmin, ms);
    }
    forall k | 0 <= k < |cuts'|
      ensures Start(marks', k) <= marks'[k] <= |logs'| && Start(cuts', k) <= cuts'[k] <= |signals|
      ensures var added := logs'[Start(marks', k)..marks'[k]];
              if StoresGroup(stores, isAdmin, k) then IsGroup(Batch(signals, cuts', k), isAdmin, added)
              else added == []
    {
      if k < |cuts| {
        assert logs'[Start(marks, k)..marks[k]] == logs[Start(marks, k)..marks[k]];
      } else {
        assert logs'[|logs|..|logs'|] == logs'[|logs|..];
      }
    }
  }

  lemma ListedLogs(chunk: Pending<Data>, isAdmin: bool, ms: seq<Msg>)
    requires Lists(chunk, isAdmin, ms) && forall m :: m in ms ==> m.data.Event?
    ensures IsGroup(chunk, isAdmin, LogsOf(ms))
  {
    assert forall i :: 0 <= i < |ms| ==> ms[i] in ms;
    assert GroupLogs(chunk, isAdmin, LogsOf(ms), ms);
  }

  lemma NothingDelivered(signals: seq<Signal<Data>>, flushSize: nat, stores: nat -> (bool, bool), logs: seq<AuditLog>,
                         adminLogs: seq<AuditLog>)
    ensures Accounted<Data>(Messages<Data>([]), map[], {}, []) && AckedAreStored([], logs, adminLogs)
    ensures Batched(signals, [], flushSize, 0, map[]) && SettledByBatch(Messages([]), signals, [], [])
    ensures NackedExactly(signals, [], stores, [])
    ensures StoredBy(signals, [], stores, false, [], logs[|logs|..])
    ensures StoredBy(signals, [], stores, true, [], adminLogs[|adminLogs|..])
  {
    NothingBatched(signals, flushSize);
    NothingSettledYet(signals);
    hide Batched, SettledByBatch;
  }

  lemma AckedWithoutId(log: seq<Settlement<Data>>, logs: seq<AuditLog>, adminLogs: seq<AuditLog>, m: Msg)
    requires AckedAreStored(log, logs, adminLogs) && m.id == ""
    ensures AckedAreStored(log + [Settlement(m, Ack)], logs, adminLogs)
  {
  }

  lemma ChunkKeyed(received: seq<Msg>, chunk: Pending<Data>, displaced: set<Msg>, log: seq<Settlement<Data>>)
    requires Accounted(received, chunk, displaced, log)
    ensures Keyed(chunk)
  {
  }

  lemma ListsDecode(chunk: Pending<Data>, isAdmin: bool, ms: seq<Msg>)
    requires Lists(chunk, isAdmin, ms)
    ensures forall m :: m in ms ==> m.data.Event?
  {
  }

  lemma FlushStored(
    chunk: Pending<Data>, stores: (bool, bool), ms: seq<Msg>, adminMs: seq<Msg>, log: seq<Settlement<Data>>,
        log': seq<Settlement<Data>>,
    logs: seq<AuditLog>, adminLogs: seq<AuditLog>, logs': seq<AuditLog>, adminLogs': seq<AuditLog>)
    requires AckedAreStored(log, logs, adminLogs)
    requires forall m :: Newly(log, log', m, Ack) <==>
               Holds(chunk, m) && (m.data.Bad? || if m.data.isAdmin then stores.1 else stores.0)
    requires Lists(chunk, false, ms) && Lists(chunk, true, adminMs)
    requires forall m :: m in ms || m in adminMs ==> m.data.Event?
    requires logs' == logs + if stores.0 then LogsOf(ms) else []
    requires adminLogs' == adminLogs + if stores.1 then LogsOf(adminMs) else []
    ensures AckedAreStored(log', logs', adminLogs')
  {
  }

  /** `ms` under their ids, on top of `seen`. */
  function AddAll(seen: Pending<Data>, ms: seq<Msg>): Pending<Data>
    decreases |ms|
  {
    if ms == [] then seen else AddAll(seen, ms[..|ms| - 1])[ms[|ms| - 1].id := ms[|ms| - 1]]
  }

  predicate NewIds(seen: Pending<Data>, ms: seq<Msg>) {
    && (forall i, j :: 0 <= i < j < |ms| ==> ms[i].id != ms[j].id)
    && forall i :: 0 <= i < |ms| ==> ms[i].id !in seen
  }

  lemma {:induction false} AddAllKeys(seen: Pending<Data>, ms: seq<Msg>)
    requires Keyed(seen)
    ensures Keyed(AddAll(seen, ms))
    ensures forall id :: id in AddAll(seen, ms) <==> id in seen || exists i :: 0 <= i < |ms| && ms[i].id == id
    decreases |ms|
  {
    if ms != [] {
      var n := |ms| - 1;
      AddAllKeys(seen, ms[..n]);
      assert ms[n].id in AddAll(seen, ms);
      assert forall i :: 0 <= i < n ==> ms[..n][i] == ms[i];
    }
  }

  lemma AddAllStep(seen: Pending<Data>, ms: seq<Msg>, i: nat)
    requires NewIds(seen, ms) && Keyed(seen) && i < |ms|
    ensures ms[i].id !in AddAll(seen, ms[..i]) && Keyed(AddAll(seen, ms[..i]))
    ensures AddAll(seen, ms[..i + 1]) == AddAll(seen, ms[..i])[ms[i].id := ms[i]]
  {
    AddAllKeys(seen, ms[..i]);
    assert ms[..i + 1][..i] == ms[..i];
    assert forall j :: 0 <= j < i ==> ms[..i][j].id != ms[i].id;
  }

  lemma {:induction false} AddAllHolds(seen: Pending<Data>, ms: seq<Msg>)
    requires NewIds(seen, ms) && Keyed(seen)
    ensures forall m :: Holds(AddAll(seen, ms), m) <==> Holds(seen, m) || m in ms
    decreases |ms|
  {
    if ms != [] {
      var n := |ms| - 1;
      assert NewIds(seen, ms[..n]);
      AddAllHolds(seen, ms[..n]);
      assert ms[..n + 1] == ms && ms == ms[..n] + [ms[n]];
      AddAllStep(seen, ms, n);
      HoldMore(AddAll(seen, ms[..n]), ms[n]);
    }
  }

  lemma SameMessages(a: Pending<Data>, b: Pending<Data>)
    requires Keyed(a) && Keyed(b) && forall m :: Holds(a, m) <==> Holds(b, m)
    ensures a == b
  {
    forall k ensures (k in a <==> k in b) && (k in a ==> a[k] == b[k]) {
      if k in a {
        assert Holds(a, a[k]);
      }
      if k in b {
        assert Holds(b, b[k]);
      }
    }
  }

  lemma GroupNewIds(chunk: Pending<Data>, isAdmin: bool, ms: seq<Msg>)
    requires Keyed(chunk) && Lists(chunk, isAdmin, ms)
    ensures NewIds(Undecodable(chunk), ms)
  {
  }

  /** The undecodable messages and the two groups make up the chunk, without overlap. */
  lemma GroupsAreNew(chunk: Pending<Data>, ms: seq<Msg>, adminMs: seq<Msg>)
    requires Keyed(chunk) && Lists(chunk, false, ms) && Lists(chunk, true, adminMs)
    ensures Keyed(Undecodable(chunk)) && NewIds(Undecodable(chunk), ms)
    ensures Keyed(AddAll(Undecodable(chunk), ms)) && NewIds(AddAll(Undecodable(chunk), ms), adminMs)
    ensures AddAll(AddAll(Undecodable(chunk), ms), adminMs) == chunk
  {
    var bad := Undecodable(chunk);
    GroupNewIds(chunk, false, ms);
    GroupNewIds(chunk, true, adminMs);
    AddAllKeys(bad, ms);
    AddAllHolds(bad, ms);
    forall i | 0 <= i < |adminMs| ensures adminMs[i].id !in AddAll(bad, ms) {
      assert adminMs[i] in adminMs;
      forall k | k in AddAll(bad, ms) ensures k != adminMs[i].id {
        assert Holds(AddAll(bad, ms), AddAll(bad, ms)[k]);
      }
    }
    AddAllKeys(AddAll(bad, ms), adminMs);
    AddAllHolds(AddAll(bad, ms), adminMs);
    SameMessages(AddAll(AddAll(bad, ms), adminMs), chunk);
  }

  lemma NothingExtracted(log: seq<Settlement<Data>>)
    ensures AckedUndecodable(map[], log, log) && Lists(map[], false, []) && Lists(map[], true, [])
  {
  }
}
