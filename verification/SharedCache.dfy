/** A cache that several workers and services write at once, seen from one of them: its own puts and the
    puts of everybody else, in the order in which the cache takes them. */
module SharedCache {
  import opened Wrappers

  datatype Put<V> = Put(own: bool, key: string, value: V)

  /** What everybody else puts at a moment, between two calls of the worker. */
  type Others<V> = nat -> seq<Put<V>>

  function Foreign<V>(puts: seq<Put<V>>): (r: seq<Put<V>>)
    ensures |r| == |puts| && forall i :: 0 <= i < |r| ==> r[i] == puts[i].(own := false)
  {
    seq(|puts|, i requires 0 <= i < |puts| => puts[i].(own := false))
  }

  function Applied<V>(cache: map<string, V>, log: seq<Put<V>>): map<string, V>
    decreases |log|
  {
    if log == [] then cache
    else Applied(cache, log[..|log| - 1])[log[|log| - 1].key := log[|log| - 1].value]
  }

  /** The last put of the key. */
  function LastPut<V>(log: seq<Put<V>>, key: string): (r: Option<Put<V>>)
    ensures r.Some? ==> r.value in log && r.value.key == key
    ensures r.None? ==> forall p :: p in log ==> p.key != key
  {
    if log == [] then None
    else
      var n := |log| - 1;
      assert log == log[..n] + [log[n]];
      if log[n].key == key then Some(log[n]) else LastPut(log[..n], key)
  }

  lemma {:induction false} LastPutConcat<V>(a: seq<Put<V>>, b: seq<Put<V>>, key: string)
    ensures LastPut(a + b, key) == if LastPut(b, key).Some? then LastPut(b, key) else LastPut(a, key)
    decreases |b|
  {
    if b == [] {
      assert a + b == a;
    } else {
      assert (a + b)[..|a + b| - 1] == a + b[..|b| - 1];
      LastPutConcat(a, b[..|b| - 1], key);
    }
  }

  /** The cache holds for each key what was put last, and otherwise what it held before. */
  lemma {:induction false} AppliedExactly<V>(cache: map<string, V>, log: seq<Put<V>>, key: string)
    ensures match LastPut(log, key)
            case Some(p) => key in Applied(cache, log) && Applied(cache, log)[key] == p.value
            case None =>
              && (key in Applied(cache, log) <==> key in cache)
              && (key in cache ==> Applied(cache, log)[key] == cache[key])
    decreases |log|
  {
    if log != [] {
      AppliedExactly(cache, log[..|log| - 1], key);
    }
  }

  lemma {:induction false} AppliedConcat<V>(cache: map<string, V>, a: seq<Put<V>>, b: seq<Put<V>>)
    ensures Applied(cache, a + b) == Applied(Applied(cache, a), b)
    decreases |b|
  {
    if b == [] {
      assert a + b == a;
    } else {
      assert (a + b)[..|a + b| - 1] == a + b[..|b| - 1];
      AppliedConcat(cache, a, b[..|b| - 1]);
    }
  }

  lemma AppliedOne<V>(cache: map<string, V>, log: seq<Put<V>>, p: Put<V>)
    ensures Applied(cache, log + [p]) == Applied(cache, log)[p.key := p.value]
  {
    assert (log + [p])[..|log|] == log;
  }

  function OwnPuts<V(!new)>(log: seq<Put<V>>): (r: seq<Put<V>>)
    ensures forall p :: p in r <==> p in log && p.own
    decreases |log|
  {
    if log == [] then []
    else
      var n := |log| - 1;
      assert log == log[..n] + [log[n]];
      OwnPuts(log[..n]) + if log[n].own then [log[n]] else []
  }

  lemma {:induction false} OwnPutsConcat<V(!new)>(a: seq<Put<V>>, b: seq<Put<V>>)
    ensures OwnPuts(a + b) == OwnPuts(a) + OwnPuts(b)
    decreases |b|
  {
    if b == [] {
      assert a + b == a;
    } else {
      assert (a + b)[..|a + b| - 1] == a + b[..|b| - 1];
      OwnPutsConcat(a, b[..|b| - 1]);
    }
  }

  lemma OwnPutsForeign<V(!new)>(log: seq<Put<V>>, puts: seq<Put<V>>)
    ensures OwnPuts(log + Foreign(puts)) == OwnPuts(log)
  {
    OwnPutsConcat(log, Foreign(puts));
    NoOwnPuts(Foreign(puts));
  }

  lemma {:induction false} NoOwnPuts<V(!new)>(log: seq<Put<V>>)
    ensures (forall p :: p in log ==> !p.own) <==> OwnPuts(log) == []
    decreases |log|
  {
    if log != [] {
      var n := |log| - 1;
      assert log == log[..n] + [log[n]];
      NoOwnPuts(log[..n]);
    }
  }

  lemma OwnPutsOne<V(!new)>(log: seq<Put<V>>, p: Put<V>)
    ensures OwnPuts(log + [p]) == OwnPuts(log) + if p.own then [p] else []
  {
    assert (log + [p])[..|log|] == log;
  }

  /** When the worker alone puts the key, its last own put is the last of all. */
  lemma {:induction false} LastPutOfOwn<V(!new)>(log: seq<Put<V>>, key: string)
    requires forall p :: p in log && p.key == key ==> p.own
    ensures LastPut(log, key) == LastPut(OwnPuts(log), key)
    decreases |log|
  {
    if log != [] {
      var n := |log| - 1;
      assert log == log[..n] + [log[n]];
      var own := OwnPuts(log[..n]);
      assert forall p :: p in log[..n] ==> p in log;
      LastPutOfOwn(log[..n], key);
      assert OwnPuts(log) == own + if log[n].own then [log[n]] else [];
      hide OwnPuts;
      LastPutConcat(log[..n], [log[n]], key);
      LastPutConcat(own, [log[n]], key);
      LastPutConcat(own, [], key);
      LastOfOne(log[n], key);
    }
  }

  lemma LastOfOne<V>(p: Put<V>, key: string)
    ensures LastPut([p], key) == if p.key == key then Some(p) else None
  {
    assert [p][..0] == [];
  }

  /** A log of own puts only. */
  lemma {:induction false} AllOwn<V(!new)>(log: seq<Put<V>>)
    ensures OwnPuts(log) == log <==> forall p :: p in log ==> p.own
    ensures |OwnPuts(log)| <= |log|
    decreases |log|
  {
    if log != [] {
      var n := |log| - 1;
      assert log == log[..n] + [log[n]];
      AllOwn(log[..n]);
      if OwnPuts(log) == log {
        assert OwnPuts(log)[n] == log[n];
        assert log[n].own;
        assert OwnPuts(log)[..n] == OwnPuts(log[..n]);
      }
    }
  }

  /** Every foreign put of the log was made by the others at some moment before. */
  ghost predicate FromOthers<V(!new)>(log: seq<Put<V>>, others: Others<V>, now: nat) {
    forall p :: p in log && !p.own ==> exists t :: 0 <= t < now && p in Foreign(others(t))
  }

  /** Everybody else's puts of one moment. */
  lemma OthersPut<V(!new)>(initial: map<string, V>, log: seq<Put<V>>, others: Others<V>, now: nat)
    requires FromOthers(log, others, now)
    ensures FromOthers(log + Foreign(others(now)), others, now + 1) && FromOthers(log, others, now + 1)
    ensures Applied(initial, log + Foreign(others(now))) == Applied(Applied(initial, log), Foreign(others(now)))
    ensures OwnPuts(log + Foreign(others(now))) == OwnPuts(log)
  {
    OwnPutsForeign(log, others(now));
    AppliedConcat(initial, log, Foreign(others(now)));
    hide Applied, OwnPuts;
  }

  /** One put of the worker. */
  lemma OwnPut<V(!new)>(initial: map<string, V>, log: seq<Put<V>>, others: Others<V>, now: nat, p: Put<V>)
    requires FromOthers(log, others, now) && p.own
    ensures FromOthers(log + [p], others, now)
    ensures Applied(initial, log + [p]) == Applied(initial, log)[p.key := p.value]
    ensures OwnPuts(log + [p]) == OwnPuts(log) + [p]
  {
    AppliedOne(initial, log, p);
    OwnPutsOne(log, p);
    hide Applied, OwnPuts;
  }
}
