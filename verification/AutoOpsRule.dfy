/** An auto-ops rule: a non-empty list of clauses, edited in place, that fires once until an edit
    re-arms it. */
module AutoOpsRule {

  datatype OpsType = EnableFeature | DisableFeature

  datatype Body = OpsEventRate(goalId: string) | Datetime(time: int) | Webhook(webhookId: string)

  datatype Clause = Clause(id: string, body: Body)

  /** The stored value of a rule. */
  datatype Row = Row(opsType: OpsType, clauses: seq<Clause>, triggeredAt: int, updatedAt: int, deleted: bool)

  datatype DeleteResult = Deleted | ClauseEmpty | ClauseNotFound

  function Ids(clauses: seq<Clause>): (ids: seq<string>)
    ensures |ids| == |clauses| && forall i :: 0 <= i < |clauses| ==> ids[i] == clauses[i].id
  {
    seq(|clauses|, i requires 0 <= i < |clauses| => clauses[i].id)
  }

  predicate DistinctIds(clauses: seq<Clause>) {
    forall i, j :: 0 <= i < j < |clauses| ==> clauses[i].id != clauses[j].id
  }

  /** The clauses other than the named one, in order. */
  function Without(clauses: seq<Clause>, id: string): seq<Clause> {
    if clauses == [] then []
    else (if clauses[0].id == id then [] else [clauses[0]]) + Without(clauses[1..], id)
  }

  /** The clauses with the body of the named one replaced. */
  function WithBody(clauses: seq<Clause>, id: string, body: Body): (r: seq<Clause>)
    ensures |r| == |clauses|
    ensures forall i :: 0 <= i < |r| ==> r[i] == if clauses[i].id == id then Clause(id, body) else clauses[i]
  {
    seq(|clauses|, i requires 0 <= i < |clauses| => if clauses[i].id == id then Clause(id, body) else clauses[i])
  }

  lemma {:induction false} WithoutAbsent(clauses: seq<Clause>, id: string)
    requires id !in Ids(clauses)
    ensures Without(clauses, id) == clauses
  {
    if clauses != [] {
      assert Ids(clauses)[0] == clauses[0].id;
      assert Ids(clauses[1..]) == Ids(clauses)[1..];
      WithoutAbsent(clauses[1..], id);
    }
  }

  predicate OnlyAt(clauses: seq<Clause>, k: nat)
    requires k < |clauses|
  {
    forall j :: 0 <= j < |clauses| && j != k ==> clauses[j].id != clauses[k].id
  }

  lemma {:induction false} WithoutAt(clauses: seq<Clause>, k: nat)
    requires k < |clauses| && OnlyAt(clauses, k)
    ensures Without(clauses, clauses[k].id) == clauses[..k] + clauses[k + 1..]
  {
    var tail := clauses[1..];
    if k == 0 {
      OnlyFirst(clauses);
      WithoutAbsent(tail, clauses[0].id);
    } else {
      OnlyInTail(clauses, k);
      hide OnlyAt, Ids;
      WithoutAt(tail, k - 1);
      assert tail[k - 1] == clauses[k];
      assert [clauses[0]] + (tail[..k - 1] + tail[k..]) == clauses[..k] + clauses[k + 1..];
    }
  }

  lemma OnlyFirst(clauses: seq<Clause>)
    requires 0 < |clauses| && OnlyAt(clauses, 0)
    ensures clauses[0].id !in Ids(clauses[1..])
  {
  }

  lemma OnlyInTail(clauses: seq<Clause>, k: nat)
    requires 0 < k < |clauses| && OnlyAt(clauses, k)
    ensures OnlyAt(clauses[1..], k - 1) && clauses[0].id != clauses[k].id
  {
  }

  lemma RemovedAt(all: seq<Clause>, at: nat, rest: seq<Clause>)
    requires at < |all| && OnlyAt(all, at) && |rest| == |all| - 1
    requires forall k :: 0 <= k < at ==> rest[k] == all[k]
    requires forall k :: at <= k < |rest| ==> rest[k] == all[k + 1]
    ensures rest == Without(all, all[at].id) && all[at].id in Ids(all)
  {
    hide OnlyAt, Without;
    WithoutAt(all, at);
    assert rest == all[..at] + all[at + 1..];
    assert Ids(all)[at] == all[at].id;
  }

  /** The loaded rule. `Clauses` is a Go slice: the first `len` cells of a shared backing array. */
  class Rule {
    var opsType: OpsType
    var backing: array<Clause>
    var len: nat
    var triggeredAt: int
    var updatedAt: int
    var deleted: bool

    ghost predicate Valid()
      reads this
    {
      len <= backing.Length
    }

    function Value(): Row
      requires Valid()
      reads this, backing
    {
      Row(opsType, backing[..len], triggeredAt, updatedAt, deleted)
    }

    constructor Load(row: Row)
      ensures Valid() && Value() == row && fresh(backing)
    {
      opsType, triggeredAt, updatedAt, deleted := row.opsType, row.triggeredAt, row.updatedAt, row.deleted;
      len := |row.clauses|;
      backing := new Clause[|row.clauses|](i requires 0 <= i < |row.clauses| => row.clauses[i]);
    }

    method SetTriggeredAt(now: int)
      requires Valid()
      modifies this`triggeredAt, this`updatedAt
      ensures Valid() && Value() == old(Value()).(triggeredAt := now, updatedAt := now)
    {
      triggeredAt, updatedAt := now, now;
    }

    method SetDeleted(now: int)
      requires Valid()
      modifies this`deleted, this`updatedAt
      ensures Valid() && Value() == old(Value()).(deleted := true, updatedAt := now)
    {
      deleted, updatedAt := true, now;
    }

    method SetOpsType(t: OpsType, now: int)
      requires Valid()
      modifies this`opsType, this`updatedAt, this`triggeredAt
      ensures Valid() && Value() == old(Value()).(opsType := t, updatedAt := now, triggeredAt := 0)
    {
      opsType, updatedAt, triggeredAt := t, now, 0;
    }

    /** Appends in place when the backing array has room, otherwise into a larger copy. */
    method AddClause(c: Clause, now: int)
      requires Valid()
      modifies this, backing
      ensures Valid() && (backing == old(backing) || fresh(backing))
      ensures Value() == old(Value()).(clauses := old(Value()).clauses + [c], updatedAt := now, triggeredAt := 0)
    {
      if len == backing.Length {
        var bigger := new Clause[2 * len + 1](_ => c);
        forall i | 0 <= i < len {
          bigger[i] := backing[i];
        }
        assert bigger[..len] == backing[..len];
        backing := bigger;
      }
      backing[len] := c;
      len, updatedAt, triggeredAt := len + 1, now, 0;
    }

    /** Touches the rule even when the clause is not found. */
    method ChangeClause(id: string, body: Body, now: int) returns (ok: bool)
      requires Valid() && DistinctIds(Value().clauses)
      modifies this`updatedAt, this`triggeredAt, backing
      ensures Valid()
      ensures ok <==> id in Ids(old(Value()).clauses)
      ensures Value() == old(Value()).(clauses := WithBody(old(Value()).clauses, id, body), updatedAt := now,
              triggeredAt := 0)
    {
      updatedAt, triggeredAt := now, 0;
      ghost var clauses := backing[..len];
      for i := 0 to len
        invariant backing[..len] == clauses
        invariant forall k :: 0 <= k < i ==> clauses[k].id != id
      {
        if backing[i].id == id {
          assert Ids(clauses)[i] == id;
          backing[i] := Clause(id, body);
          assert backing[..len] == WithBody(clauses, id, body);
          return true;
        }
      }
      assert WithBody(clauses, id, body) == clauses;
      return false;
    }

    /** Go's append(Clauses[:i], Clauses[i+1:]...): the result is shorter than the backing array, so
        the tail is moved down inside it. */
    method ShiftDown(i: nat)
      requires Valid() && i < len
      modifies backing
      ensures forall k :: 0 <= k < i ==> backing[k] == old(backing[k])
      ensures forall k :: i <= k < len - 1 ==> backing[k] == old(backing[k + 1])
      ensures backing[len - 1] == old(backing[len - 1])
    {
      for j := i to len - 1
        invariant forall k :: 0 <= k < i || j <= k < len ==> backing[k] == old(backing[k])
        invariant forall k :: i <= k < j ==> backing[k] == old(backing[k + 1])
      {
        backing[j] := backing[j + 1];
      }
    }

    /** The loop of DeleteClause: it shifts the shared backing array while it still ranges over it. */
    method RemoveWhileRanging(id: string) returns (clauses: nat)
      requires Valid() && DistinctIds(backing[..len])
      modifies backing
      ensures id in Ids(old(backing[..len])) ==>
              clauses == len - 1 && backing[..clauses] == Without(old(backing[..len]), id)
      ensures id !in Ids(old(backing[..len])) ==> clauses == 0 && backing[..len] == old(backing[..len])
    {
      hide Without;
      ghost var all := backing[..len];
      ghost var at: int := -1;
      clauses := 0;
      for i := 0 to len
        invariant -1 <= at < i
        invariant at == -1 ==> clauses == 0 && forall k :: 0 <= k < |all| ==> backing[k] == all[k]
        invariant at == -1 ==> forall k :: 0 <= k < i ==> all[k].id != id
        invariant at >= 0 ==> clauses == |all| - 1 && all[at].id == id && backing[|all| - 1] == all[|all| - 1]
        invariant forall k :: 0 <= k < at ==> backing[k] == all[k]
        invariant at >= 0 ==> forall k :: at <= k < |all| - 1 ==> backing[k] == all[k + 1]
      {
        if backing[i].id == id {
          ShiftDown(i);
          clauses := len - 1;
          at := i;
        }
      }
      if at >= 0 {
        RemovedAt(all, at, backing[..clauses]);
      }
    }

    /** Removes exactly the named clause and keeps the order of the rest. */
    method DeleteClause(id: string, now: int) returns (r: DeleteResult)
      requires Valid() && DistinctIds(Value().clauses)
      modifies this`len, this`updatedAt, this`triggeredAt, backing
      ensures Valid()
      ensures r == ClauseEmpty <==> |old(Value()).clauses| <= 1
      ensures r == ClauseEmpty ==> Value() == old(Value())
      ensures r == Deleted <==> |old(Value()).clauses| > 1 && id in Ids(old(Value()).clauses)
      ensures r != ClauseEmpty ==>
              Value() == old(Value()).(clauses := Without(old(Value()).clauses, id), updatedAt := now, triggeredAt := 0)
    {
      if len <= 1 {
        return ClauseEmpty;
      }
      updatedAt, triggeredAt := now, 0;
      ghost var all := backing[..len];
      var clauses := RemoveWhileRanging(id);
      if clauses > 0 {
        len := clauses;
        return Deleted;
      }
      WithoutAbsent(all, id);
      return ClauseNotFound;
    }
  }
}
