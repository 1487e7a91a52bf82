/** The event counter's API: one count record per requested variation, read from the rows of a table. */
module VariationCounts {
  import opened DruidColumns
  import opened DruidJoin
  import opened Wrappers

  datatype VariationCount = VariationCount(
    variationId: string, eventCount: int, userCount: int, valueSum: real, valueMean: real, valueVariance: real)

  function Zero(id: string): VariationCount {
    VariationCount(id, 0, 0, 0.0, 0.0, 0.0)
  }

  /** int64 of a float64 truncates towards zero. */
  function Truncated(r: real): (i: int)
    ensures if r >= 0.0 then i as real <= r < i as real + 1.0 else i as real - 1.0 < r <= i as real
  {
    if r >= 0.0 then r.Floor else -((-r).Floor)
  }

  // ----- What a record should hold -----

  const EVENTS := ["Evaluation total", "Goal total"]
  const USERS := [COLUMN_EVALUATION_USER, COLUMN_GOAL_USER]

  function Whole(c: Cell): int {
    Truncated(c.valueDouble)
  }

  function Amount(c: Cell): real {
    c.valueDouble
  }

  /** The value under the last column with one of these names, if there is one. */
  function Under<A>(header: seq<string>, row: Row, names: seq<string>, f: Cell -> A, otherwise: A): A
    requires |row| == |header|
  {
    if header == [] then otherwise
    else
      var n := |header| - 1;
      if header[n] in names then f(row[n]) else Under(header[..n], row[..n], names, f, otherwise)
  }

  lemma {:induction false} UnderMeans<A>(header: seq<string>, row: Row, names: seq<string>, f: Cell -> A, otherwise: A,
      i: nat)
    requires |row| == |header|
    ensures (forall k :: 0 <= k < |header| ==> header[k] !in names) ==>
            Under(header, row, names, f, otherwise) == otherwise
    ensures i < |header| && header[i] in names && (forall k :: i < k < |header| ==> header[k] !in names) ==>
              Under(header, row, names, f, otherwise) == f(row[i])
  {
    if header != [] {
      UnderMeans(header[..|header| - 1], row[..|header| - 1], names, f, otherwise, i);
    }
  }

  /** The record of a variation after a row of its own; what the table has no column for is left alone. */
  function Filled(header: seq<string>, row: Row, vc: VariationCount): VariationCount
    requires |row| == |header|
  {
    VariationCount(
      vc.variationId,
      Under(header, row, EVENTS, Whole, vc.eventCount),
      Under(header, row, USERS, Whole, vc.userCount),
      Under(header, row, ["Goal value total"], Amount, vc.valueSum),
      Under(header, row, ["Goal value mean"], Amount, vc.valueMean),
      Under(header, row, ["Goal value variance"], Amount, vc.valueVariance))
  }

  /** The last column with one of the names, if there is one. */
  predicate LastColumn(header: seq<string>, names: seq<string>, i: int) {
    0 <= i < |header| && header[i] in names && forall k :: i < k < |header| ==> header[k] !in names
  }

  predicate NoColumn(header: seq<string>, names: seq<string>) {
    forall k :: 0 <= k < |header| ==> header[k] !in names
  }

  /** Each field is the cell under that field's own column, the last one of that name, and zero without
      one. */
  ghost predicate ReadFrom(header: seq<string>, row: Row, vc: VariationCount)
    requires |row| == |header|
  {
    && (forall i :: LastColumn(header, ["Evaluation total", "Goal total"], i) ==>
          vc.eventCount == Truncated(row[i].valueDouble))
    && (forall i :: LastColumn(header, ["Evaluation user", "Goal user"], i) ==>
          vc.userCount == Truncated(row[i].valueDouble))
    && (forall i :: LastColumn(header, ["Goal value total"], i) ==> vc.valueSum == row[i].valueDouble)
    && (forall i :: LastColumn(header, ["Goal value mean"], i) ==> vc.valueMean == row[i].valueDouble)
    && (forall i :: LastColumn(header, ["Goal value variance"], i) ==> vc.valueVariance == row[i].valueDouble)
    && (NoColumn(header, ["Evaluation total", "Goal total"]) ==> vc.eventCount == 0)
    && (NoColumn(header, ["Evaluation user", "Goal user"]) ==> vc.userCount == 0)
    && (NoColumn(header, ["Goal value total"]) ==> vc.valueSum == 0.0)
    && (NoColumn(header, ["Goal value mean"]) ==> vc.valueMean == 0.0)
    && (NoColumn(header, ["Goal value variance"]) ==> vc.valueVariance == 0.0)
  }

  lemma UnderLast<A>(header: seq<string>, row: Row, names: seq<string>, f: Cell -> A, otherwise: A)
    requires |row| == |header|
    ensures NoColumn(header, names) ==> Under(header, row, names, f, otherwise) == otherwise
    ensures forall i :: LastColumn(header, names, i) ==> Under(header, row, names, f, otherwise) == f(row[i])
  {
    UnderMeans(header, row, names, f, otherwise, 0);
    forall i | LastColumn(header, names, i) ensures Under(header, row, names, f, otherwise) == f(row[i]) {
      UnderMeans(header, row, names, f, otherwise, i);
    }
  }

  lemma FilledReads(header: seq<string>, row: Row, id: string)
    requires |row| == |header|
    ensures ReadFrom(header, row, Filled(header, row, Zero(id)))
  {
    hide Under, LastColumn, NoColumn, Truncated;
    UnderLast(header, row, EVENTS, Whole, 0);
    UnderLast(header, row, USERS, Whole, 0);
    UnderLast(header, row, ["Goal value total"], Amount, 0.0);
    UnderLast(header, row, ["Goal value mean"], Amount, 0.0);
    UnderLast(header, row, ["Goal value variance"], Amount, 0.0);
    assert EVENTS == ["Evaluation total", "Goal total"] && USERS == ["Evaluation user", "Goal user"];
  }

  /** The last row of the variation, if there is one. */
  predicate LastRow(rows: seq<Row>, column: nat, id: string, k: int)
    requires forall i :: 0 <= i < |rows| ==> column < |rows[i]|
  {
    0 <= k < |rows| && rows[k][column].value == id && forall j :: k < j < |rows| ==> rows[j][column].value != id
  }

  predicate NoRow(rows: seq<Row>, column: nat, id: string)
    requires forall i :: 0 <= i < |rows| ==> column < |rows[i]|
  {
    forall j :: 0 <= j < |rows| ==> rows[j][column].value != id
  }

  /** A record holds what the last row of its variation shows, and zeros without one. */
  ghost predicate ReadFromRows(header: seq<string>, rows: seq<Row>, column: nat, vc: VariationCount)
    requires column < |header| && forall i :: 0 <= i < |rows| ==> |rows[i]| == |header|
  {
    && (forall k :: LastRow(rows, column, vc.variationId, k) ==> ReadFrom(header, rows[k], vc))
    && (NoRow(rows, column, vc.variationId) ==> vc == VariationCount(vc.variationId, 0, 0, 0.0, 0.0, 0.0))
  }

  lemma CountReads(header: seq<string>, rows: seq<Row>, column: nat, id: string)
    requires column < |header| && forall i :: 0 <= i < |rows| ==> |rows[i]| == |header|
    ensures ReadFromRows(header, rows, column, CountOf(header, rows, column, id))
  {
    hide ReadFrom, Filled, LastIndex;
    var vids := VariationsOf(header, rows, column);
    var last := LastIndex(vids, id);
    assert forall j :: 0 <= j < |rows| ==> vids[j] == rows[j][column].value;
    if last >= 0 {
      assert rows[last][column].value == id;
      FilledReads(header, rows[last], id);
    }
    forall k | LastRow(rows, column, id, k) ensures k == last {
    }
  }

  function VariationsOf(header: seq<string>, rows: seq<Row>, column: nat): seq<string>
    requires column < |header| && forall i :: 0 <= i < |rows| ==> |rows[i]| == |header|
  {
    seq(|rows|, i requires 0 <= i < |rows| => rows[i][column].value)
  }

  /** The values of the variation's last row, zero if it has none. */
  function CountOf(header: seq<string>, rows: seq<Row>, column: nat, id: string): (vc: VariationCount)
    requires column < |header| && forall i :: 0 <= i < |rows| ==> |rows[i]| == |header|
    ensures vc.variationId == id
  {
    var last := LastIndex(VariationsOf(header, rows, column), id);
    if last < 0 then Zero(id) else Filled(header, rows[last], Zero(id))
  }

  lemma {:induction false} UnderOverwrites<A>(header: seq<string>, row: Row, row': Row, names: seq<string>,
      f: Cell -> A, d: A)
    requires |row| == |header| == |row'|
    ensures Under(header, row', names, f, Under(header, row, names, f, d)) == Under(header, row', names, f, d)
  {
    UnderDefault(header, row, row', names, f, d, Under(header, row, names, f, d));
    if header != [] && header[|header| - 1] !in names {
      var n := |header| - 1;
      UnderOverwrites(header[..n], row[..n], row'[..n], names, f, d);
    }
  }

  /** Whether the default is used depends on the header alone. */
  lemma {:induction false} UnderDefault<A>(header: seq<string>, row: Row, row': Row, names: seq<string>, f: Cell -> A,
      d: A, d': A)
    requires |row| == |header| == |row'|
    ensures Under(header, row', names, f, d) == Under(header, row', names, f, d')
            || (Under(header, row', names, f, d) == d && Under(header, row, names, f, d') == d')
  {
    if header != [] {
      var n := |header| - 1;
      UnderDefault(header[..n], row[..n], row'[..n], names, f, d, d');
    }
  }

  /** A later row of the same variation leaves nothing of an earlier one. */
  lemma FilledTwice(header: seq<string>, row: Row, row': Row, vc: VariationCount)
    requires |row| == |header| == |row'|
    ensures Filled(header, row', Filled(header, row, vc)) == Filled(header, row', vc)
  {
    hide Under;
    UnderOverwrites(header, row, row', EVENTS, Whole, vc.eventCount);
    UnderOverwrites(header, row, row', USERS, Whole, vc.userCount);
    UnderOverwrites(header, row, row', ["Goal value total"], Amount, vc.valueSum);
    UnderOverwrites(header, row, row', ["Goal value mean"], Amount, vc.valueMean);
    UnderOverwrites(header, row, row', ["Goal value variance"], Amount, vc.valueVariance);
  }

  // ----- Order -----

  /** Go's order on strings. */
  predicate Less(a: string, b: string) {
    b != [] && (a == [] || a[0] < b[0] || (a[0] == b[0] && Less(a[1..], b[1..])))
  }

  /** The strings agree up to `k`, where the first ends or has the smaller character. */
  predicate LessAt(a: string, b: string, k: nat) {
    k <= |a| && k < |b| && a[..k] == b[..k] && (k == |a| || a[k] < b[k])
  }

  lemma LessAtHead(a: string, b: string, k: nat)
    requires LessAt(a, b, k)
    ensures k == 0 || (a != [] && b != [] && a[0] == b[0])
  {
    if k > 0 {
      assert a[..k][0] == a[0] && b[..k][0] == b[0];
    }
  }

  lemma {:induction false} LessExactly(a: string, b: string)
    ensures Less(a, b) <==> exists k: nat :: LessAt(a, b, k)
  {
    if a != [] && b != [] && a[0] == b[0] {
      LessExactly(a[1..], b[1..]);
      if k: nat :| LessAt(a[1..], b[1..], k) {
        assert a[..k + 1] == [a[0]] + a[1..][..k] && b[..k + 1] == [b[0]] + b[1..][..k];
        assert LessAt(a, b, k + 1);
      }
      if k: nat :| LessAt(a, b, k) {
        assert k > 0;
        assert a[1..][..k - 1] == a[..k][1..] && b[1..][..k - 1] == b[..k][1..];
        assert LessAt(a[1..], b[1..], k - 1);
      }
    } else {
      if Less(a, b) {
        assert LessAt(a, b, 0);
      }
      if k: nat :| LessAt(a, b, k) {
        LessAtHead(a, b, k);
      }
    }
  }

  lemma LessTotal(a: string, b: string)
    ensures Less(a, b) || a == b || Less(b, a)
    ensures !(Less(a, b) && Less(b, a)) && !Less(a, a)
  {
  }

  lemma {:induction false} LessTransitive(a: string, b: string, c: string)
    requires Less(a, b) && Less(b, c)
    ensures Less(a, c)
  {
    if a != [] && a[0] == b[0] == c[0] {
      LessTransitive(a[1..], b[1..], c[1..]);
    }
  }

  predicate StrictlySorted(vcs: seq<VariationCount>) {
    forall i, j :: 0 <= i < j < |vcs| ==> Less(vcs[i].variationId, vcs[j].variationId)
  }

  /** There is only one strictly sorted list of given records, so the order in which the map is ranged
      over does not matter. */
  lemma {:induction false} SortedUnique(a: seq<VariationCount>, b: seq<VariationCount>)
    requires StrictlySorted(a) && StrictlySorted(b)
    requires forall vc :: vc in a <==> vc in b
    ensures a == b
  {
    assert a != [] ==> a[0] in a && a[0] in b;
    assert b != [] ==> b[0] in b && b[0] in a;
    if a != [] && b != [] {
      var i :| 0 <= i < |b| && b[i] == a[0];
      var j :| 0 <= j < |a| && a[j] == b[0];
      LessTotal(a[0].variationId, b[0].variationId);
      assert a[0] == b[0];
      forall vc ensures vc in a[1..] <==> vc in b[1..] {
        LessTotal(a[0].variationId, a[0].variationId);
        assert vc in a[1..] ==> vc in a && vc != a[0];
        assert vc in b[1..] ==> vc in b && vc != b[0];
      }
      SortedUnique(a[1..], b[1..]);
    }
  }

  function Inserted(vcs: seq<VariationCount>, vc: VariationCount): (r: seq<VariationCount>)
    ensures forall v :: v in r <==> v in vcs || v == vc
  {
    if vcs == [] then [vc]
    else
      var n := |vcs| - 1;
      assert vcs == vcs[..n] + [vcs[n]];
      if Less(vc.variationId, vcs[n].variationId) then Inserted(vcs[..n], vc) + [vcs[n]] else vcs + [vc]
  }

  lemma {:induction false} InsertedSorted(vcs: seq<VariationCount>, vc: VariationCount)
    requires StrictlySorted(vcs) && forall v :: v in vcs ==> v.variationId != vc.variationId
    ensures StrictlySorted(Inserted(vcs, vc))
  {
    if vcs != [] {
      var n := |vcs| - 1;
      var last := vcs[n];
      if Less(vc.variationId, last.variationId) {
        InsertedSorted(vcs[..n], vc);
        var r := Inserted(vcs[..n], vc);
        forall i | 0 <= i < |r| ensures Less(r[i].variationId, last.variationId) {
          assert r[i] in r;
        }
      } else {
        LessTotal(vc.variationId, last.variationId);
        assert last in vcs;
        forall i | 0 <= i < n ensures Less(vcs[i].variationId, vc.variationId) {
          LessTransitive(vcs[i].variationId, last.variationId, vc.variationId);
        }
      }
    }
  }

  /** The standard library's sort, for records with distinct ids. */
  method SortStable(vcs: seq<VariationCount>) returns (r: seq<VariationCount>)
    requires forall i, j :: 0 <= i < j < |vcs| ==> vcs[i].variationId != vcs[j].variationId
    ensures StrictlySorted(r) && forall v :: v in r <==> v in vcs
  {
    r := [];
    for i := 0 to |vcs|
      invariant StrictlySorted(r) && forall v :: v in r <==> v in vcs[..i]
    {
      InsertedSorted(r, vcs[i]);
      r := Inserted(r, vcs[i]);
    }
  }

  // ----- The source's loops -----

  method VariationIdx(header: seq<string>) returns (r: Option<nat>)
    ensures match r
            case Some(i) => i < |header| && header[i] == COLUMN_VARIATION && COLUMN_VARIATION !in header[..i]
            case None => COLUMN_VARIATION !in header
  {
    for i := 0 to |header|
      invariant COLUMN_VARIATION !in header[..i]
    {
      if header[i] == COLUMN_VARIATION {
        return Some(i);
      }
    }
    return None;
  }

  /** The cells of one row, one column at a time. */
  method Fill(header: seq<string>, row: Row, vc0: VariationCount) returns (vc: VariationCount)
    requires |row| == |header|
    ensures vc == Filled(header, row, vc0)
  {
    vc := vc0;
    for i := 0 to |row|
      invariant vc == Filled(header[..i], row[..i], vc0)
    {
      var h, value := header[i], row[i].valueDouble;
      assert header[..i + 1][..i] == header[..i] && row[..i + 1][..i] == row[..i];
      match h
      case "Evaluation total" => vc := vc.(eventCount := Truncated(value));
      case "Evaluation user" => vc := vc.(userCount := Truncated(value));
      case "Goal total" => vc := vc.(eventCount := Truncated(value));
      case "Goal user" => vc := vc.(userCount := Truncated(value));
      case "Goal value total" => vc := vc.(valueSum := value);
      case "Goal value mean" => vc := vc.(valueMean := value);
      case "Goal value variance" => vc := vc.(valueVariance := value);
      case _ =>
    }
    assert header[..|row|] == header && row[..|row|] == row;
  }

  /** The map of records once the first rows have been read. */
  ghost predicate Counted(ids: seq<string>, header: seq<string>, rows: seq<Row>, column: nat,
      m: map<string, VariationCount>)
    requires column < |header| && forall i :: 0 <= i < |rows| ==> |rows[i]| == |header|
  {
    forall id :: (id in m <==> id in ids) && (id in m ==> m[id] == CountOf(header, rows, column, id))
  }

  lemma CountedStep(ids: seq<string>, header: seq<string>, rows: seq<Row>, column: nat, m: map<string, VariationCount>,
      row: Row, m': map<string, VariationCount>)
    requires column < |header| == |row| && forall i :: 0 <= i < |rows| ==> |rows[i]| == |header|
    requires Counted(ids, header, rows, column, m)
    requires var vid := row[column].value;
             m' == if vid in m then m[vid := Filled(header, row, m[vid])] else m
    ensures Counted(ids, header, rows + [row], column, m')
  {
    hide Filled;
    var rows', n := rows + [row], |rows|;
    var vids, vids' := VariationsOf(header, rows, column), VariationsOf(header, rows', column);
    assert vids'[..n] == vids && vids'[n] == row[column].value;
    forall id | id in m' ensures m'[id] == CountOf(header, rows', column, id) {
      var last := LastIndex(vids, id);
      assert last >= 0 ==> rows'[last] == rows[last];
      if id == row[column].value && last >= 0 {
        FilledTwice(header, rows[last], row, Zero(id));
      }
    }
  }

  /** One record per requested id, strictly sorted by id, each with the values of the variation's last
      row. */
  ghost predicate Result(ids: seq<string>, header: seq<string>, rows: seq<Row>, column: nat, vcs: seq<VariationCount>)
    requires column < |header| && forall i :: 0 <= i < |rows| ==> |rows[i]| == |header|
  {
    && StrictlySorted(vcs)
    && forall vc :: vc in vcs <==> vc.variationId in ids && vc == CountOf(header, rows, column, vc.variationId)
  }

  lemma ResultUnique(ids: seq<string>, header: seq<string>, rows: seq<Row>, column: nat, vcs: seq<VariationCount>,
      vcs': seq<VariationCount>)
    requires column < |header| && forall i :: 0 <= i < |rows| ==> |rows[i]| == |header|
    requires Result(ids, header, rows, column, vcs) && Result(ids, header, rows, column, vcs')
    ensures vcs == vcs'
  {
    SortedUnique(vcs, vcs');
  }

  method ConvToVariationCounts(header: seq<string>, rows: seq<Row>, ids: seq<string>)
    returns (r: Option<seq<VariationCount>>)
    requires forall i :: 0 <= i < |rows| ==> |rows[i]| == |header|
    ensures r.None? <==> COLUMN_VARIATION !in header
    ensures forall column ::
              0 <= column < |header| && header[column] == COLUMN_VARIATION && COLUMN_VARIATION !in header[..column] ==>
              && Result(ids, header, rows, column, r.value)
              && (forall id :: id in ids <==> exists vc :: vc in r.value && vc.variationId == id)
              && forall vc :: vc in r.value ==>
                   ReadFromRows(header, rows, column, vc)
  {
    hide Filled, Counted, StrictlySorted, ReadFromRows;
    var m: map<string, VariationCount> := map[];
    for i := 0 to |ids|
      invariant forall id :: (id in m <==> id in ids[..i]) && (id in m ==> m[id] == Zero(id))
    {
      m := m[ids[i] := Zero(ids[i])];
    }
    var idx := VariationIdx(header);
    if idx.None? {
      return None;
    }
    var column := idx.value;
    CountedAtFirst(ids, header, column, m);
    for i := 0 to |rows|
      invariant Counted(ids, header, rows[..i], column, m)
    {
      ghost var before := m;
      var vid := rows[i][column].value;
      if vid in m {
        var vc := Fill(header, rows[i], m[vid]);
        m := m[vid := vc];
      }
      CountedStep(ids, header, rows[..i], column, before, rows[i], m);
      assert rows[..i + 1] == rows[..i] + [rows[i]];
    }
    assert rows[..|rows|] == rows;
    var vcs := Values(ids, header, rows, column, m);
    vcs := SortStable(vcs);
    forall id | id in ids ensures exists vc :: vc in vcs && vc.variationId == id {
      assert CountOf(header, rows, column, id) in vcs;
    }
    forall vc | vc in vcs ensures ReadFromRows(header, rows, column, vc) {
      CountReads(header, rows, column, vc.variationId);
    }
    r := Some(vcs);
  }

  lemma CountedAtFirst(ids: seq<string>, header: seq<string>, column: nat, m: map<string, VariationCount>)
    requires column < |header| && forall id :: (id in m <==> id in ids) && (id in m ==> m[id] == Zero(id))
    ensures Counted(ids, header, [], column, m)
  {
  }

  /** Ranging over the map, in any order. */
  method Values(ids: seq<string>, header: seq<string>, rows: seq<Row>, column: nat, m: map<string, VariationCount>)
    returns (vcs: seq<VariationCount>)
    requires column < |header| && forall i :: 0 <= i < |rows| ==> |rows[i]| == |header|
    requires Counted(ids, header, rows, column, m)
    ensures forall vc :: vc in vcs <==> vc.variationId in ids && vc == CountOf(header, rows, column, vc.variationId)
    ensures forall i, j :: 0 <= i < j < |vcs| ==> vcs[i].variationId != vcs[j].variationId
  {
    hide Filled;
    vcs := [];
    var left := m.Keys;
    while left != {}
      invariant left <= m.Keys
      invariant forall vc :: vc in vcs <==> vc.variationId in m.Keys - left && vc == m[vc.variationId]
      invariant forall i, j :: 0 <= i < j < |vcs| ==> vcs[i].variationId != vcs[j].variationId
      decreases |left|
    {
      var id :| id in left;
      assert m[id].variationId == id;
      assert forall i :: 0 <= i < |vcs| ==> vcs[i] in vcs;
      vcs := vcs + [m[id]];
      left := left - {id};
    }
  }
}
