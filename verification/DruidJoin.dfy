/** The querier turns Druid's result items into tables and joins goal counts to evaluation counts with
    a hash map from joined strings. */
module DruidJoin {
  import opened DruidColumns
  import opened EvaluationStrings
  import opened Regex
  import opened Separators

  /** A value of a result item: JSON numbers, strings, anything else. */
  datatype Value = Number(n: real) | Text(s: string) | Other

  type Event = map<string, Value>

  /** `value` is empty in number cells and `valueDouble` is zero in string cells. */
  datatype Cell = Cell(isDouble: bool, value: string, valueDouble: real)

  type Row = seq<Cell>

  function StringCell(s: string): Cell {
    Cell(false, s, 0.0)
  }

  function DoubleCell(r: real): Cell {
    Cell(true, "", r)
  }

  predicate Readable(event: Event, column: string) {
    column in event && !event[column].Other?
  }

  /** What the table shows for a column of an item. */
  function CellOf(event: Event, column: string): Cell {
    if !Readable(event, column) then StringCell("")
    else if event[column].Number? then DoubleCell(event[column].n)
    else StringCell(if column == COLUMN_VARIATION then VariationCell(event[column].s) else event[column].s)
  }

  function RowOf(event: Event, columns: seq<string>): Row {
    seq(|columns|, i requires 0 <= i < |columns| => CellOf(event, columns[i]))
  }

  method ConvToTable(items: seq<Event>, columns: seq<string>) returns (rows: seq<Row>, errs: seq<string>)
    ensures |rows| == |items| && forall i :: 0 <= i < |items| ==> rows[i] == RowOf(items[i], columns)
    ensures forall c :: c in errs <==> c in columns && exists event :: event in items && !Readable(event, c)
  {
    rows, errs := [], [];
    for i := 0 to |items|
      invariant |rows| == i && forall k :: 0 <= k < i ==> rows[k] == RowOf(items[k], columns)
      invariant forall c :: c in errs <==> c in columns && exists k :: 0 <= k < i && !Readable(items[k], c)
    {
      var cells: Row, before := [], errs;
      for j := 0 to |columns|
        invariant |cells| == j && forall k :: 0 <= k < j ==> cells[k] == CellOf(items[i], columns[k])
        invariant forall c :: c in errs <==> c in before || (c in columns[..j] && !Readable(items[i], c))
      {
        var column := columns[j];
        if column !in items[i] {
          errs := errs + [column];
          cells := cells + [StringCell("")];
          continue;
        }
        match items[i][column]
        case Number(n) =>
          cells := cells + [DoubleCell(n)];
        case Text(s) =>
          if column == COLUMN_VARIATION {
            match Find(Go, VARIATION_REGEX, s)
            case Some(group) => cells := cells + [StringCell(group)];
            case None => cells := cells + [StringCell(s)];
          } else {
            cells := cells + [StringCell(s)];
          }
        case Other =>
          cells := cells + [StringCell("")];
          errs := errs + [column];
      }
      rows := rows + [cells];
    }
  }

  // ----- Finding and keeping columns -----

  /** -1 when there is none: indexing a row with it panics. */
  method CellIndex(header: seq<string>, name: string) returns (r: int)
    ensures name !in header ==> r == -1
    ensures name in header ==> 0 <= r < |header| && header[r] == name && name !in header[..r]
  {
    for i := 0 to |header|
      invariant name !in header[..i]
    {
      if header[i] == name {
        return i;
      }
    }
    return -1;
  }

  method Contains(haystack: seq<string>, needle: string) returns (r: bool)
    ensures r == (needle in haystack)
  {
    for i := 0 to |haystack|
      invariant needle !in haystack[..i]
    {
      if haystack[i] == needle {
        return true;
      }
    }
    return false;
  }

  /** The cell of a row under the first column of that name. */
  function At(header: seq<string>, row: Row, name: string): Cell
    requires name in header && |header| == |row|
  {
    if header[0] == name then row[0] else At(header[1..], row[1..], name)
  }

  lemma {:induction false} AtIndex(header: seq<string>, row: Row, i: nat)
    requires i < |header| == |row| && header[i] !in header[..i]
    ensures At(header, row, header[i]) == row[i]
  {
    if i > 0 {
      assert header[0] in header[..i] && header[..i][1..] == header[1..][..i - 1];
      AtIndex(header[1..], row[1..], i - 1);
    }
  }

  /** The positions of the names that are not excluded, in order. */
  function KeptAt(names: seq<string>, excludes: seq<string>): (ks: seq<nat>)
    ensures forall j :: 0 <= j < |ks| ==> ks[j] < |names| && names[ks[j]] !in excludes
    ensures forall i, j :: 0 <= i < j < |ks| ==> ks[i] < ks[j]
    ensures forall k :: 0 <= k < |names| && names[k] !in excludes ==> k in ks
  {
    if names == [] then []
    else
      var n := |names| - 1;
      assert forall k :: 0 <= k < n ==> names[..n][k] == names[k];
      KeptAt(names[..n], excludes) + if names[n] in excludes then [] else [n]
  }

  /** The entries whose column is not excluded. */
  function Keep<A>(names: seq<string>, xs: seq<A>, excludes: seq<string>): (r: seq<A>)
    requires |names| == |xs|
    ensures |r| == |KeptAt(names, excludes)| && forall j :: 0 <= j < |r| ==> r[j] == xs[KeptAt(names, excludes)[j]]
  {
    var ks := KeptAt(names, excludes);
    seq(|ks|, j requires 0 <= j < |ks| => xs[ks[j]])
  }

  lemma KeepSnoc<A>(names: seq<string>, xs: seq<A>, excludes: seq<string>, i: nat)
    requires i < |names| <= |xs|
    ensures Keep(names[..i + 1], xs[..i + 1], excludes) ==
            Keep(names[..i], xs[..i], excludes) + if names[i] in excludes then [] else [xs[i]]
  {
    assert names[..i + 1][..i] == names[..i];
  }

  /** Of columns that are all excluded, and others behind them: all the others stay exactly when none of them
      is excluded. */
  lemma {:induction false} KeptSplit(a: seq<string>, b: seq<string>, excludes: seq<string>)
    requires forall i :: 0 <= i < |a| ==> a[i] in excludes
    ensures var ks := KeptAt(a + b, excludes);
            && |ks| <= |b| && (|ks| == |b| <==> forall i :: 0 <= i < |b| ==> b[i] !in excludes)
            && (|ks| == |b| ==> forall j :: 0 <= j < |ks| ==> ks[j] == |a| + j)
    decreases |b|
  {
    hide KeptAt;
    if b == [] {
      assert a + b == a;
      NothingKept(a, excludes);
    } else {
      var n := |b| - 1;
      KeptSplit(a, b[..n], excludes);
      KeptSnoc(a, b, excludes);
      AllKept(KeptAt(a + b[..n], excludes), KeptAt(a + b, excludes), |a|, b, excludes);
    }
  }

  lemma KeptSnoc(a: seq<string>, b: seq<string>, excludes: seq<string>)
    requires b != []
    ensures var n := |b| - 1;
            KeptAt(a + b, excludes) == KeptAt(a + b[..n], excludes) + if b[n] in excludes then [] else [|a| + n]
  {
    assert (a + b)[..|a + b| - 1] == a + b[..|b| - 1];
  }

  /** The step of the above on the positions alone. */
  lemma AllKept(ks: seq<nat>, ks': seq<nat>, start: nat, b: seq<string>, excludes: seq<string>)
    requires b != [] && ks' == ks + if b[|b| - 1] in excludes then [] else [start + |b| - 1]
    requires |ks| <= |b| - 1 && (|ks| == |b| - 1 <==> forall i :: 0 <= i < |b| - 1 ==> b[i] !in excludes)
    requires |ks| == |b| - 1 ==> forall j :: 0 <= j < |ks| ==> ks[j] == start + j
    ensures |ks'| <= |b| && (|ks'| == |b| <==> forall i :: 0 <= i < |b| ==> b[i] !in excludes)
    ensures |ks'| == |b| ==> forall j :: 0 <= j < |ks'| ==> ks'[j] == start + j
  {
  }

  lemma {:induction false} NothingKept(names: seq<string>, excludes: seq<string>)
    requires forall i :: 0 <= i < |names| ==> names[i] in excludes
    ensures KeptAt(names, excludes) == []
  {
    if names != [] {
      NothingKept(names[..|names| - 1], excludes);
    }
  }

  function Zip(header: seq<string>, row: Row): seq<(string, Cell)>
    requires |header| == |row|
  {
    seq(|header|, i requires 0 <= i < |header| => (header[i], row[i]))
  }

  lemma KeepZip(header: seq<string>, row: Row, excludes: seq<string>)
    requires |header| == |row|
    ensures |Keep(header, header, excludes)| == |Keep(header, row, excludes)|
    ensures Zip(Keep(header, header, excludes), Keep(header, row, excludes)) == Keep(header, Zip(header, row), excludes)
  {
  }

  // ----- The join as a relation -----

  function LastIndex<T(==)>(xs: seq<T>, x: T): (r: int)
    ensures -1 <= r < |xs|
    ensures r >= 0 ==> xs[r] == x
    ensures forall i :: r < i < |xs| ==> xs[i] != x
  {
    if xs == [] then -1
    else
      var n := |xs| - 1;
      if xs[n] == x then n else LastIndex(xs[..n], x)
  }

  /** Goal rows in order, each with the last evaluation row that has the same label. */
  function Pairs<T(==)>(evals: seq<T>, goals: seq<T>): (r: seq<(nat, nat)>)
    ensures forall p :: p in r ==> p.0 < |evals| && p.1 < |goals| && evals[p.0] == goals[p.1]
  {
    if goals == [] then []
    else
      var n := |goals| - 1;
      OneMore(Pairs(evals, goals[..n]), LastIndex(evals, goals[n]), n)
  }

  function OneMore(p: seq<(nat, nat)>, e: int, n: nat): seq<(nat, nat)> {
    if e >= 0 then p + [(e, n)] else p
  }

  /** A pair is in the join exactly when its labels are equal and no later evaluation row supersedes
      its own. */
  lemma {:induction false} PairsExactly<T>(evals: seq<T>, goals: seq<T>, e: nat, g: nat)
    requires e < |evals| && g < |goals|
    ensures (e, g) in Pairs(evals, goals) <==>
            evals[e] == goals[g] && forall k :: e < k < |evals| ==> evals[k] != evals[e]
    decreases |goals|
  {
    var n := |goals| - 1;
    var last := LastIndex(evals, goals[n]);
    var rest := Pairs(evals, goals[..n]);
    if g == n {
      assert (e, g) !in rest;
      assert (e, g) in Pairs(evals, goals) <==> e == last;
    } else {
      PairsExactly(evals, goals[..n], e, g);
    }
  }

  /** The join keeps the order of the goal rows. */
  lemma {:induction false} PairsOrdered<T>(evals: seq<T>, goals: seq<T>)
    ensures forall i, j :: 0 <= i < j < |Pairs(evals, goals)| ==> Pairs(evals, goals)[i].1 < Pairs(evals, goals)[j].1
    decreases |goals|
  {
    if goals != [] {
      var n := |goals| - 1;
      var rest := Pairs(evals, goals[..n]);
      PairsOrdered(evals, goals[..n]);
      assert forall i :: 0 <= i < |rest| ==> rest[i] in rest && rest[i].1 < n;
    }
  }

  // ----- The key -----

  /** strings.Join(parts, ",") */
  function Joined(parts: seq<string>): string {
    if parts == [] then ""
    else if |parts| == 1 then parts[0]
    else Joined(parts[..|parts| - 1]) + "," + parts[|parts| - 1]
  }

  /** What a row is joined on: the segment values and the variation. */
  function Tuple(header: seq<string>, row: Row, segments: seq<string>): seq<string>
    requires |header| == |row| && Covers(header, segments)
  {
    seq(|segments|, i requires 0 <= i < |segments| => At(header, row, segments[i]).value)
      + [At(header, row, COLUMN_VARIATION).value]
  }

  predicate Covers(header: seq<string>, segments: seq<string>) {
    COLUMN_VARIATION in header && forall i :: 0 <= i < |segments| ==> segments[i] in header
  }

  method NewKey(header: seq<string>, row: Row, segments: seq<string>) returns (key: string)
    requires |header| == |row| && Covers(header, segments)
    ensures key == Joined(Tuple(header, row, segments))
  {
    var parts: seq<string> := [];
    for i := 0 to |segments|
      invariant |parts| == i && forall k :: 0 <= k < i ==> parts[k] == At(header, row, segments[k]).value
    {
      var c := CellIndex(header, segments[i]);
      AtIndex(header, row, c);
      parts := parts + [row[c].value];
    }
    var v := CellIndex(header, COLUMN_VARIATION);
    AtIndex(header, row, v);
    parts := parts + [row[v].value];
    key := parts[0];
    for i := 1 to |parts|
      invariant key == Joined(parts[..i])
    {
      assert parts[..i + 1][..i] == parts[..i];
      key := key + "," + parts[i];
    }
    assert parts[..|parts|] == parts == Tuple(header, row, segments);
  }

  predicate CommaFree(parts: seq<string>) {
    forall i :: 0 <= i < |parts| ==> Free(parts[i], ',')
  }

  /** Comma-free tuples of one length have different keys. */
  lemma {:induction false} JoinedInjective(a: seq<string>, b: seq<string>)
    requires CommaFree(a) && CommaFree(b) && |a| == |b| > 0 && Joined(a) == Joined(b)
    ensures a == b
    decreases |a|
  {
    var n := |a| - 1;
    if n > 0 {
      SplitAtLast(Joined(a[..n]), a[n], Joined(b[..n]), b[n], ',');
      JoinedInjective(a[..n], b[..n]);
      assert a == a[..n] + [a[n]] && b == b[..n] + [b[n]];
    }
  }

  /** With a comma in a value, rows of different segments can be joined. */
  lemma CommaCollision()
    ensures Joined(["a,b", "c", "v"]) == Joined(["a", "b,c", "v"])
  {
  }

  // ----- The joined rows -----

  /** Conversion rate in percent. */
  function Cvr(evaluationUsers: real, goalUsers: real): real {
    if evaluationUsers > 0.0 then goalUsers / evaluationUsers * 100.0 else 0.0
  }

  function CvrOf(evalHeader: seq<string>, e: Row, goalHeader: seq<string>, g: Row): real
    requires |evalHeader| == |e| && |goalHeader| == |g|
    requires COLUMN_EVALUATION_USER in evalHeader && COLUMN_GOAL_USER in goalHeader
  {
    Cvr(At(evalHeader, e, COLUMN_EVALUATION_USER).valueDouble, At(goalHeader, g, COLUMN_GOAL_USER).valueDouble)
  }

  function Combined(evalHeader: seq<string>, e: Row, goalHeader: seq<string>, g: Row, segments: seq<string>): Row
    requires |evalHeader| == |e| && |goalHeader| == |g|
    requires COLUMN_EVALUATION_USER in evalHeader && COLUMN_GOAL_USER in goalHeader
  {
    e + Keep(goalHeader, g, segments + [COLUMN_VARIATION]) + [DoubleCell(CvrOf(evalHeader, e, goalHeader, g))]
  }

  function Header(evalHeader: seq<string>, goalHeader: seq<string>, segments: seq<string>): seq<string> {
    evalHeader + Keep(goalHeader, goalHeader, segments + [COLUMN_VARIATION]) + [COLUMN_CVR]
  }

  /** Every output row has a cell for every column of the joined header, and each cell sits under its
      own column name. */
  lemma CellsUnderTheirColumns(evalHeader: seq<string>, e: Row, goalHeader: seq<string>, g: Row, segments: seq<string>)
    requires |evalHeader| == |e| && |goalHeader| == |g|
    requires COLUMN_EVALUATION_USER in evalHeader && COLUMN_GOAL_USER in goalHeader
    ensures var header, row := Header(evalHeader, goalHeader, segments),
            Combined(evalHeader, e, goalHeader, g, segments);
            && |header| == |row|
            && Zip(header, row) == Zip(evalHeader, e)
                                   + Keep(goalHeader, Zip(goalHeader, g), segments + [COLUMN_VARIATION])
                                   + [(COLUMN_CVR, DoubleCell(CvrOf(evalHeader, e, goalHeader, g)))]
  {
    hide Keep, KeptAt, CvrOf;
    KeepZip(goalHeader, g, segments + [COLUMN_VARIATION]);
  }

  lemma KeptNames(names: seq<string>, excludes: seq<string>)
    ensures forall c :: c in Keep(names, names, excludes) <==> c in names && c !in excludes
  {
    var kept, ks := Keep(names, names, excludes), KeptAt(names, excludes);
    hide Keep, KeptAt;
    forall c | c in names && c !in excludes ensures c in kept {
      var k :| 0 <= k < |names| && names[k] == c;
      var j :| 0 <= j < |ks| && ks[j] == k;
      assert kept[j] == c;
    }
    forall c | c in kept ensures c in names && c !in excludes {
      var j :| 0 <= j < |kept| && kept[j] == c;
      assert names[ks[j]] == c;
    }
  }

  method JoinHeaders(evalHeader: seq<string>, goalHeader: seq<string>, segments: seq<string>)
    returns (header: seq<string>)
    ensures header == Header(evalHeader, goalHeader, segments)
    ensures evalHeader <= header && header[|header| - 1] == COLUMN_CVR
    ensures forall c :: c in header <==>
              c in evalHeader || c == COLUMN_CVR || (c in goalHeader && c !in segments && c != COLUMN_VARIATION)
  {
    header := evalHeader;
    var excludes := segments + [COLUMN_VARIATION];
    for i := 0 to |goalHeader|
      invariant header == evalHeader + Keep(goalHeader[..i], goalHeader[..i], excludes)
    {
      KeepSnoc(goalHeader, goalHeader, excludes, i);
      var skip := Contains(excludes, goalHeader[i]);
      if skip {
        continue;
      }
      header := header + [goalHeader[i]];
    }
    assert goalHeader[..|goalHeader|] == goalHeader;
    header := header + [COLUMN_CVR];
    KeptNames(goalHeader, excludes);
    assert forall c :: c in excludes <==> c in segments || c == COLUMN_VARIATION;
  }

  method CombineRow(evalHeader: seq<string>, e: Row, goalHeader: seq<string>, g: Row, segments: seq<string>)
    returns (cells: Row)
    requires |evalHeader| == |e| && |goalHeader| == |g|
    requires COLUMN_EVALUATION_USER in evalHeader && COLUMN_GOAL_USER in goalHeader
    ensures cells == Combined(evalHeader, e, goalHeader, g, segments)
    ensures var ks := KeptAt(goalHeader, segments + [COLUMN_VARIATION]);
            && |cells| == |e| + |ks| + 1 && e <= cells
            && forall j :: 0 <= j < |ks| ==> cells[|e| + j] == g[ks[j]]
  {
    hide Keep, KeptAt;
    var evalUU := CellIndex(evalHeader, COLUMN_EVALUATION_USER);
    AtIndex(evalHeader, e, evalUU);
    var goalUU := CellIndex(goalHeader, COLUMN_GOAL_USER);
    AtIndex(goalHeader, g, goalUU);
    cells := e;
    ghost var excludes := segments + [COLUMN_VARIATION];
    NothingKept(goalHeader[..0], excludes);
    for i := 0 to |g|
      invariant cells == e + Keep(goalHeader[..i], g[..i], excludes)
    {
      KeepSnoc(goalHeader, g, excludes, i);
      var skip := Contains(segments + [COLUMN_VARIATION], goalHeader[i]);
      if skip {
        continue;
      }
      cells := cells + [g[i]];
    }
    assert goalHeader[..|g|] == goalHeader && g[..|g|] == g;
    var cvr := 0.0;
    if e[evalUU].valueDouble > 0.0 {
      cvr := g[goalUU].valueDouble / e[evalUU].valueDouble * 100.0;
    }
    cells := cells + [DoubleCell(cvr)];
  }

  // ----- The hash join -----

  predicate Fits(header: seq<string>, rows: seq<Row>, segments: seq<string>) {
    forall i :: 0 <= i < |rows| ==> |rows[i]| == |header| && Covers(header, segments)
  }

  function Tuples(header: seq<string>, rows: seq<Row>, segments: seq<string>): seq<seq<string>>
    requires Fits(header, rows, segments)
  {
    seq(|rows|, i requires 0 <= i < |rows| => Tuple(header, rows[i], segments))
  }

  function Keys(tuples: seq<seq<string>>): seq<string> {
    seq(|tuples|, i requires 0 <= i < |tuples| => Joined(tuples[i]))
  }

  /** An evaluation row with the key of a goal row is at, or superseded by, a row with the goal row's own
      values. */
  ghost predicate KeysFaithful(evals: seq<seq<string>>, goals: seq<seq<string>>) {
    forall e, g :: 0 <= e < |evals| && 0 <= g < |goals| && Joined(evals[e]) == Joined(goals[g]) ==>
      Supersedes(evals, e, goals[g])
  }

  predicate Supersedes(evals: seq<seq<string>>, e: nat, tuple: seq<string>)
    requires e < |evals|
  {
    tuple in evals[e..]
  }

  /** For one goal row: the last row with its key is the last row with its values. */
  lemma LastAgrees(evals: seq<seq<string>>, tuple: seq<string>)
    ensures LastIndex(Keys(evals), Joined(tuple)) == LastIndex(evals, tuple) <==>
            forall e :: 0 <= e < |evals| && Joined(evals[e]) == Joined(tuple) ==> Supersedes(evals, e, tuple)
  {
    var byKey, byTuple := LastIndex(Keys(evals), Joined(tuple)), LastIndex(evals, tuple);
    hide LastIndex, Joined;
    assert byTuple >= 0 ==> Keys(evals)[byTuple] == Joined(tuple);
    if byKey == byTuple {
      forall e | 0 <= e < |evals| && Joined(evals[e]) == Joined(tuple) ensures Supersedes(evals, e, tuple) {
        assert Keys(evals)[e] == Joined(tuple);
        assert evals[e..][byTuple - e] == tuple;
      }
    } else {
      assert Keys(evals)[byKey] == Joined(evals[byKey]);
      forall k | byKey <= k < |evals| ensures evals[k] != tuple {
        assert k > byKey ==> Keys(evals)[k] != Joined(tuple);
      }
      assert !Supersedes(evals, byKey, tuple);
    }
  }

  /** Labels agree on a join exactly when they agree on the evaluation row of every goal row. */
  lemma {:induction false} PairsAgreeExactly<T, U>(evals: seq<T>, goals: seq<T>, evals': seq<U>, goals': seq<U>)
    requires |evals| == |evals'| && |goals| == |goals'|
    ensures Pairs(evals, goals) == Pairs(evals', goals') <==>
            forall g :: 0 <= g < |goals| ==> LastIndex(evals, goals[g]) == LastIndex(evals', goals'[g])
    decreases |goals|
  {
    if goals != [] {
      var n := |goals| - 1;
      PairsAgreeExactly(evals, goals[..n], evals', goals'[..n]);
      assert forall g :: 0 <= g < n ==> goals[..n][g] == goals[g] && goals'[..n][g] == goals'[g];
      var e, e' := LastIndex(evals, goals[n]), LastIndex(evals', goals'[n]);
      var p, p' := Pairs(evals, goals[..n]), Pairs(evals', goals'[..n]);
      OneMoreExactly(p, e, p', e', n);
    }
  }

  /** A pair with a new index tells itself from everything before it. */
  lemma OneMoreExactly(p: seq<(nat, nat)>, e: int, p': seq<(nat, nat)>, e': int, n: nat)
    requires e >= -1 && e' >= -1
    requires (forall x :: x in p ==> x.1 < n) && (forall x :: x in p' ==> x.1 < n)
    ensures OneMore(p, e, n) == OneMore(p', e', n) <==> p == p' && e == e'
  {
    var q, q' := OneMore(p, e, n), OneMore(p', e', n);
    if q == q' && q != [] {
      var last := q[|q| - 1];
      assert e < 0 ==> last in p && last.1 < n;
      assert e' < 0 ==> last in p' && last.1 < n;
      if e >= 0 {
        assert q[..|q| - 1] == p && last == (e, n);
        assert q'[..|q'| - 1] == p' && last == (e', n);
      }
    }
  }

  /** The join by key is the relational join exactly when the keys are faithful, for tables of any
      size. */
  lemma HashJoinExactly(evals: seq<seq<string>>, goals: seq<seq<string>>)
    ensures Pairs(Keys(evals), Keys(goals)) == Pairs(evals, goals) <==> KeysFaithful(evals, goals)
  {
    PairsAgreeExactly(Keys(evals), Keys(goals), evals, goals);
    forall g | 0 <= g < |goals|
      ensures LastIndex(Keys(evals), Keys(goals)[g]) == LastIndex(evals, goals[g]) <==>
              forall e :: 0 <= e < |evals| && Joined(evals[e]) == Joined(goals[g]) ==> Supersedes(evals, e, goals[g])
    {
      LastAgrees(evals, goals[g]);
    }
  }

  lemma CommaFreeKeysFaithful(evals: seq<seq<string>>, goals: seq<seq<string>>, n: nat)
    requires n > 0
    requires forall i :: 0 <= i < |evals| ==> |evals[i]| == n && CommaFree(evals[i])
    requires forall i :: 0 <= i < |goals| ==> |goals[i]| == n && CommaFree(goals[i])
    ensures KeysFaithful(evals, goals)
  {
    forall e, g | 0 <= e < |evals| && 0 <= g < |goals| && Joined(evals[e]) == Joined(goals[g])
      ensures Supersedes(evals, e, goals[g])
    {
      JoinedInjective(evals[e], goals[g]);
      assert evals[e..][0] == goals[g];
    }
  }

  /** The rows of the result, in order. */
  ghost predicate Output(evalHeader: seq<string>, evalRows: seq<Row>, goalHeader: seq<string>, goalRows: seq<Row>,
                         segments: seq<string>, pairs: seq<(nat, nat)>, rows: seq<Row>)
    requires Fits(evalHeader, evalRows, segments) && Fits(goalHeader, goalRows, segments)
    requires COLUMN_EVALUATION_USER in evalHeader && COLUMN_GOAL_USER in goalHeader
  {
    && |rows| == |pairs|
    && forall i :: 0 <= i < |rows| ==>
         && pairs[i].0 < |evalRows| && pairs[i].1 < |goalRows|
         && rows[i] == Combined(evalHeader, evalRows[pairs[i].0], goalHeader, goalRows[pairs[i].1], segments)
  }

  lemma OutputFits(evalHeader: seq<string>, evalRows: seq<Row>, goalHeader: seq<string>, goalRows: seq<Row>,
                   segments: seq<string>, pairs: seq<(nat, nat)>, rows: seq<Row>)
    requires Fits(evalHeader, evalRows, segments) && Fits(goalHeader, goalRows, segments)
    requires COLUMN_EVALUATION_USER in evalHeader && COLUMN_GOAL_USER in goalHeader
    requires Output(evalHeader, evalRows, goalHeader, goalRows, segments, pairs, rows)
    ensures forall i :: 0 <= i < |rows| ==> |rows[i]| == |Header(evalHeader, goalHeader, segments)|
  {
    forall i | 0 <= i < |rows| ensures |rows[i]| == |Header(evalHeader, goalHeader, segments)| {
      CellsUnderTheirColumns(evalHeader, evalRows[pairs[i].0], goalHeader, goalRows[pairs[i].1], segments);
    }
  }

  /** The map from keys to evaluation rows; a later row replaces an earlier one of the same key. */
  method ByKey(header: seq<string>, rows: seq<Row>, segments: seq<string>) returns (m: map<string, Row>)
    requires Fits(header, rows, segments)
    ensures var keys := Keys(Tuples(header, rows, segments));
            forall k :: (k in m <==> LastIndex(keys, k) >= 0) && (k in m ==> m[k] == rows[LastIndex(keys, k)])
  {
    hide Tuple, Joined, Covers;
    ghost var keys := Keys(Tuples(header, rows, segments));
    m := map[];
    for i := 0 to |rows|
      invariant forall k :: k in m <==> LastIndex(keys[..i], k) >= 0
      invariant forall k :: k in m ==> m[k] == rows[LastIndex(keys[..i], k)]
    {
      var key := NewKey(header, rows[i], segments);
      assert key == keys[i] && keys[..i + 1][..i] == keys[..i];
      m := m[key := rows[i]];
    }
    assert keys[..|rows|] == keys;
  }

  method ConvToResult(evalHeader: seq<string>, goalHeader: seq<string>, evalRows: seq<Row>, goalRows: seq<Row>,
      segments: seq<string>)
    returns (header: seq<string>, rows: seq<Row>)
    requires Fits(evalHeader, evalRows, segments) && Fits(goalHeader, goalRows, segments)
    requires COLUMN_EVALUATION_USER in evalHeader && COLUMN_GOAL_USER in goalHeader
    ensures header == Header(evalHeader, goalHeader, segments)
    ensures forall i :: 0 <= i < |rows| ==> |rows[i]| == |header|
    ensures var evals, goals := Tuples(evalHeader, evalRows, segments), Tuples(goalHeader, goalRows, segments);
            && Output(evalHeader, evalRows, goalHeader, goalRows, segments, Pairs(Keys(evals), Keys(goals)), rows)
            && (Pairs(Keys(evals), Keys(goals)) == Pairs(evals, goals) <==> KeysFaithful(evals, goals))
            && (KeysFaithful(evals, goals) ==>
                  Output(evalHeader, evalRows, goalHeader, goalRows, segments, Pairs(evals, goals), rows))
  {
    hide Tuple, Combined, Header, Joined, Covers, KeysFaithful;
    ghost var evals, goals := Tuples(evalHeader, evalRows, segments), Tuples(goalHeader, goalRows, segments);
    ghost var evalKeys, goalKeys := Keys(evals), Keys(goals);
    var evalMap := ByKey(evalHeader, evalRows, segments);
    rows := [];
    for j := 0 to |goalRows|
      invariant Output(evalHeader, evalRows, goalHeader, goalRows, segments, Pairs(evalKeys, goalKeys[..j]), rows)
    {
      var key := NewKey(goalHeader, goalRows[j], segments);
      assert key == goalKeys[j] && goalKeys[..j + 1][..j] == goalKeys[..j];
      if key !in evalMap {
        continue;
      }
      var cells := CombineRow(evalHeader, evalMap[key], goalHeader, goalRows[j], segments);
      rows := rows + [cells];
    }
    assert goalKeys[..|goalRows|] == goalKeys;
    header := JoinHeaders(evalHeader, goalHeader, segments);
    OutputFits(evalHeader, evalRows, goalHeader, goalRows, segments, Pairs(evalKeys, goalKeys), rows);
    HashJoinExactly(evals, goals);
  }
}
