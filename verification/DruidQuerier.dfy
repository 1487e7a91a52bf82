/** The goal and evaluation counts of a feature, from Druid's result items to the joined table. */
module DruidQuerier {
  import opened DruidColumns
  import opened DruidJoin
  import opened Environments
  import opened EvaluationStrings
  import opened Regex

  /** The columns of a query and their headers. */
  ghost predicate ColumnsOf(env: string, segments: seq<string>, valueColumns: seq<string>, columns: seq<string>,
      header: seq<string>) {
    && header == segments + [COLUMN_VARIATION] + valueColumns
    && |columns| == |header|
    && forall i :: 0 <= i < |header| ==> columns[i] == EnvSegment(env, header[i])
  }

  function ColumnList(env: string, featureId: string, segments: seq<string>, valueColumns: seq<string>): seq<string> {
    var n := |segments| + (if featureId != "" then 1 else 0) + |valueColumns|;
    seq(n, i requires 0 <= i < n => ColumnAt(env, featureId, segments, valueColumns, i))
  }

  method Columns(env: string, featureId: string, segments: seq<string>, valueColumns: seq<string>)
    returns (columns: seq<string>, header: seq<string>)
    requires Namespace(env)
    requires valueColumns == GOAL_COLUMNS || valueColumns == EVALUATION_COLUMNS
    ensures columns == ColumnList(env, featureId, segments, valueColumns)
    ensures |columns| == |header| && HeaderOf(env, featureId, segments, valueColumns, header)
    ensures forall c :: c in valueColumns ==> c in header
    ensures featureId != "" && (forall s :: s in segments ==> !Carries(env, s)) ==>
              ColumnsOf(env, segments, valueColumns, columns, header)
  {
    hide IsUserData, EnvSegment, ConvHeader;
    var envSegments := ConvToEnvSegments(env, segments);
    columns := GenerateColumns(featureId, envSegments, valueColumns);
    header := ConvHeaders(env, columns);
    assert forall i :: 0 <= i < |columns| ==> columns[i] == ColumnAt(env, featureId, segments, valueColumns, i);
    forall i | 0 <= i < |valueColumns| ensures valueColumns[i] in header {
      var k := |segments| + (if featureId != "" then 1 else 0) + i;
      assert columns[k] == valueColumns[i];
      ValueColumnsPlain(valueColumns, valueColumns[i]);
      NotUserData(env, valueColumns[i]);
      assert header[k] == valueColumns[i];
    }
    if featureId != "" && forall s :: s in segments ==> !Carries(env, s) {
      HeadersComplete(env, featureId, segments, valueColumns, header);
      forall i | |segments| <= i < |header| ensures columns[i] == EnvSegment(env, header[i]) {
        ValueColumnsPlain(valueColumns, header[i]);
        NotUserData(env, header[i]);
      }
    }
  }

  /** What an item is joined on: the values of the requested segments and the variation. */
  function Label(env: string, segments: seq<string>, event: Event): (parts: seq<string>)
    ensures |parts| == |segments| + 1
  {
    seq(|segments|, i requires 0 <= i < |segments| => CellOf(event, EnvSegment(env, segments[i])).value)
      + [CellOf(event, COLUMN_VARIATION).value]
  }

  function Labels(env: string, segments: seq<string>, items: seq<Event>): seq<seq<string>> {
    seq(|items|, i requires 0 <= i < |items| => Label(env, segments, items[i]))
  }

  function Table(items: seq<Event>, columns: seq<string>): seq<Row> {
    seq(|items|, i requires 0 <= i < |items| => RowOf(items[i], columns))
  }

  lemma {:induction false} AtColumn(env: string, header: seq<string>, columns: seq<string>, event: Event, name: string)
    requires |columns| == |header| && name in header
    requires forall i :: 0 <= i < |header| ==> columns[i] == EnvSegment(env, header[i])
    ensures At(header, RowOf(event, columns), name) == CellOf(event, EnvSegment(env, name))
  {
    if header[0] != name {
      assert RowOf(event, columns)[1..] == RowOf(event, columns[1..]);
      AtColumn(env, header[1..], columns[1..], event, name);
    }
  }

  lemma TupleIsLabel(env: string, segments: seq<string>, valueColumns: seq<string>, columns: seq<string>,
      header: seq<string>, event: Event)
    requires ColumnsOf(env, segments, valueColumns, columns, header)
    ensures Covers(header, segments) && Tuple(header, RowOf(event, columns), segments) == Label(env, segments, event)
  {
    hide EnvSegment, At, CellOf;
    assert forall i :: 0 <= i < |segments| ==> header[i] == segments[i];
    assert header[|segments|] == COLUMN_VARIATION;
    assert Covers(header, segments);
    forall i | 0 <= i < |segments|
      ensures At(header, RowOf(event, columns), segments[i]) == CellOf(event, EnvSegment(env, segments[i]))
    {
      AtColumn(env, header, columns, event, segments[i]);
    }
    AtColumn(env, header, columns, event, COLUMN_VARIATION);
    NotUserData(env, COLUMN_VARIATION);
    assert Tuple(header, RowOf(event, columns), segments) == Label(env, segments, event);
  }

  lemma TuplesAreLabels(env: string, segments: seq<string>, valueColumns: seq<string>, columns: seq<string>,
      header: seq<string>, items: seq<Event>)
    requires ColumnsOf(env, segments, valueColumns, columns, header)
    ensures Fits(header, Table(items, columns), segments)
    ensures Tuples(header, Table(items, columns), segments) == Labels(env, segments, items)
  {
    hide Label, Tuple, Covers, RowOf;
    TupleIsLabel(env, segments, valueColumns, columns, header, map[]);
    forall i | 0 <= i < |items|
      ensures |RowOf(items[i], columns)| == |header|
              && Tuple(header, RowOf(items[i], columns), segments) == Label(env, segments, items[i])
    {
      RowWidth(items[i], columns);
      TupleIsLabel(env, segments, valueColumns, columns, header, items[i]);
    }
  }

  lemma RowWidth(event: Event, columns: seq<string>)
    ensures |RowOf(event, columns)| == |columns|
  {
  }

  function EvaluationHeader(segments: seq<string>): (h: seq<string>)
    ensures COLUMN_EVALUATION_USER in h && |h| == |segments| + 3
  {
    var h := segments + [COLUMN_VARIATION] + EVALUATION_COLUMNS;
    assert h[|segments| + 1] == COLUMN_EVALUATION_USER;
    h
  }

  function GoalHeader(segments: seq<string>): (h: seq<string>)
    ensures COLUMN_GOAL_USER in h && |h| == |segments| + 6
  {
    var h := segments + [COLUMN_VARIATION] + GOAL_COLUMNS;
    assert h[|segments| + 1] == COLUMN_GOAL_USER;
    h
  }

  function ColumnNames(env: string, header: seq<string>): seq<string> {
    seq(|header|, i requires 0 <= i < |header| => EnvSegment(env, header[i]))
  }

  /** One output row, from an evaluation item and a goal item. */
  function OutputRow(env: string, segments: seq<string>, e: Event, g: Event): Row {
    var evalHeader, goalHeader := EvaluationHeader(segments), GoalHeader(segments);
    RowWidth(e, ColumnNames(env, evalHeader));
    RowWidth(g, ColumnNames(env, goalHeader));
    Combined(evalHeader, RowOf(e, ColumnNames(env, evalHeader)), goalHeader, RowOf(g, ColumnNames(env, goalHeader)),
        segments)
  }

  /** The conversion rate of an output row is that of the two items' user counts. */
  lemma OutputRowCvr(env: string, segments: seq<string>, e: Event, g: Event)
    ensures var row := OutputRow(env, segments, e, g);
            |row| > 0 && row[|row| - 1] ==
              DoubleCell(Cvr(CellOf(e, COLUMN_EVALUATION_USER).valueDouble, CellOf(g, COLUMN_GOAL_USER).valueDouble))
  {
    hide EnvSegment, CellOf, RowOf, At;
    var evalHeader, goalHeader := EvaluationHeader(segments), GoalHeader(segments);
    RowWidth(e, ColumnNames(env, evalHeader));
    RowWidth(g, ColumnNames(env, goalHeader));
    AtColumn(env, evalHeader, ColumnNames(env, evalHeader), e, COLUMN_EVALUATION_USER);
    AtColumn(env, goalHeader, ColumnNames(env, goalHeader), g, COLUMN_GOAL_USER);
    NotUserData(env, COLUMN_EVALUATION_USER);
    NotUserData(env, COLUMN_GOAL_USER);
  }

  // ----- What the result shows -----

  /** A cell shows what the item has for the column: a number as itself, a text as itself, of a printed
      evaluation its variation id, and nothing for anything else. */
  predicate Shows(event: Event, column: string, cell: Cell) {
    if column !in event then cell == Cell(false, "", 0.0)
    else match event[column]
      case Number(n) => cell == Cell(true, "", n)
      case Text(s) => cell == Cell(false, if column == "Variation" then VariationCell(s) else s, 0.0)
      case Other => cell == Cell(false, "", 0.0)
  }

  lemma CellShows(event: Event, column: string)
    ensures Shows(event, column, CellOf(event, column))
  {
  }

  /** An item's cells, one for each column. */
  ghost predicate RowShows(event: Event, columns: seq<string>, row: Row) {
    |row| == |columns| && forall k :: 0 <= k < |columns| ==> Shows(event, columns[k], row[k])
  }

  lemma RowOfShows(event: Event, columns: seq<string>)
    ensures RowShows(event, columns, RowOf(event, columns))
  {
    forall k | 0 <= k < |columns| ensures Shows(event, columns[k], RowOf(event, columns)[k]) {
      CellShows(event, columns[k]);
    }
  }

  /** An output row: the segments, the variation and the evaluation counts of the evaluation item, the goal
      counts of the goal item, and the rate of the two user counts. */
  ghost predicate JoinedRow(env: string, segments: seq<string>, e: Event, g: Event, row: Row) {
    var n := |segments|;
    && |row| == n + 9
    && (forall k :: 0 <= k < n ==> Shows(e, EnvSegment(env, segments[k]), row[k]))
    && Shows(e, "Variation", row[n]) && Shows(e, "Evaluation user", row[n + 1])
    && Shows(e, "Evaluation total", row[n + 2])
    && Shows(g, "Goal user", row[n + 3]) && Shows(g, "Goal total", row[n + 4])
    && Shows(g, "Goal value total", row[n + 5]) && Shows(g, "Goal value mean", row[n + 6])
    && Shows(g, "Goal value variance", row[n + 7])
    && row[n + 8] == Cell(true, "",
           if row[n + 1].valueDouble > 0.0 then row[n + 3].valueDouble / row[n + 1].valueDouble * 100.0 else 0.0)
  }

  /** No segment is named like a goal column. */
  predicate Apart(segments: seq<string>) {
    forall i :: 0 <= i < |GOAL_COLUMNS| ==> GOAL_COLUMNS[i] !in segments
  }

  lemma GoalColumnsKept(segments: seq<string>)
    ensures var ks := KeptAt(GoalHeader(segments), segments + [COLUMN_VARIATION]);
            && (|ks| == 5 <==> Apart(segments))
            && (Apart(segments) ==> forall j :: 0 <= j < |ks| ==> ks[j] == |segments| + 1 + j)
  {
    var a, excludes := segments + [COLUMN_VARIATION], segments + [COLUMN_VARIATION];
    assert forall i :: 0 <= i < |a| ==> a[i] in excludes;
    KeptSplit(a, GOAL_COLUMNS, excludes);
    assert GoalHeader(segments) == a + GOAL_COLUMNS;
    assert forall i :: 0 <= i < |GOAL_COLUMNS| ==> GOAL_COLUMNS[i] != COLUMN_VARIATION;
  }

  const RESULT_COLUMNS: seq<string> :=
    ["Variation", "Evaluation user", "Evaluation total", "Goal user", "Goal total", "Goal value total",
     "Goal value mean", "Goal value variance", "Conversion rate"]

  /** The joined header has every goal column exactly when no segment takes the name of one. */
  lemma HeaderExactly(segments: seq<string>)
    ensures Header(EvaluationHeader(segments), GoalHeader(segments), segments) == segments + RESULT_COLUMNS <==>
            Apart(segments)
  {
    hide KeptAt, Apart;
    GoalColumnsKept(segments);
    var h, kept := GoalHeader(segments),
        Keep(GoalHeader(segments), GoalHeader(segments), segments + [COLUMN_VARIATION]);
    assert |Header(EvaluationHeader(segments), h, segments)| == |segments| + 3 + |kept| + 1;
    if Apart(segments) {
      forall j | 0 <= j < |kept| ensures kept[j] == GOAL_COLUMNS[j] {
        assert h[|segments| + 1 + j] == GOAL_COLUMNS[j];
      }
      hide Keep;
      assert kept == GOAL_COLUMNS;
      HeaderOfKept(segments, kept);
    }
  }

  lemma HeaderOfKept(segments: seq<string>, kept: seq<string>)
    requires kept == GOAL_COLUMNS
    ensures EvaluationHeader(segments) + kept + [COLUMN_CVR] == segments + RESULT_COLUMNS
  {
    assert RESULT_COLUMNS == [COLUMN_VARIATION] + EVALUATION_COLUMNS + GOAL_COLUMNS + [COLUMN_CVR];
  }

  lemma OutputRowJoins(env: string, segments: seq<string>, e: Event, g: Event)
    requires Apart(segments)
    ensures JoinedRow(env, segments, e, g, OutputRow(env, segments, e, g))
  {
    hide EnvSegment, KeptAt, CellOf, At, RowOf, Shows;
    var n, evalHeader, goalHeader := |segments|, EvaluationHeader(segments), GoalHeader(segments);
    var evalColumns, goalColumns := ColumnNames(env, evalHeader), ColumnNames(env, goalHeader);
    RowOfShows(e, evalColumns);
    RowOfShows(g, goalColumns);
    var kept := Keep(goalHeader, RowOf(g, goalColumns), segments + [COLUMN_VARIATION]);
    GoalColumnsKept(segments);
    var row := OutputRow(env, segments, e, g);
    OutputRowCvr(env, segments, e, g);
    PlainNames(env, segments);
    forall k | 0 <= k < n ensures Shows(e, EnvSegment(env, segments[k]), row[k]) {
      assert evalColumns[k] == EnvSegment(env, evalHeader[k]);
    }
    assert row[n] == RowOf(e, evalColumns)[n] && row[n + 1] == RowOf(e, evalColumns)[n + 1];
    assert row[n + 2] == RowOf(e, evalColumns)[n + 2];
    assert kept == RowOf(g, goalColumns)[n + 1..];
    assert row == RowOf(e, evalColumns) + kept + [row[n + 8]];
    UserCells(env, segments, e, g);
  }

  lemma UserCells(env: string, segments: seq<string>, e: Event, g: Event)
    ensures var evalColumns := ColumnNames(env, EvaluationHeader(segments));
            var goalColumns := ColumnNames(env, GoalHeader(segments));
            && |RowOf(e, evalColumns)| > |segments| + 1 && |RowOf(g, goalColumns)| > |segments| + 1
            && RowOf(e, evalColumns)[|segments| + 1] == CellOf(e, COLUMN_EVALUATION_USER)
            && RowOf(g, goalColumns)[|segments| + 1] == CellOf(g, COLUMN_GOAL_USER)
  {
    hide EnvSegment, CellOf;
    PlainNames(env, segments);
  }

  lemma PlainNames(env: string, segments: seq<string>)
    ensures var n, evalColumns := |segments|, ColumnNames(env, EvaluationHeader(segments));
            && |evalColumns| == n + 3 && evalColumns[n] == "Variation"
            && evalColumns[n + 1] == "Evaluation user" && evalColumns[n + 2] == "Evaluation total"
    ensures var n, goalColumns := |segments|, ColumnNames(env, GoalHeader(segments));
            && |goalColumns| == n + 6 && goalColumns[n + 1] == "Goal user" && goalColumns[n + 2] == "Goal total"
            && goalColumns[n + 3] == "Goal value total" && goalColumns[n + 4] == "Goal value mean"
            && goalColumns[n + 5] == "Goal value variance"
  {
    hide EnvSegment, ConvHeader, IsUserData;
    NotUserData(env, "Variation");
    NotUserData(env, "Evaluation user");
    NotUserData(env, "Evaluation total");
    NotUserData(env, "Goal user");
    NotUserData(env, "Goal total");
    NotUserData(env, "Goal value total");
    NotUserData(env, "Goal value mean");
    NotUserData(env, "Goal value variance");
  }

  /** The items have the same text in every segment and the same variation. */
  predicate SameGroup(env: string, segments: seq<string>, e: Event, g: Event) {
    && (forall k :: 0 <= k < |segments| ==>
          CellOf(e, EnvSegment(env, segments[k])).value == CellOf(g, EnvSegment(env, segments[k])).value)
    && CellOf(e, "Variation").value == CellOf(g, "Variation").value
  }

  lemma LabelsAgreeExactly(env: string, segments: seq<string>, e: Event, g: Event)
    ensures Label(env, segments, e) == Label(env, segments, g) <==> SameGroup(env, segments, e, g)
  {
    hide CellOf, EnvSegment;
    var n, a, b := |segments|, Label(env, segments, e), Label(env, segments, g);
    assert a[n] == CellOf(e, "Variation").value && b[n] == CellOf(g, "Variation").value;
    assert forall k :: 0 <= k < n ==> a[k] == CellOf(e, EnvSegment(env, segments[k])).value;
    assert forall k :: 0 <= k < n ==> b[k] == CellOf(g, EnvSegment(env, segments[k])).value;
  }

  /** Which items are joined: those of the same segments and variation, of the evaluation items the last. */
  lemma JoinedExactly(env: string, segments: seq<string>, evalItems: seq<Event>, goalItems: seq<Event>, e: nat, g: nat)
    requires e < |evalItems| && g < |goalItems|
    ensures (e, g) in Pairs(Labels(env, segments, evalItems), Labels(env, segments, goalItems)) <==>
            && SameGroup(env, segments, evalItems[e], goalItems[g])
            && forall k :: e < k < |evalItems| ==> !SameGroup(env, segments, evalItems[k], evalItems[e])
  {
    PairsExactly(Labels(env, segments, evalItems), Labels(env, segments, goalItems), e, g);
    LabelsAgreeExactly(env, segments, evalItems[e], goalItems[g]);
    hide SameGroup, Label, Pairs;
    forall k | e < k < |evalItems|
      ensures Labels(env, segments, evalItems)[k] == Labels(env, segments, evalItems)[e] <==>
              SameGroup(env, segments, evalItems[k], evalItems[e])
    {
      LabelsAgreeExactly(env, segments, evalItems[k], evalItems[e]);
    }
  }

  /** The rows of a result: one for each pair of items, in order, that shows what the two items have. */
  ghost predicate Joins(env: string, segments: seq<string>, evalItems: seq<Event>, goalItems: seq<Event>,
      pairs: seq<(nat, nat)>, rows: seq<Row>)
    requires forall p :: p in pairs ==> p.0 < |evalItems| && p.1 < |goalItems|
  {
    && |rows| == |pairs|
    && forall i :: 0 <= i < |rows| ==>
         && rows[i] == OutputRow(env, segments, evalItems[pairs[i].0], goalItems[pairs[i].1])
         && (Apart(segments) ==>
               JoinedRow(env, segments, evalItems[pairs[i].0], goalItems[pairs[i].1], rows[i]))
  }

  /** Goal counts alone without a feature, otherwise joined to the evaluation counts. A segment that
      already carries the environment's prefix is found in no header, and the source indexes the first
      row with -1. */
  method QueryCount(env: string, featureId: string, segments: seq<string>, evalItems: seq<Event>, goalItems: seq<Event>)
    returns (header: seq<string>, rows: seq<Row>)
    requires Namespace(env)
    requires featureId != "" && (evalItems != [] || goalItems != []) ==> forall s :: s in segments ==> !Carries(env, s)
    ensures featureId == "" ==>
              && HeaderOf(env, "", segments, GOAL_COLUMNS, header)
              && rows == Table(goalItems, ColumnList(env, "", segments, GOAL_COLUMNS))
    ensures featureId != "" && (forall s :: s in segments ==> !Carries(env, s)) ==>
              header == Header(EvaluationHeader(segments), GoalHeader(segments), segments)
    ensures featureId != "" ==> forall i :: 0 <= i < |rows| ==> |rows[i]| == |header|
    ensures featureId != "" && (forall s :: s in segments ==> !Carries(env, s)) ==>
              (Apart(segments) <==> header == segments + RESULT_COLUMNS)
    ensures var evals, goals := Labels(env, segments, evalItems), Labels(env, segments, goalItems);
            var pairs := Pairs(Keys(evals), Keys(goals));
            && (pairs == Pairs(evals, goals) <==> KeysFaithful(evals, goals))
            && (featureId != "" ==> Joins(env, segments, evalItems, goalItems, pairs, rows))
    ensures featureId == "" ==> |rows| == |goalItems| && forall i :: 0 <= i < |rows| ==>
              RowShows(goalItems[i], ColumnList(env, "", segments, GOAL_COLUMNS), rows[i])
  {
    hide Carries, HeaderOf, Combined, Header, CellOf, KeysFaithful, Covers, Tuple, Label, RowOf, Joined,
         RowShows, Apart, Joins, OutputRow, Pairs, LastIndex, EnvSegment, ConvHeader, IsUserData;
    HashJoinExactly(Labels(env, segments, evalItems), Labels(env, segments, goalItems));
    var goalColumns, goalHeader := Columns(env, featureId, segments, GOAL_COLUMNS);
    var goalRows, goalErrs := ConvToTable(goalItems, goalColumns);
    forall i | 0 <= i < |goalItems| ensures |goalRows[i]| == |goalHeader| {
      RowWidth(goalItems[i], goalColumns);
    }
    if featureId == "" {
      forall i | 0 <= i < |goalItems| ensures RowShows(goalItems[i], goalColumns, goalRows[i]) {
        RowOfShows(goalItems[i], goalColumns);
      }
      return goalHeader, goalRows;
    }
    var evalColumns, evalHeader := Columns(env, featureId, segments, EVALUATION_COLUMNS);
    var evalRows, evalErrs := ConvToTable(evalItems, evalColumns);
    assert goalRows == Table(goalItems, goalColumns) && evalRows == Table(evalItems, evalColumns);
    assert COLUMN_GOAL_USER in GOAL_COLUMNS && COLUMN_EVALUATION_USER in EVALUATION_COLUMNS;
    if forall s :: s in segments ==> !Carries(env, s) {
      TuplesAreLabels(env, segments, GOAL_COLUMNS, goalColumns, goalHeader, goalItems);
      TuplesAreLabels(env, segments, EVALUATION_COLUMNS, evalColumns, evalHeader, evalItems);
      assert evalHeader == EvaluationHeader(segments) && goalHeader == GoalHeader(segments);
      assert evalColumns == ColumnNames(env, evalHeader) && goalColumns == ColumnNames(env, goalHeader);
    } else {
      assert evalRows == [] && goalRows == [];
    }
    header, rows := ConvToResult(evalHeader, goalHeader, evalRows, goalRows, segments);
    HeaderExactly(segments);
    ghost var pairs := Pairs(Keys(Labels(env, segments, evalItems)), Keys(Labels(env, segments, goalItems)));
    forall i | 0 <= i < |rows|
      ensures rows[i] == OutputRow(env, segments, evalItems[pairs[i].0], goalItems[pairs[i].1])
    {
      assert pairs[i] in pairs;
      OutputRowIs(env, segments, evalItems[pairs[i].0], goalItems[pairs[i].1]);
    }
    RowsJoin(env, segments, evalItems, goalItems, pairs, rows);
  }

  lemma OutputRowIs(env: string, segments: seq<string>, e: Event, g: Event)
    ensures var evalHeader, goalHeader := EvaluationHeader(segments), GoalHeader(segments);
            var evalRow, goalRow := RowOf(e, ColumnNames(env, evalHeader)), RowOf(g, ColumnNames(env, goalHeader));
            && |evalRow| == |evalHeader| && |goalRow| == |goalHeader|
            && OutputRow(env, segments, e, g) == Combined(evalHeader, evalRow, goalHeader, goalRow, segments)
  {
  }

  lemma RowsJoin(env: string, segments: seq<string>, evalItems: seq<Event>, goalItems: seq<Event>,
      pairs: seq<(nat, nat)>, rows: seq<Row>)
    requires forall p :: p in pairs ==> p.0 < |evalItems| && p.1 < |goalItems|
    requires |rows| == |pairs|
    requires forall i :: 0 <= i < |rows| ==>
               rows[i] == OutputRow(env, segments, evalItems[pairs[i].0], goalItems[pairs[i].1])
    ensures Joins(env, segments, evalItems, goalItems, pairs, rows)
  {
    hide OutputRow, JoinedRow, Apart;
    forall i | 0 <= i < |rows| && Apart(segments)
      ensures JoinedRow(env, segments, evalItems[pairs[i].0], goalItems[pairs[i].1], rows[i])
    {
      OutputRowJoins(env, segments, evalItems[pairs[i].0], goalItems[pairs[i].1]);
    }
  }

  /** From the persister to the table: the label of an item whose dimension was cut from a printed
      evaluation ends in the variation id. */
  lemma LabelEndsInVariation(env: string, segments: seq<string>, event: Event, featureId: string, version: int,
      variationId: string, reason: string)
    requires FeatureId(featureId) && Plain(variationId) && Plain(reason)
    requires COLUMN_VARIATION in event
    requires var cut := Find(Java, EVALUATION_DIM, EvaluationText(featureId, version, variationId, reason));
             cut.Some? ==> event[COLUMN_VARIATION] == Text(cut.value)
    ensures Label(env, segments, event)[|segments|] == variationId
  {
    VariationRoundTrip(featureId, version, variationId, reason);
  }
}
