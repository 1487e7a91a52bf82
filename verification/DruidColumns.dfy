/** Column names between the event persister, Druid and the querier: user data columns carry an
    environment prefix in storage and lose it again in the result headers. */
module DruidColumns {
  import opened Environments
  import opened Regex

  const COLUMN_VARIATION: string := "Variation"
  const COLUMN_CVR: string := "Conversion rate"
  const COLUMN_GOAL_USER: string := "Goal user"
  const COLUMN_EVALUATION_USER: string := "Evaluation user"
  const GOAL_COLUMNS: seq<string> :=
    [COLUMN_GOAL_USER, "Goal total", "Goal value total", "Goal value mean", "Goal value variance"]
  const EVALUATION_COLUMNS: seq<string> := [COLUMN_EVALUATION_USER, "Evaluation total"]
  const USER_DATA: string := "user.data."

  /** How the columns of user data begin in an environment's rows. */
  function Prefix(env: string): string {
    if env == "" then USER_DATA else env + "." + USER_DATA
  }

  /** The column the event persister writes for a key of the user's data. */
  function UserMetadataColumn(env: string, key: string): string {
    Prefix(env) + key
  }

  /** ^env\.user\.data\.(.*)$; the namespace is interpolated unescaped. */
  function UserDataPattern(env: string): Pattern {
    Lits(Prefix(env)) + [GroupStar]
  }

  predicate IsUserData(env: string, column: string) {
    Matches(Go, UserDataPattern(env), column)
  }

  function RemoveEnvFromUserData(env: string, column: string): string
    requires IsUserData(env, column)
  {
    USER_DATA + Find(Go, UserDataPattern(env), column).value
  }

  function ConvHeader(env: string, column: string): string {
    if IsUserData(env, column) then RemoveEnvFromUserData(env, column) else column
  }

  function EnvSegment(env: string, segment: string): string {
    if env != "" && IsUserData("", segment) then env + "." + segment else segment
  }

  method ConvToEnvSegments(env: string, segments: seq<string>) returns (r: seq<string>)
    ensures |r| == |segments| && forall i :: 0 <= i < |r| ==> r[i] == EnvSegment(env, segments[i])
  {
    if env == "" {
      return segments;
    }
    r := [];
    for i := 0 to |segments|
      invariant |r| == i && forall k :: 0 <= k < i ==> r[k] == EnvSegment(env, segments[k])
    {
      if IsUserData("", segments[i]) {
        r := r + [env + "." + segments[i]];
        continue;
      }
      r := r + [segments[i]];
    }
  }

  method ConvHeaders(env: string, columns: seq<string>) returns (headers: seq<string>)
    ensures |headers| == |columns| && forall i :: 0 <= i < |columns| ==> headers[i] == ConvHeader(env, columns[i])
  {
    headers := [];
    for i := 0 to |columns|
      invariant |headers| == i && forall k :: 0 <= k < i ==> headers[k] == ConvHeader(env, columns[k])
    {
      if IsUserData(env, columns[i]) {
        headers := headers + [RemoveEnvFromUserData(env, columns[i])];
        continue;
      }
      headers := headers + [columns[i]];
    }
  }

  function GenerateColumns(featureId: string, segments: seq<string>, valueColumns: seq<string>): seq<string> {
    segments + (if featureId != "" then [COLUMN_VARIATION] else []) + valueColumns
  }

  // ----- Round trips -----

  lemma UserDataMeans(env: string, column: string)
    ensures IsUserData(env, column) <==> Prefix(env) <= column && DotOnly(Go, column[|Prefix(env)|..])
    ensures IsUserData(env, column) ==> RemoveEnvFromUserData(env, column) == USER_DATA + column[|Prefix(env)|..]
  {
    LiteralPrefix(Go, Prefix(env), [GroupStar], column);
    if Prefix(env) <= column {
      FinalStar(Go, GroupStar, column[|Prefix(env)|..]);
    }
  }

  /** A namespace prefix never starts like plain user data. */
  lemma PrefixesDiffer(env: string, column: string)
    requires env != "" && Namespace(env) && Prefix(env) <= column
    ensures !(USER_DATA <= column)
  {
    var p, n := Prefix(env), |env|;
    assert p == column[..|p|];
    assert forall i :: 0 <= i < n ==> p[i] == env[i] && env[i] in env;
    assert p[n] == '.' && p[n + 1] == 'u' && column[n] == '.' && column[n + 1] == 'u';
    assert forall i :: 0 <= i < n ==> column[i] != '.';
    assert USER_DATA[4] == '.' && USER_DATA[5] == 'd';
    if n != 4 {
      assert n < 4 ==> USER_DATA[n] != '.';
      assert n > 4 ==> column[4] != '.';
      assert column[if n < 4 then n else 4] != USER_DATA[if n < 4 then n else 4];
    } else {
      assert column[5] != USER_DATA[5];
    }
  }

  /** A requested segment gets its own name back as a header, unless it already carried the prefix of
      the environment. */
  lemma SegmentRoundTrip(env: string, segment: string)
    requires Namespace(env)
    ensures ConvHeader(env, EnvSegment(env, segment)) == segment <==> !Carries(env, segment)
  {
    hide IsUserData, RemoveEnvFromUserData;
    UserDataMeans(env, segment);
    UserDataMeans("", segment);
    if env == "" {
      assert IsUserData(env, segment) ==> segment == USER_DATA + segment[|USER_DATA|..];
    } else if IsUserData("", segment) {
      var k := segment[|USER_DATA|..];
      var column := env + "." + segment;
      assert segment == USER_DATA + k && column == Prefix(env) + k;
      assert column[|Prefix(env)|..] == k;
      UserDataMeans(env, column);
      NotBoth(env, segment);
    } else if IsUserData(env, segment) {
      assert |RemoveEnvFromUserData(env, segment)| == |segment| - |env| - 1;
    }
  }

  lemma NotBoth(env: string, segment: string)
    requires env != "" && Namespace(env) && USER_DATA <= segment
    ensures !IsUserData(env, segment)
  {
    UserDataMeans(env, segment);
    if Prefix(env) <= segment {
      PrefixesDiffer(env, segment);
    }
  }

  /** The column the persister writes is shown as "user.data.key"; in an environment with a namespace
      only keys without a line feed are recognized. */
  lemma PersistedColumnRoundTrip(env: string, key: string)
    requires Namespace(env)
    ensures ConvHeader(env, UserMetadataColumn(env, key)) == USER_DATA + key <==> env == "" || DotOnly(Go, key)
  {
    var column := UserMetadataColumn(env, key);
    UserDataMeans(env, column);
    assert column == Prefix(env) + key && column[|Prefix(env)|..] == key;
  }

  /** The column asked of Druid for a segment of user data is the one the persister writes for its key, with
      the environment's prefix, except for a key with a line feed in an environment with a namespace. */
  lemma SegmentIsPersisted(env: string, key: string)
    ensures EnvSegment(env, "user.data." + key) == UserMetadataColumn(env, key) <==> env == "" || DotOnly(Go, key)
    ensures UserMetadataColumn(env, key) == (if env == "" then "" else env + ".") + "user.data." + key
  {
    var segment := USER_DATA + key;
    UserDataMeans("", segment);
    assert segment[|USER_DATA|..] == key;
    assert env + "." + segment == (env + "." + USER_DATA) + key;
    if env != "" {
      assert |UserMetadataColumn(env, key)| > |segment|;
    }
  }

  lemma NotUserData(env: string, column: string)
    requires '.' !in column
    ensures !IsUserData(env, column) && ConvHeader(env, column) == column && EnvSegment(env, column) == column
  {
    UserDataMeans(env, column);
    UserDataMeans("", column);
    assert Prefix(env)[|Prefix(env)| - 1] == '.' && USER_DATA[|USER_DATA| - 1] == '.';
  }

  /** The header of a requested segment, found or not, is never a segment carrying the prefix. */
  lemma PrefixedIsNoHeader(env: string, segment: string, column: string)
    requires env != "" && Namespace(env) && IsUserData(env, segment)
    ensures ConvHeader(env, column) != segment
  {
    UserDataMeans(env, segment);
    UserDataMeans(env, column);
    PrefixesDiffer(env, segment);
    if IsUserData(env, column) {
      assert USER_DATA <= ConvHeader(env, column);
    }
  }

  ghost predicate HeaderOf(env: string, featureId: string, segments: seq<string>, valueColumns: seq<string>,
      headers: seq<string>) {
    && |headers| == |segments| + (if featureId != "" then 1 else 0) + |valueColumns|
    && forall i :: 0 <= i < |headers| ==>
         headers[i] == ConvHeader(env, ColumnAt(env, featureId, segments, valueColumns, i))
  }

  function ColumnAt(env: string, featureId: string, segments: seq<string>, valueColumns: seq<string>, i: nat): string
    requires i < |segments| + (if featureId != "" then 1 else 0) + |valueColumns|
  {
    if i < |segments| then EnvSegment(env, segments[i])
    else if featureId == "" then valueColumns[i - |segments|]
    else if i == |segments| then COLUMN_VARIATION
    else valueColumns[i - |segments| - 1]
  }

  predicate Carries(env: string, segment: string) {
    env != "" && IsUserData(env, segment)
  }

  lemma ValueColumnsPlain(valueColumns: seq<string>, c: string)
    requires valueColumns == GOAL_COLUMNS || valueColumns == EVALUATION_COLUMNS
    requires c in [COLUMN_VARIATION] + valueColumns
    ensures '.' !in c
  {
  }

  /** With a feature id the headers are the requested segments, the variation column and the value
      columns, as long as no segment already carries the prefix of the environment. */
  lemma HeadersComplete(env: string, featureId: string, segments: seq<string>, valueColumns: seq<string>,
      headers: seq<string>)
    requires Namespace(env) && featureId != "" && HeaderOf(env, featureId, segments, valueColumns, headers)
    requires valueColumns == GOAL_COLUMNS || valueColumns == EVALUATION_COLUMNS
    requires forall s :: s in segments ==> !Carries(env, s)
    ensures headers == segments + [COLUMN_VARIATION] + valueColumns
  {
    hide IsUserData, EnvSegment, ConvHeader;
    var expected := segments + [COLUMN_VARIATION] + valueColumns;
    forall i | 0 <= i < |headers| ensures headers[i] == expected[i] {
      if i < |segments| {
        assert !Carries(env, segments[i]);
        SegmentRoundTrip(env, segments[i]);
      } else {
        assert expected[i] == ColumnAt(env, featureId, segments, valueColumns, i);
        ValueColumnsPlain(valueColumns, expected[i]);
        NotUserData(env, expected[i]);
      }
    }
  }

  /** Every requested segment is found in the headers exactly when none carries the prefix; otherwise
      the join indexes its first row, if there is one, with -1. */
  lemma SegmentsFoundExactly(env: string, featureId: string, segments: seq<string>, valueColumns: seq<string>,
      headers: seq<string>)
    requires Namespace(env) && featureId != "" && HeaderOf(env, featureId, segments, valueColumns, headers)
    requires valueColumns == GOAL_COLUMNS || valueColumns == EVALUATION_COLUMNS
    ensures (forall s :: s in segments ==> s in headers) <==> (forall s :: s in segments ==> !Carries(env, s))
  {
    hide IsUserData, EnvSegment, ConvHeader;
    if forall s :: s in segments ==> !Carries(env, s) {
      HeadersComplete(env, featureId, segments, valueColumns, headers);
    } else {
      var s :| s in segments && Carries(env, s);
      forall i | 0 <= i < |headers| ensures headers[i] != s {
        PrefixedIsNoHeader(env, s, ColumnAt(env, featureId, segments, valueColumns, i));
      }
    }
  }
}
