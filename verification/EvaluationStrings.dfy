/** A goal event carries each evaluation as the string feature:version:variation:reason. The event
    persister prints it, the Druid query selects and cuts it, and the querier reads the variation
    back from what is left. */
module EvaluationStrings {
  import opened Regex
  import opened Separators
  import opened Wrappers

  // ----- Printing -----

  function Digit(d: nat): char
    requires d < 10
  {
    "0123456789"[d]
  }

  function NatText(n: nat): (s: string)
    ensures s != [] && forall c :: c in s ==> '0' <= c <= '9'
  {
    if n < 10 then [Digit(n)] else NatText(n / 10) + [Digit(n % 10)]
  }

  /** Go's %d. */
  function IntText(n: int): string {
    if n < 0 then "-" + NatText(-n) else NatText(n)
  }

  function EvaluationText(featureId: string, version: int, variationId: string, reason: string): string {
    featureId + ":" + IntText(version) + ":" + variationId + ":" + reason
  }

  // ----- The patterns -----

  /** A feature id contains no regular expression syntax: it is interpolated into the query unescaped. */
  predicate FeatureId(s: string) {
    forall c :: c in s ==> 'a' <= c <= 'z' || 'A' <= c <= 'Z' || '0' <= c <= '9' || c == '-'
  }

  /** Ids and reasons: no colon, no line terminator. */
  predicate Plain(s: string) {
    Free(s, ':') && DotOnly(Java, s)
  }

  /** A requested reason is interpolated unescaped too, and nothing validates it. */
  predicate ReasonPattern(s: string) {
    forall c :: c in s ==> 'a' <= c <= 'z' || 'A' <= c <= 'Z' || '0' <= c <= '9' || c in "_-.|"
  }

  /** Of the syntax in such a text the bar separates alternatives. */
  function Alternatives(text: string): (r: seq<string>)
    ensures |r| >= 1 && (|r| == 1 <==> '|' !in text) && (|r| == 1 ==> r[0] == text)
    ensures forall a, c :: a in r && c in a ==> c in text && c != '|'
  {
    if text == "" then [""]
    else
      var rest := Alternatives(text[1..]);
      if text[0] == '|' then [""] + rest else [[text[0]] + rest[0]] + rest[1..]
  }

  /** Within an alternative the dot stands for any character. */
  function Interpolated(text: string): (p: Pattern)
    ensures |p| == |text|
  {
    seq(|text|, i requires 0 <= i < |text| => if text[i] == '.' then AnyOne else Lit(text[i]))
  }

  function FilterPrefix(featureId: string, version: int): Pattern {
    Lits(featureId + ":" + IntText(version) + ":") + [AnyStar]
  }

  /** ^feature:version:.*:reason$, or ^feature:version:.*$ without a reason. A bar in the reason splits the
      whole expression: only the first alternative has the start, and only the last one has the end. */
  function FilterBranches(featureId: string, version: int, reason: string): seq<Branch> {
    if reason == "" then [Branch(true, FilterPrefix(featureId, version), true)]
    else
      var alts := Alternatives(reason);
      seq(|alts|, k requires 0 <= k < |alts| =>
        Branch(k == 0, (if k == 0 then FilterPrefix(featureId, version) + [Lit(':')] else []) + Interpolated(alts[k]),
            k == |alts| - 1))
  }

  /** ^(.*):.*$ */
  const EVALUATION_DIM: Pattern := [GroupStar, Lit(':'), AnyStar]

  /** ^.*:.*:(.*)$ */
  const VARIATION_REGEX: Pattern := [AnyStar, Lit(':'), AnyStar, Lit(':'), GroupStar]

  /** What the querier shows for a dimension value: the group, or the value itself without a match. */
  function VariationCell(value: string): string {
    match Find(Go, VARIATION_REGEX, value)
    case Some(group) => group
    case None => value
  }

  // ----- Numbers are printed injectively -----

  lemma {:induction false} NatTextInjective(n: nat, m: nat)
    requires NatText(n) == NatText(m)
    ensures n == m
  {
    var s := NatText(n);
    if n >= 10 && m >= 10 {
      assert s[..|s| - 1] == NatText(n / 10) && s[..|s| - 1] == NatText(m / 10);
      assert s[|s| - 1] == Digit(n % 10) == Digit(m % 10);
      NatTextInjective(n / 10, m / 10);
      DigitInjective(n % 10, m % 10);
    } else if n < 10 && m < 10 {
      assert s[0] == Digit(n) == Digit(m);
      DigitInjective(n, m);
    }
  }

  lemma DigitInjective(d: nat, e: nat)
    requires d < 10 && e < 10 && Digit(d) == Digit(e)
    ensures d == e
  {
  }

  lemma IntTextInjective(n: int, m: int)
    requires IntText(n) == IntText(m)
    ensures n == m
  {
    assert n < 0 ==> IntText(n)[0] == '-' && IntText(n)[1..] == NatText(-n);
    assert m < 0 ==> IntText(m)[0] == '-' && IntText(m)[1..] == NatText(-m);
    assert n >= 0 ==> IntText(n)[0] in NatText(n);
    assert m >= 0 ==> IntText(m)[0] in NatText(m);
    if n < 0 && m < 0 {
      NatTextInjective(-n, -m);
    } else if n >= 0 && m >= 0 {
      NatTextInjective(n, m);
    }
  }

  lemma IntTextPlain(n: int)
    ensures Plain(IntText(n))
  {
  }

  lemma FeatureIdPlain(s: string)
    requires FeatureId(s)
    ensures Plain(s)
  {
  }

  // ----- Cutting fields off -----

  /** No star can find a colon in a colon-free text. */
  lemma NoColon(e: Engine, p: Pattern, s: string, n: nat)
    requires |p| > 1 && IsStar(p[0]) && p[1] == Lit(':') && Free(s, ':') && n <= |s|
    ensures FindStar(e, p, s, n).None? && Find(e, p, s).None?
  {
    forall j | 0 <= j <= |s| ensures Find(e, p[1..], s[j..]).None? {
      assert p[1..][0] == Lit(':');
      if j < |s| {
        assert s[j..][0] in s;
      }
    }
    StarFails(e, p, s, n);
    StarFails(e, p, s, DotRun(e, s));
  }

  /** The first star of a pattern ending in the last field stops at the last colon it can. */
  lemma CutAtColon(e: Engine, p: Pattern, a: string, b: string)
    requires |p| > 1 && IsStar(p[0]) && p[1] == Lit(':') && DotOnly(e, a + ":" + b)
    requires Find(e, p[2..], b).Some?
    requires forall j :: 0 <= j < |b| && b[j] == ':' ==> Find(e, p[2..], b[j + 1..]).None?
    ensures Find(e, p, a + ":" + b) == if p[0].GroupStar? then Some(a) else Find(e, p[2..], b)
  {
    var s, k := a + ":" + b, |a|;
    var q := p[1..];
    assert q[0] == Lit(':') && q[1..] == p[2..];
    DotRunAll(e, s);
    assert s[k..][0] == ':' && s[k..][1..] == b && s[..k] == a;
    assert Find(e, q, s[k..]) == Find(e, p[2..], b);
    forall j | k < j <= |s| ensures Find(e, q, s[j..]).None? {
      if j < |s| {
        assert s[j] == b[j - k - 1] && s[j..][1..] == b[j - k..];
      }
    }
    StarTakesLongest(e, p, s, |s|, k);
  }

  /** Dropping the last field. */
  lemma DropLastField(a: string, b: string)
    requires Free(b, ':') && DotOnly(Java, a + ":" + b)
    ensures Find(Java, EVALUATION_DIM, a + ":" + b) == Some(a)
  {
    assert DotOnly(Java, b) by {
      DotOnlySuffix(Java, a + ":" + b, |a| + 1);
      assert (a + ":" + b)[|a| + 1..] == b;
    }
    assert EVALUATION_DIM[2..] == [AnyStar];
    FinalStar(Java, AnyStar, b);
    assert forall j :: 0 <= j < |b| ==> b[j] in b;
    CutAtColon(Java, EVALUATION_DIM, a, b);
  }

  /** Reading the last of at least three fields. */
  lemma LastOfThree(a: string, b: string, c: string)
    requires Free(b, ':') && Free(c, ':') && DotOnly(Go, a + ":" + (b + ":" + c))
    ensures Find(Go, VARIATION_REGEX, a + ":" + (b + ":" + c)) == Some(c)
  {
    var bc := b + ":" + c;
    assert DotOnly(Go, bc) && DotOnly(Go, c) by {
      DotOnlySuffix(Go, a + ":" + bc, |a| + 1);
      assert (a + ":" + bc)[|a| + 1..] == bc;
      DotOnlySuffix(Go, bc, |b| + 1);
      assert bc[|b| + 1..] == c;
    }
    var p2 := VARIATION_REGEX[2..];
    assert p2 == [AnyStar, Lit(':'), GroupStar] && p2[2..] == [GroupStar];
    FinalStar(Go, GroupStar, c);
    assert forall j :: 0 <= j < |c| ==> c[j] in c;
    assert forall j :: 0 <= j < |b| ==> b[j] in b;
    CutAtColon(Go, p2, b, c);
    forall j | 0 <= j < |bc| && bc[j] == ':' ensures Find(Go, p2, bc[j + 1..]).None? {
      assert j == |b|;
      assert bc[j + 1..] == c;
      NoColon(Go, p2, c, 0);
    }
    CutAtColon(Go, VARIATION_REGEX, a, bc);
  }

  /** What is printed for an evaluation comes back as exactly its variation id. */
  lemma VariationRoundTrip(featureId: string, version: int, variationId: string, reason: string)
    requires FeatureId(featureId) && Plain(variationId) && Plain(reason)
    ensures var cut := Find(Java, EVALUATION_DIM, EvaluationText(featureId, version, variationId, reason));
            cut.Some? && VariationCell(cut.value) == variationId
  {
    FeatureIdPlain(featureId);
    IntTextPlain(version);
    var v := IntText(version);
    var cut := featureId + ":" + v + ":" + variationId;
    assert EvaluationText(featureId, version, variationId, reason) == cut + ":" + reason;
    DropLastField(cut, reason);
    assert cut == featureId + ":" + (v + ":" + variationId);
    LastOfThree(featureId, v, variationId);
  }

  // ----- Selecting -----

  /** The fields of a printed evaluation are determined by the text. */
  lemma PrefixIsFeatureAndVersion(f: string, v: int, f': string, v': int, rest: string)
    requires Free(f, ':') && Free(f', ':')
    ensures (f + ":" + IntText(v) + ":" <= f' + ":" + (IntText(v') + ":" + rest)) <==> f == f' && v == v'
  {
    var t, t' := IntText(v), IntText(v');
    IntTextPlain(v);
    IntTextPlain(v');
    var prefix, s := f + ":" + t + ":", f' + ":" + (t' + ":" + rest);
    if prefix <= s {
      var more := s[|prefix|..];
      assert s == prefix + more;
      assert s == f + ":" + (t + ":" + more);
      SplitAtFirst(f, t + ":" + more, f', t' + ":" + rest, ':');
      SplitAtFirst(t, more, t', rest, ':');
      IntTextInjective(v, v');
    }
    if f == f' && v == v' {
      assert s == prefix + rest;
    }
  }

  /** What a reason with dots for some of its characters selects. */
  predicate FitsPattern(pattern: string, s: string) {
    |pattern| == |s| && forall i :: 0 <= i < |s| ==> pattern[i] == s[i] || pattern[i] == '.'
  }

  lemma {:induction false} InterpolatedMatches(e: Engine, text: string, s: string)
    requires DotOnly(e, s)
    ensures Matches(e, Interpolated(text), s) <==> FitsPattern(text, s)
    decreases |text|
  {
    var p := Interpolated(text);
    if text != "" && s != "" {
      assert s[0] in s;
      assert p[1..] == Interpolated(text[1..]);
      InterpolatedMatches(e, text[1..], s[1..]);
      assert FitsPattern(text, s) <==> (text[0] == s[0] || text[0] == '.') && FitsPattern(text[1..], s[1..]) by {
        assert text == [text[0]] + text[1..] && s == [s[0]] + s[1..];
      }
    }
  }

  lemma SuffixFits(e: Engine, reason: string, a: string, r: string)
    requires Free(a, ':') && Free(r, ':') && DotOnly(e, a + ":" + r)
    ensures Matches(e, [AnyStar] + ([Lit(':')] + Interpolated(reason)), a + ":" + r) <==> FitsPattern(reason, r)
  {
    var s, tail := a + ":" + r, [Lit(':')] + Interpolated(reason);
    var p := [AnyStar] + tail;
    assert p[1..] == tail && tail[1..] == Interpolated(reason);
    DotRunAll(e, s);
    StarMatches(e, p, s, |s|);
    assert s[|a|] == ':' && s[|a| + 1..] == r && s[|a|..][1..] == r;
    DotOnlySuffix(e, s, |a| + 1);
    InterpolatedMatches(e, reason, r);
    assert Find(e, tail, s[|a|..]).Some? <==> FitsPattern(reason, r);
    hide FindStar;
    forall j | 0 <= j <= |s| && j != |a| ensures Find(e, tail, s[j..]).None? {
      if j < |s| {
        assert s[j] in if j < |a| then a else r;
      }
    }
  }

  /** The reason begins, or is, like the alternative. */
  predicate StartsLike(a: string, reason: string, whole: bool) {
    |a| <= |reason| && (whole ==> |a| == |reason|) && FitsPattern(a, reason[..|a|])
  }

  predicate LikeAt(a: string, s: string, i: nat) {
    i + |a| <= |s| && FitsPattern(a, s[i..i + |a|])
  }

  /** Some part of the text, or its end, is like the alternative. */
  predicate OccursLike(a: string, s: string, atEnd: bool) {
    exists i: nat :: i <= |s| && LikeAt(a, s, i) && (atEnd ==> i + |a| == |s|)
  }

  /** So is one of the alternatives behind a bar. */
  predicate LaterOccurs(alts: seq<string>, s: string) {
    exists k :: 1 <= k < |alts| && OccursLike(alts[k], s, k == |alts| - 1)
  }

  /** Those are searched for anywhere. */
  lemma LaterBranch(e: Engine, a: string, s: string, atEnd: bool)
    requires DotOnly(e, s)
    ensures Finds(e, Branch(false, [] + Interpolated(a), atEnd), s) <==> OccursLike(a, s, atEnd)
  {
    var b := Branch(false, [] + Interpolated(a), atEnd);
    assert [] + Interpolated(a) == Interpolated(a);
    forall i, j | 0 <= i <= j <= |s| ensures Matches(e, b.p, s[i..j]) <==> FitsPattern(a, s[i..j]) {
      InterpolatedMatches(e, a, s[i..j]);
    }
    hide Matches, FitsPattern;
    if i: nat, j: nat :| i <= j <= |s| && FoundAt(e, b, s, i, j) {
      FitsLength(a, s[i..j]);
      assert LikeAt(a, s, i);
    }
    if i: nat :| i <= |s| && LikeAt(a, s, i) && (atEnd ==> i + |a| == |s|) {
      assert FoundAt(e, b, s, i, i + |a|);
    }
  }

  lemma FitsLength(a: string, s: string)
    requires FitsPattern(a, s)
    ensures |a| == |s|
  {
  }

  /** What the first alternative finds up to position `j`. */
  lemma FirstUpTo(f: string, v: int, a: string, f': string, v': int, variation': string, reason': string, j: nat)
    requires FeatureId(f) && FeatureId(f') && Plain(variation') && Plain(reason')
    requires j <= |EvaluationText(f', v', variation', reason')|
    ensures var start := |f'| + |IntText(v')| + |variation'| + 3;
            Matches(Java, FilterPrefix(f, v) + [Lit(':')] + Interpolated(a),
                EvaluationText(f', v', variation', reason')[..j]) <==>
            && f == f' && v == v' && start <= j <= start + |reason'| && FitsPattern(a, reason'[..j - start])
  {
    hide Find, IntText, FitsPattern, Interpolated, Free;
    FeatureIdPlain(f);
    FeatureIdPlain(f');
    IntTextPlain(v');
    var prefix, tail := f + ":" + IntText(v) + ":", [AnyStar] + ([Lit(':')] + Interpolated(a));
    var rest, s := variation' + ":" + reason', EvaluationText(f', v', variation', reason');
    assert s == f' + ":" + (IntText(v') + ":" + rest);
    assert FilterPrefix(f, v) + [Lit(':')] + Interpolated(a) == Lits(prefix) + tail;
    LiteralPrefix(Java, prefix, tail, s[..j]);
    PrefixIsFeatureAndVersion(f, v, f', v', rest);
    PrefixUpTo(prefix, s, j);
    if f == f' && v == v' {
      assert s == prefix + rest;
      if j >= |prefix| {
        assert s[..j][|prefix|..] == rest[..j - |prefix|];
        FieldUpTo(a, variation', reason', j - |prefix|);
      }
    }
  }

  lemma PrefixUpTo(prefix: string, s: string, j: nat)
    requires j <= |s|
    ensures prefix <= s[..j] <==> prefix <= s && |prefix| <= j
  {
  }

  lemma FieldUpTo(a: string, variation: string, reason: string, m: nat)
    requires Plain(variation) && Plain(reason) && m <= |variation + ":" + reason|
    ensures Matches(Java, [AnyStar] + ([Lit(':')] + Interpolated(a)), (variation + ":" + reason)[..m]) <==>
            |variation| < m && FitsPattern(a, reason[..m - |variation| - 1])
  {
    hide Find, FitsPattern, Interpolated;
    var s, p := (variation + ":" + reason)[..m], [AnyStar] + ([Lit(':')] + Interpolated(a));
    if m <= |variation| {
      assert s == variation[..m];
      NoColon(Java, p, s, 0);
    } else {
      var r := reason[..m - |variation| - 1];
      assert s == variation + ":" + r;
      SuffixFits(Java, a, variation, r);
    }
  }

  lemma FirstBranch(f: string, v: int, a: string, f': string, v': int, variation': string, reason': string, whole: bool)
    requires FeatureId(f) && FeatureId(f') && Plain(variation') && Plain(reason')
    ensures Finds(Java, Branch(true, FilterPrefix(f, v) + [Lit(':')] + Interpolated(a), whole),
                EvaluationText(f', v', variation', reason')) <==>
            f == f' && v == v' && StartsLike(a, reason', whole)
  {
    var b := Branch(true, FilterPrefix(f, v) + [Lit(':')] + Interpolated(a), whole);
    var s, start := EvaluationText(f', v', variation', reason'), |f'| + |IntText(v')| + |variation'| + 3;
    assert |s| == start + |reason'|;
    hide Matches, FitsPattern, EvaluationText, IntText, FilterPrefix, Interpolated, FeatureId, Plain;
    if i: nat, j: nat :| i <= j <= |s| && FoundAt(Java, b, s, i, j) {
      FirstUpTo(f, v, a, f', v', variation', reason', j);
      FitsLength(a, reason'[..j - start]);
    }
    if f == f' && v == v' && StartsLike(a, reason', whole) {
      var j := start + |a|;
      FirstUpTo(f, v, a, f', v', variation', reason', j);
      assert FoundAt(Java, b, s, 0, j);
    }
  }

  /** The query selects exactly the evaluations of its feature and version and, when it names a reason,
      of the reasons that fit it, each dot standing for any character. Behind a bar it selects whatever
      contains the alternative, of any feature. */
  lemma FilterSelectsExactly(
    f: string, v: int, reason: string, f': string, v': int, variation': string, reason': string)
    requires FeatureId(f) && FeatureId(f') && ReasonPattern(reason) && Plain(variation') && Plain(reason')
    ensures var text, alts := EvaluationText(f', v', variation', reason'), Alternatives(reason);
            FindsAny(Java, FilterBranches(f, v, reason), text) <==>
            || (f == f' && v == v' && (reason == "" || StartsLike(alts[0], reason', |alts| == 1)))
            || LaterOccurs(alts, text)
  {
    hide Finds, IntText, StartsLike, OccursLike, Alternatives, Interpolated, FeatureId, FilterPrefix, EvaluationText;
    var text, alts, bs := EvaluationText(f', v', variation', reason'), Alternatives(reason),
      FilterBranches(f, v, reason);
    if reason == "" {
      assert Alternatives("") == [""];
      WithoutReason(f, v, f', v', variation', reason');
      assert bs[0] == Branch(true, FilterPrefix(f, v), true);
    } else {
      FirstBranch(f, v, alts[0], f', v', variation', reason', |alts| == 1);
      TextPlain(f', v', variation', reason');
      forall k | 1 <= k < |alts| ensures Finds(Java, bs[k], text) <==> OccursLike(alts[k], text, k == |alts| - 1) {
        LaterBranch(Java, alts[k], text, k == |alts| - 1);
      }
      assert bs[0] == Branch(true, FilterPrefix(f, v) + [Lit(':')] + Interpolated(alts[0]), |alts| == 1);
    }
  }

  lemma TextPlain(f: string, v: int, variation: string, reason: string)
    requires FeatureId(f) && Plain(variation) && Plain(reason)
    ensures DotOnly(Java, EvaluationText(f, v, variation, reason))
  {
    hide IntText;
    FeatureIdPlain(f);
    IntTextPlain(v);
  }

  lemma WithoutReason(f: string, v: int, f': string, v': int, variation': string, reason': string)
    requires FeatureId(f) && FeatureId(f') && Plain(variation') && Plain(reason')
    ensures Finds(Java, Branch(true, FilterPrefix(f, v), true), EvaluationText(f', v', variation', reason')) <==>
            f == f' && v == v'
  {
    hide Find, IntText;
    FeatureIdPlain(f);
    FeatureIdPlain(f');
    IntTextPlain(v');
    var prefix, rest := f + ":" + IntText(v) + ":", variation' + ":" + reason';
    var s, b := EvaluationText(f', v', variation', reason'), Branch(true, FilterPrefix(f, v), true);
    assert s == f' + ":" + (IntText(v') + ":" + rest);
    assert s[..|s|] == s && s[0..|s|] == s;
    LiteralPrefix(Java, prefix, [AnyStar], s);
    PrefixIsFeatureAndVersion(f, v, f', v', rest);
    if f == f' && v == v' {
      assert s[|prefix|..] == rest;
      FinalStar(Java, AnyStar, rest);
    }
    assert Matches(Java, b.p, s) <==> f == f' && v == v';
    assert FoundAt(Java, b, s, 0, |s|) <==> f == f' && v == v';
  }

  // ----- Counting goal events -----

  datatype Evaluation = Evaluation(featureId: string, version: int, variationId: string, reason: string)

  predicate PlainEvaluation(x: Evaluation) {
    FeatureId(x.featureId) && Plain(x.variationId) && Plain(x.reason)
  }

  /** The evaluations of one goal event: at most one of each feature. */
  predicate Evaluations(xs: seq<Evaluation>) {
    && (forall x :: x in xs ==> PlainEvaluation(x))
    && forall i, j :: 0 <= i < j < |xs| ==> xs[i].featureId != xs[j].featureId
  }

  ghost predicate Selects(f: string, v: int, reason: string, x: Evaluation) {
    FindsAny(Java, FilterBranches(f, v, reason), EvaluationText(x.featureId, x.version, x.variationId, x.reason))
  }

  /** The query counts an event under a variation: the filter with the reason selects one of the event's
      evaluations, and the dimension, whose pattern has no reason, shows one of that variation. */
  ghost predicate Counted(f: string, v: int, reason: string, xs: seq<Evaluation>, variation: string) {
    && (exists x :: x in xs && Selects(f, v, reason, x))
    && exists x :: x in xs && Selects(f, v, "", x) && x.variationId == variation
  }

  /** What was asked for: events in which the feature was evaluated to the variation for that reason. */
  predicate Requested(f: string, v: int, reason: string, xs: seq<Evaluation>, variation: string) {
    Evaluation(f, v, variation, reason) in xs
  }

  ghost predicate CountsAsRequested(f: string, v: int, reason: string) {
    forall xs, variation :: Evaluations(xs) ==>
      (Counted(f, v, reason, xs, variation) <==> Requested(f, v, reason, xs, variation))
  }

  lemma SelectsExactly(f: string, v: int, reason: string, x: Evaluation)
    requires FeatureId(f) && ReasonPattern(reason) && PlainEvaluation(x) && '|' !in reason
    ensures Selects(f, v, reason, x) <==>
            f == x.featureId && v == x.version && (reason == "" || FitsPattern(reason, x.reason))
  {
    hide FindsAny, FilterBranches, EvaluationText, Alternatives, FitsPattern, OccursLike;
    FilterSelectsExactly(f, v, reason, x.featureId, x.version, x.variationId, x.reason);
    assert x.reason[..|x.reason|] == x.reason;
    if |reason| == |x.reason| {
      assert x.reason[..|reason|] == x.reason;
    } else if FitsPattern(reason, x.reason) {
      FitsLength(reason, x.reason);
    }
  }

  /** A text that the alternative fits, without a dot. */
  function Undotted(text: string): (s: string)
    ensures |s| == |text| && forall i :: 0 <= i < |s| ==> s[i] == if text[i] == '.' then 'D' else text[i]
  {
    seq(|text|, i requires 0 <= i < |text| => if text[i] == '.' then 'D' else text[i])
  }

  lemma UndottedFits(text: string)
    requires ReasonPattern(text)
    ensures Plain(Undotted(text)) && FitsPattern(text, Undotted(text))
    ensures Undotted(text) == text <==> '.' !in text
  {
    assert forall i :: 0 <= i < |text| ==> text[i] in text;
    if '.' in text {
      var i :| 0 <= i < |text| && text[i] == '.';
      assert Undotted(text)[i] != text[i];
    }
  }

  /** With a bar in the reason, the last alternative at the end of an evaluation of another feature selects
      the event. */
  lemma BarSelectsOthers(f: string, v: int, reason: string) returns (x: Evaluation)
    requires FeatureId(f) && ReasonPattern(reason) && '|' in reason
    ensures PlainEvaluation(x) && x.featureId != f && Selects(f, v, reason, x)
  {
    hide FindsAny, FilterBranches, FitsPattern, OccursLike, EvaluationText, StartsLike, Alternatives;
    var alts := Alternatives(reason);
    var n := |alts| - 1;
    UndottedFits(alts[n]);
    x := Evaluation(f + "x", v, "", Undotted(alts[n]));
    var text := EvaluationText(x.featureId, x.version, x.variationId, x.reason);
    FilterSelectsExactly(f, v, reason, x.featureId, x.version, x.variationId, x.reason);
    EndsLike(alts[n], x);
    assert n >= 1 && OccursLike(alts[n], text, n == |alts| - 1);
    assert LaterOccurs(alts, text);
  }

  lemma EndsLike(a: string, x: Evaluation)
    requires FitsPattern(a, x.reason)
    ensures OccursLike(a, EvaluationText(x.featureId, x.version, x.variationId, x.reason), true)
  {
    FitsLength(a, x.reason);
    hide FitsPattern, IntText;
    var text := EvaluationText(x.featureId, x.version, x.variationId, x.reason);
    var i: nat := |text| - |a|;
    assert text[i..i + |a|] == x.reason;
    assert LikeAt(a, text, i);
  }

  /** A query for a reason selects that reason alone if and only if it contains neither a dot nor a bar. */
  lemma ReasonSelectedExactly(f: string, v: int, variation: string, reason: string)
    requires FeatureId(f) && Plain(variation) && ReasonPattern(reason) && reason != ""
    ensures (forall reason' :: Plain(reason') ==>
               (Selects(f, v, reason, Evaluation(f, v, variation, reason')) <==> reason == reason'))
            <==> '.' !in reason && '|' !in reason
  {
    hide Selects, FitsPattern;
    if '|' in reason {
      var other := FirstSelects(f, v, variation, reason);
    } else {
      UndottedFits(reason);
      SelectsExactly(f, v, reason, Evaluation(f, v, variation, Undotted(reason)));
      forall reason' | '.' !in reason && Plain(reason')
        ensures Selects(f, v, reason, Evaluation(f, v, variation, reason')) <==> reason == reason'
      {
        SelectsExactly(f, v, reason, Evaluation(f, v, variation, reason'));
        FitsWithoutDots(reason, reason');
      }
    }
  }

  lemma FirstSelects(f: string, v: int, variation: string, reason: string) returns (other: string)
    requires FeatureId(f) && Plain(variation) && ReasonPattern(reason) && '|' in reason
    ensures Plain(other) && other != reason && Selects(f, v, reason, Evaluation(f, v, variation, other))
  {
    hide FindsAny, FilterBranches, FitsPattern, LaterOccurs, EvaluationText, Alternatives;
    var a := Alternatives(reason)[0];
    UndottedFits(a);
    other := Undotted(a);
    assert forall i :: 0 <= i < |a| ==> a[i] in a;
    assert '|' !in other;
    FilterSelectsExactly(f, v, reason, f, v, variation, other);
    assert other[..|a|] == other;
    assert StartsLike(a, other, false);
  }

  /** A query for a reason counts exactly the events that were asked for if and only if the reason contains
      neither a dot nor a bar. */
  lemma CountsAsRequestedExactly(f: string, v: int, reason: string)
    requires FeatureId(f) && ReasonPattern(reason) && reason != ""
    ensures CountsAsRequested(f, v, reason) <==> '.' !in reason && '|' !in reason
  {
    hide Selects, FitsPattern;
    forall x | PlainEvaluation(x) ensures Selects(f, v, "", x) <==> f == x.featureId && v == x.version {
      SelectsExactly(f, v, "", x);
    }
    if '|' in reason {
      var other := BarSelectsOthers(f, v, reason);
      var own := Evaluation(f, v, "", "");
      var xs := [own, other];
      assert own in xs && other in xs && Evaluations(xs);
      assert Counted(f, v, reason, xs, "") && !Requested(f, v, reason, xs, "");
    } else if '.' in reason {
      UndottedFits(reason);
      var x := Evaluation(f, v, "", Undotted(reason));
      SelectsExactly(f, v, reason, x);
      assert x in [x] && Evaluations([x]);
      assert Counted(f, v, reason, [x], "") && !Requested(f, v, reason, [x], "");
    } else {
      forall xs, variation | Evaluations(xs)
        ensures Counted(f, v, reason, xs, variation) <==> Requested(f, v, reason, xs, variation)
      {
        CountedIsRequested(f, v, reason, xs, variation);
      }
    }
  }

  lemma CountedIsRequested(f: string, v: int, reason: string, xs: seq<Evaluation>, variation: string)
    requires FeatureId(f) && ReasonPattern(reason) && reason != "" && '.' !in reason && '|' !in reason
    requires Evaluations(xs)
    ensures Counted(f, v, reason, xs, variation) <==> Requested(f, v, reason, xs, variation)
  {
    hide Selects, FeatureId, Plain;
    forall x | x in xs
      ensures Selects(f, v, reason, x) <==> f == x.featureId && v == x.version && reason == x.reason
      ensures Selects(f, v, "", x) <==> f == x.featureId && v == x.version
    {
      SelectsExactly(f, v, reason, x);
      SelectsExactly(f, v, "", x);
      FitsWithoutDots(reason, x.reason);
    }
  }

  lemma FitsWithoutDots(reason: string, s: string)
    requires '.' !in reason
    ensures FitsPattern(reason, s) <==> reason == s
  {
    assert forall i :: 0 <= i < |reason| ==> reason[i] in reason;
  }
}
