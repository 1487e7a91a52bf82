/** The regular expressions the event counter uses: literal characters, `.`, `.*`, one captured `(.*)`,
    anchors and alternatives, with the greedy leftmost-first choice of Go's and Java's engines. */
module Regex {
  import opened Wrappers

  datatype Engine = Go | Java

  datatype Atom = Lit(c: char) | AnyOne | AnyStar | GroupStar

  predicate IsStar(a: Atom) {
    a.AnyStar? || a.GroupStar?
  }

  type Pattern = seq<Atom>

  /** What `.` matches. Java's excludes every line terminator, Go's only the line feed. */
  predicate Dot(e: Engine, c: char) {
    c != '\n' && (e == Java ==> c !in ['\r', '\U{0085}', '\U{2028}', '\U{2029}'])
  }

  predicate DotOnly(e: Engine, s: string) {
    forall c :: c in s ==> Dot(e, c)
  }

  function Lits(text: string): (p: Pattern)
    ensures |p| == |text| && forall i :: 0 <= i < |p| ==> p[i] == Lit(text[i])
  {
    seq(|text|, i requires 0 <= i < |text| => Lit(text[i]))
  }

  /** How far a star can reach. */
  function DotRun(e: Engine, s: string): (n: nat)
    ensures n <= |s| && DotOnly(e, s[..n]) && (n < |s| ==> !Dot(e, s[n]))
  {
    if s == [] || !Dot(e, s[0]) then 0
    else
      var n := DotRun(e, s[1..]);
      assert s[..n + 1] == [s[0]] + s[1..][..n];
      n + 1
  }

  /** Backtracking search of `^p$` in `s`: the captured group ("" without one), or None. */
  function Find(e: Engine, p: Pattern, s: string): Option<string>
    decreases |p|, 1, 0
  {
    if p == [] then (if s == [] then Some("") else None)
    else match p[0]
      case Lit(c) => if s != [] && s[0] == c then Find(e, p[1..], s[1..]) else None
      case AnyOne => if s != [] && Dot(e, s[0]) then Find(e, p[1..], s[1..]) else None
      case _ => FindStar(e, p, s, DotRun(e, s))
  }

  /** The star takes `k` characters if the rest then matches, otherwise fewer. */
  function FindStar(e: Engine, p: Pattern, s: string, k: nat): Option<string>
    requires p != [] && k <= |s|
    decreases |p|, 0, k
  {
    var rest := Find(e, p[1..], s[k..]);
    if rest.Some? then (if p[0].GroupStar? then Some(s[..k]) else rest)
    else if k == 0 then None
    else FindStar(e, p, s, k - 1)
  }

  predicate Matches(e: Engine, p: Pattern, s: string) {
    Find(e, p, s).Some?
  }

  /** One alternative of an expression, and whether it is anchored. */
  datatype Branch = Branch(atStart: bool, p: Pattern, atEnd: bool)

  ghost predicate FoundAt(e: Engine, b: Branch, s: string, i: nat, j: nat)
    requires i <= j <= |s|
  {
    (b.atStart ==> i == 0) && (b.atEnd ==> j == |s|) && Matches(e, b.p, s[i..j])
  }

  ghost predicate Finds(e: Engine, b: Branch, s: string) {
    exists i, j :: 0 <= i <= j <= |s| && FoundAt(e, b, s, i, j)
  }

  /** A search for an expression with alternatives anywhere in a text. */
  ghost predicate FindsAny(e: Engine, branches: seq<Branch>, s: string) {
    exists k :: 0 <= k < |branches| && Finds(e, branches[k], s)
  }

  // ----- Consequences -----

  lemma {:induction false} LiteralPrefix(e: Engine, text: string, p: Pattern, s: string)
    ensures Find(e, Lits(text) + p, s) == if text <= s then Find(e, p, s[|text|..]) else None
    decreases |text|
  {
    var q := Lits(text) + p;
    if text == "" {
      assert q == p;
    } else {
      assert q[0] == Lit(text[0]) && q[1..] == Lits(text[1..]) + p;
      if s != [] && s[0] == text[0] {
        LiteralPrefix(e, text[1..], p, s[1..]);
        assert text <= s <==> text[1..] <= s[1..] by {
          if text[1..] <= s[1..] {
            assert text == [text[0]] + text[1..] && s == [s[0]] + s[1..];
          }
        }
      }
    }
  }

  /** The greedy choice: the longest prefix after which the rest matches. */
  lemma {:induction false} StarTakesLongest(e: Engine, p: Pattern, s: string, n: nat, k: nat)
    requires p != [] && k <= n <= |s|
    requires Find(e, p[1..], s[k..]).Some?
    requires forall j :: k < j <= n ==> Find(e, p[1..], s[j..]).None?
    ensures FindStar(e, p, s, n) == if p[0].GroupStar? then Some(s[..k]) else Find(e, p[1..], s[k..])
    decreases n
  {
    hide Find;
    if n > k {
      StarTakesLongest(e, p, s, n - 1, k);
    }
  }

  lemma {:induction false} StarFails(e: Engine, p: Pattern, s: string, n: nat)
    requires p != [] && n <= |s|
    requires forall j :: 0 <= j <= n ==> Find(e, p[1..], s[j..]).None?
    ensures FindStar(e, p, s, n).None?
    decreases n
  {
    if n > 0 {
      StarFails(e, p, s, n - 1);
    }
  }

  lemma {:induction false} StarMatches(e: Engine, p: Pattern, s: string, n: nat)
    requires p != [] && n <= |s|
    ensures FindStar(e, p, s, n).Some? <==> exists j :: 0 <= j <= n && Find(e, p[1..], s[j..]).Some?
    decreases n
  {
    hide Find;
    if Find(e, p[1..], s[n..]).None? && n > 0 {
      StarMatches(e, p, s, n - 1);
    }
  }

  lemma DotRunAll(e: Engine, s: string)
    requires DotOnly(e, s)
    ensures DotRun(e, s) == |s|
  {
  }

  lemma DotOnlySuffix(e: Engine, s: string, k: nat)
    requires DotOnly(e, s) && k <= |s|
    ensures DotOnly(e, s[k..]) && DotOnly(e, s[..k])
  {
  }

  /** A final star takes whatever is left. */
  lemma FinalStar(e: Engine, star: Atom, s: string)
    requires IsStar(star)
    ensures Find(e, [star], s) == if DotOnly(e, s) then Some(if star.GroupStar? then s else "") else None
  {
    var p, n := [star], DotRun(e, s);
    assert p[1..] == [] && s[..|s|] == s;
    if DotOnly(e, s) {
      DotRunAll(e, s);
      assert Find(e, p[1..], s[|s|..]) == Some("");
      assert s[|s|..] == [];
    } else {
      forall j | 0 <= j <= n ensures Find(e, p[1..], s[j..]).None? {
        assert |s[j..]| > 0;
      }
      StarFails(e, p, s, n);
    }
  }
}
