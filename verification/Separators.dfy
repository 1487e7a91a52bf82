/** Strings put together with a separator character, and how they come apart again. */
module Separators {

  predicate Free(s: string, sep: char) {
    sep !in s
  }

  lemma HasSeparator(a: string, sep: char, b: string)
    ensures !Free(a + [sep] + b, sep)
  {
  }

  /** The part after the last separator, and hence the part before it, is determined. */
  lemma SplitAtLast(a: string, b: string, a': string, b': string, sep: char)
    requires Free(b, sep) && Free(b', sep) && a + [sep] + b == a' + [sep] + b'
    ensures a == a' && b == b'
  {
    var s := a + [sep] + b;
    assert s[|a|] == sep && s[|a'|] == sep;
    assert s[|a| + 1..] == b && s[|a'| + 1..] == b' && s[..|a|] == a && s[..|a'|] == a';
  }

  /** Likewise for the part before the first separator. */
  lemma SplitAtFirst(a: string, b: string, a': string, b': string, sep: char)
    requires Free(a, sep) && Free(a', sep) && a + [sep] + b == a' + [sep] + b'
    ensures a == a' && b == b'
  {
    var s := a + [sep] + b;
    assert s[|a|] == sep && s[|a'|] == sep;
    assert s[|a| + 1..] == b && s[|a'| + 1..] == b' && s[..|a|] == a && s[..|a'|] == a';
  }
}
