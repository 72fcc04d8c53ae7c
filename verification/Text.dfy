/** Splitting joined text at a separator. */
module Text {

  /** What follows the last separator of a text is determined by the text. */
  lemma AfterLast(sep: char, a: string, p: string, b: string, q: string)
    requires a + [sep] + p == b + [sep] + q && sep !in p && sep !in q
    ensures a == b && p == q
  {
    var s, t := a + [sep] + p, b + [sep] + q;
    assert s[|a|] == sep && t[|b|] == sep;
    assert forall k :: |a| < k < |s| ==> s[k] == p[k - |a| - 1] && s[k] != sep;
    assert forall k :: |b| < k < |t| ==> t[k] == q[k - |b| - 1] && t[k] != sep;
    assert a == s[..|a|] && b == t[..|b|] && p == s[|a| + 1..] && q == t[|b| + 1..];
  }

  /** What precedes the first separator of a text is determined by the text. */
  lemma BeforeFirst(sep: char, a: string, p: string, b: string, q: string)
    requires a + [sep] + p == b + [sep] + q && sep !in a && sep !in b
    ensures a == b && p == q
  {
    var s, t := a + [sep] + p, b + [sep] + q;
    assert s[|a|] == sep && t[|b|] == sep;
    assert forall k :: 0 <= k < |a| ==> s[k] == a[k] && s[k] != sep;
    assert forall k :: 0 <= k < |b| ==> t[k] == b[k] && t[k] != sep;
    assert a == s[..|a|] && b == t[..|b|] && p == s[|a| + 1..] && q == t[|b| + 1..];
  }
}
