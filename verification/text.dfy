/** Case-insensitive substring matching, as the `icontains` lookups of the
    history and search queries use it. Case is folded for ASCII letters only. */
module Text {

  function LowerChar(c: char): (d: char)
    ensures 'A' <= c <= 'Z' ==> 'a' <= d <= 'z' && d as int - c as int == 32
    ensures !('A' <= c <= 'Z') ==> d == c
  {
    if 'A' <= c <= 'Z' then (c as int + 32) as char else c
  }

  /** The string with every ASCII upper-case letter folded to lower case. */
  function Lower(s: string): (r: string)
    ensures |r| == |s|
    ensures forall i :: 0 <= i < |s| ==> r[i] == LowerChar(s[i])
  {
    if s == [] then [] else [LowerChar(s[0])] + Lower(s[1..])
  }

  /** `sub` occurs somewhere in `s`. */
  ghost predicate SubstringOf(sub: string, s: string)
  {
    exists i :: 0 <= i <= |s| && sub <= s[i..]
  }

  /** `q` occurs in `s` once both are case-folded. */
  ghost predicate ContainsIgnoringCase(s: string, q: string)
  {
    SubstringOf(Lower(q), Lower(s))
  }

  /** The empty string occurs in every string. */
  lemma EmptyOccursEverywhere(s: string)
    ensures SubstringOf([], s)
  {
    assert [] <= s[0..];
  }

  /** Occurring in `s` without being a prefix of it means occurring in its tail. */
  lemma SubstringOfTail(sub: string, s: string)
    requires |s| > 0 && !(sub <= s)
    ensures SubstringOf(sub, s) <==> SubstringOf(sub, s[1..])
  {
    if SubstringOf(sub, s) {
      var i :| 0 <= i <= |s| && sub <= s[i..];
      assert i != 0;
      assert s[1..][i - 1..] == s[i..];
    }
    if SubstringOf(sub, s[1..]) {
      var i :| 0 <= i <= |s[1..]| && sub <= s[1..][i..];
      assert s[1..][i..] == s[i + 1..];
    }
  }

  /** Left-to-right search for `sub` in `s`. */
  function Contains(s: string, sub: string): (b: bool)
    ensures b <==> SubstringOf(sub, s)
    decreases |s|
  {
    if sub <= s then
      assert s[0..] == s;
      true
    else if |s| == 0 then
      false
    else
      SubstringOfTail(sub, s);
      Contains(s[1..], sub)
  }

  /** The `icontains` lookup: `q` occurs in `s` ignoring case. */
  function IContains(s: string, q: string): (b: bool)
    ensures b <==> ContainsIgnoringCase(s, q)
  {
    Contains(Lower(s), Lower(q))
  }

  /** An empty filter matches every string. */
  lemma EmptyFilterMatchesAll(s: string)
    ensures IContains(s, "")
  {
    EmptyOccursEverywhere(Lower(s));
  }
}
