/** The Python string operations the server relies on: `startswith`,
    `endswith`, substring search, `replace` and ASCII lower-casing. */
module Text {

  predicate StartsWith(s: string, prefix: string)
  {
    |prefix| <= |s| && s[..|prefix|] == prefix
  }

  lemma StartsWithTrans(s: string, p: string, q: string)
    requires StartsWith(s, p) && StartsWith(p, q)
    ensures StartsWith(s, q)
  {
    assert s[..|q|] == s[..|p|][..|q|];
  }

  lemma StartsWithPrepend(a: string, s: string, p: string)
    requires StartsWith(s, p)
    ensures StartsWith(a + s, a + p)
  {
    assert (a + s)[..|a + p|] == a + s[..|p|];
  }

  predicate EndsWith(s: string, suffix: string)
  {
    |suffix| <= |s| && s[|s| - |suffix|..] == suffix
  }

  /** `sub` occurs in `s` starting at index `i`. */
  predicate OccursAt(s: string, sub: string, i: int)
  {
    0 <= i && i + |sub| <= |s| && s[i..i + |sub|] == sub
  }

  /** Python's `sub in s`: some suffix of `s` starts with `sub`. */
  predicate Contains(s: string, sub: string)
    ensures Contains(s, sub) ==> |sub| <= |s|
    decreases |s|
  {
    StartsWith(s, sub) || (|s| > 0 && Contains(s[1..], sub))
  }

  /** The recursive search agrees with the positional definition of an occurrence. */
  lemma {:induction false} ContainsIffOccurs(s: string, sub: string)
    ensures Contains(s, sub) <==> exists i :: OccursAt(s, sub, i)
    decreases |s|
  {
    if StartsWith(s, sub) {
      assert OccursAt(s, sub, 0);
    } else if |s| > 0 {
      ContainsIffOccurs(s[1..], sub);
      if exists i :: OccursAt(s[1..], sub, i) {
        var i :| OccursAt(s[1..], sub, i);
        assert s[i + 1..i + 1 + |sub|] == s[1..][i..i + |sub|];
        assert OccursAt(s, sub, i + 1);
      }
      if exists i :: OccursAt(s, sub, i) {
        var i :| OccursAt(s, sub, i);
        assert i != 0;
        assert s[1..][i - 1..i - 1 + |sub|] == s[i..i + |sub|];
        assert OccursAt(s[1..], sub, i - 1);
      }
    }
  }

  /** A suffix is an occurrence. */
  lemma EndsWithContains(s: string, suffix: string)
    requires EndsWith(s, suffix)
    ensures Contains(s, suffix)
  {
    ContainsIffOccurs(s, suffix);
    assert OccursAt(s, suffix, |s| - |suffix|);
  }

  /** Python's `s.replace(pat, rep)`: scan from the left, replace each
      occurrence of `pat` and resume after it, so occurrences never overlap. */
  function Replace(s: string, pat: string, rep: string): (r: string)
    requires pat != []
    ensures |rep| == |pat| ==> |r| == |s|
    ensures |rep| <= |pat| ==> |r| <= |s|
    ensures !Contains(s, pat) ==> r == s
    decreases |s|
  {
    if |s| < |pat| then s
    else if s[..|pat|] == pat then rep + Replace(s[|pat|..], pat, rep)
    else [s[0]] + Replace(s[1..], pat, rep)
  }

  function SubstChar(c: char, from: char, to: char): char
  {
    if c == from then to else c
  }

  /** Replacing one character by one character rewrites each position on its own. */
  lemma {:induction false} ReplaceCharPointwise(s: string, from: char, to: char)
    ensures |Replace(s, [from], [to])| == |s|
    ensures forall i :: 0 <= i < |s| ==> Replace(s, [from], [to])[i] == SubstChar(s[i], from, to)
    decreases |s|
  {
    if |s| > 0 {
      ReplaceCharPointwise(s[1..], from, to);
      var r := Replace(s, [from], [to]);
      assert r == [SubstChar(s[0], from, to)] + Replace(s[1..], [from], [to]) by {
        assert s[..1] == [s[0]];
        assert s[1..] == s[|[from]|..];
      }
    }
  }

  function LowerChar(c: char): char
  {
    if 'A' <= c <= 'Z' then (c as int + 32) as char else c
  }

  /** ASCII lower-casing, position by position. */
  function Lower(s: string): (r: string)
    ensures |r| == |s|
    ensures forall i :: 0 <= i < |s| ==> r[i] == LowerChar(s[i])
  {
    if s == [] then [] else [LowerChar(s[0])] + Lower(s[1..])
  }

  lemma LowerIdempotent(s: string)
    ensures Lower(Lower(s)) == Lower(s)
  {
    assert forall i :: 0 <= i < |s| ==> Lower(Lower(s))[i] == Lower(s)[i];
  }

  /** Substring search that ignores ASCII case: `str.contains(value, case=False)`
      with `value` read literally. */
  predicate ContainsIgnoringCase(s: string, sub: string)
  {
    Contains(Lower(s), Lower(sub))
  }

  /** A prefix that agrees with `sub` up to case is an occurrence ignoring case. */
  lemma PrefixIgnoringCase(s: string, sub: string)
    requires |sub| <= |s|
    requires forall i :: 0 <= i < |sub| ==> LowerChar(s[i]) == LowerChar(sub[i])
    ensures ContainsIgnoringCase(s, sub)
  {
    assert Lower(s)[..|sub|] == Lower(sub);
  }

  /** Changing the case of either argument does not change the answer. */
  lemma IgnoresCase(s: string, sub: string)
    ensures ContainsIgnoringCase(Lower(s), sub) == ContainsIgnoringCase(s, sub)
    ensures ContainsIgnoringCase(s, Lower(sub)) == ContainsIgnoringCase(s, sub)
  {
    LowerIdempotent(s);
    LowerIdempotent(sub);
  }
}
