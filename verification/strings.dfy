/** Substring containment, the `needle in haystack` test on Python strings. */
module Strings {

  /** `needle` occurs in `hay` starting at index `k`. */
  predicate OccursAt(needle: string, hay: string, k: int) {
    0 <= k && k + |needle| <= |hay| && hay[k..k + |needle|] == needle
  }

  /** Python's `needle in hay` for two strings: some contiguous slice of `hay` equals `needle`.
      The empty string occurs in every string. */
  predicate IsSubstring(needle: string, hay: string) {
    exists k :: 0 <= k <= |hay| - |needle| && OccursAt(needle, hay, k)
  }

  /** The empty string occurs in every string, at index 0. */
  lemma EmptyIsSubstring(s: string)
    ensures IsSubstring("", s)
  {
    assert OccursAt("", s, 0);
  }

  /** Both halves of a concatenation occur in it. */
  lemma SubstringOfConcat(a: string, b: string)
    ensures IsSubstring(a, a + b)
    ensures IsSubstring(b, a + b)
  {
    assert (a + b)[0..|a|] == a;
    assert OccursAt(a, a + b, 0);
    assert (a + b)[|a|..|a| + |b|] == b;
    assert OccursAt(b, a + b, |a|);
  }

  /** Containment is transitive. */
  lemma SubstringTrans(a: string, b: string, c: string)
    requires IsSubstring(a, b) && IsSubstring(b, c)
    ensures IsSubstring(a, c)
  {
    var i :| 0 <= i <= |b| - |a| && OccursAt(a, b, i);
    var j :| 0 <= j <= |c| - |b| && OccursAt(b, c, j);
    forall t | 0 <= t < |a|
      ensures c[j + i..j + i + |a|][t] == a[t]
    {
      assert c[j + i + t] == c[j..j + |b|][i + t] == b[i + t] == b[i..i + |a|][t];
    }
    assert c[j + i..j + i + |a|] == a;
    assert OccursAt(a, c, j + i);
  }

  /** Every character of a contained string is a character of the container. */
  lemma SubstringKeepsChars(a: string, b: string, ch: char)
    requires IsSubstring(a, b) && ch in a
    ensures ch in b
  {
    var k :| 0 <= k <= |b| - |a| && OccursAt(a, b, k);
    var i :| 0 <= i < |a| && a[i] == ch;
    assert b[k + i] == b[k..k + |a|][i];
  }

  /** Naive left-to-right search: the model of the interpreter's `in` on strings. */
  method Contains(needle: string, hay: string) returns (found: bool)
    ensures found <==> IsSubstring(needle, hay)
  {
    if |needle| > |hay| {
      return false;
    }
    var k := 0;
    while k <= |hay| - |needle|
      invariant 0 <= k <= |hay| - |needle| + 1
      invariant forall j :: 0 <= j < k ==> !OccursAt(needle, hay, j)
    {
      if hay[k..k + |needle|] == needle {
        assert OccursAt(needle, hay, k);
        return true;
      }
      k := k + 1;
    }
    return false;
  }
}
