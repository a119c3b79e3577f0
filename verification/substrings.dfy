/** Python's `str.replace(pat, rep)` with no count: scan left to right and
    substitute every non-overlapping occurrence of `pat`. The scraper uses it
    to turn a club's overview URL into its fixtures URL, to turn a league slug
    into words, and to turn words back into a file name. */
module Substrings {

  /** `pat` occurs in `s` starting at index `i`. */
  predicate OccursAt(s: string, pat: string, i: int) {
    0 <= i && i + |pat| <= |s| && s[i..i + |pat|] == pat
  }

  predicate Occurs(s: string, pat: string) {
    exists i :: 0 <= i <= |s| && OccursAt(s, pat, i)
  }

  /** `s.replace(pat, rep)`. An empty `pat` matches before every character
      and at the end, as in Python (`"ab".replace("", "-") == "-a-b-"`). */
  function Replace(s: string, pat: string, rep: string): (r: string)
    ensures |pat| == |rep| ==> |r| == |s|
    decreases |s|
  {
    if |pat| == 0 then
      if |s| == 0 then rep else rep + [s[0]] + Replace(s[1..], pat, rep)
    else if |s| < |pat| then s
    else if s[..|pat|] == pat then rep + Replace(s[|pat|..], pat, rep)
    else [s[0]] + Replace(s[1..], pat, rep)
  }

  /** An occurrence in a suffix is an occurrence in the whole text. */
  lemma OccursInSuffix(s: string, pat: string, d: nat, i: int)
    requires d <= |s|
    requires OccursAt(s[d..], pat, i)
    ensures OccursAt(s, pat, i + d)
  {
    assert s[d..][i..i + |pat|] == s[i + d..i + d + |pat|];
  }

  /** When `pat` does not occur, `replace` returns its input unchanged. */
  lemma {:induction false} ReplaceAbsent(s: string, pat: string, rep: string)
    requires |pat| > 0
    requires !Occurs(s, pat)
    ensures Replace(s, pat, rep) == s
    decreases |s|
  {
    if |s| < |pat| {
    } else {
      assert !OccursAt(s, pat, 0);
      assert s[..|pat|] != pat;
      if Occurs(s[1..], pat) {
        var i :| OccursAt(s[1..], pat, i);
        OccursInSuffix(s, pat, 1, i);
        assert false;
      }
      ReplaceAbsent(s[1..], pat, rep);
      assert [s[0]] + s[1..] == s;
    }
  }

  /** Leftmost matching: when the first occurrence of `pat` in the text comes
      right after `pre`, the text before it is copied, that occurrence
      becomes `rep`, and the scan resumes right after it (so occurrences
      never overlap). */
  lemma {:induction false} ReplaceAtFirst(pre: string, post: string, pat: string, rep: string)
    requires |pat| > 0
    requires forall j :: 0 <= j < |pre| ==> !OccursAt(pre + pat + post, pat, j)
    ensures Replace(pre + pat + post, pat, rep) == pre + rep + Replace(post, pat, rep)
    decreases |pre|
  {
    var s := pre + pat + post;
    if |pre| == 0 {
      assert s == pat + post;
      assert s[..|pat|] == pat;
      assert s[|pat|..] == post;
    } else {
      assert !OccursAt(s, pat, 0);
      var pre' := pre[1..];
      assert s[1..] == pre' + pat + post;
      forall j | 0 <= j < |pre'|
        ensures !OccursAt(pre' + pat + post, pat, j)
      {
        if OccursAt(s[1..], pat, j) {
          OccursInSuffix(s, pat, 1, j);
        }
      }
      ReplaceAtFirst(pre', post, pat, rep);
      assert Replace(s, pat, rep) == [s[0]] + Replace(s[1..], pat, rep);
      assert [pre[0]] + pre' == pre;
    }
  }

  /** One character for one character: `replace` is the pointwise map that
      sends `a` to `b` and keeps every other character. */
  lemma {:induction false} ReplaceChar(s: string, a: char, b: char)
    ensures |Replace(s, [a], [b])| == |s|
    ensures forall i :: 0 <= i < |s| ==>
              Replace(s, [a], [b])[i] == (if s[i] == a then b else s[i])
    decreases |s|
  {
    if |s| > 0 {
      ReplaceChar(s[1..], a, b);
      assert s[..1] == [s[0]];
    }
  }

  /** Replacing the character `a` by a text that does not contain `a` leaves
      no `a` behind. */
  lemma {:induction false} ReplaceCharRemoves(s: string, a: char, rep: string)
    requires a !in rep
    ensures a !in Replace(s, [a], rep)
    decreases |s|
  {
    if |s| > 0 {
      ReplaceCharRemoves(s[1..], a, rep);
      assert s[..1] == [s[0]];
    }
  }

  /** Swapping `a` for `b` is undone by swapping `b` back for `a`, provided
      `b` did not already occur in the text. */
  lemma ReplaceCharUndo(s: string, a: char, b: char)
    requires b !in s
    ensures Replace(Replace(s, [a], [b]), [b], [a]) == s
  {
    var t := Replace(s, [a], [b]);
    ReplaceChar(s, a, b);
    ReplaceChar(t, b, a);
    var u := Replace(t, [b], [a]);
    assert forall i :: 0 <= i < |s| ==> u[i] == s[i] by {
      forall i | 0 <= i < |s| ensures u[i] == s[i] {
        assert s[i] != b by { assert s[i] in s; }
      }
    }
  }
}
