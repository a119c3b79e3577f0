/** Python's `str.strip()` with no argument: every text the scraper reads out of
    a table cell (player name, shirt number, market value, position, club
    heading) goes through it before it lands in a record. */
module Whitespace {

  /** Python's `str.isspace()` on one character: the ASCII controls TAB..CR
      and FS..US, SPACE, and the Unicode separators Python counts as white. */
  predicate IsSpace(c: char) {
    || ('\t' <= c <= '\r')
    || ('\U{1C}' <= c <= ' ')
    || c == '\U{85}'
    || c == '\U{A0}'
    || c == '\U{1680}'
    || ('\U{2000}' <= c <= '\U{200A}')
    || c == '\U{2028}'
    || c == '\U{2029}'
    || c == '\U{202F}'
    || c == '\U{205F}'
    || c == '\U{3000}'
  }

  /** No white space at either end: what `str.strip()` leaves behind. */
  predicate IsStripped(s: string) {
    |s| == 0 || (!IsSpace(s[0]) && !IsSpace(s[|s| - 1]))
  }

  /** The index of the first character at or after `i` that is not white
      space (`|s|` when there is none). */
  function SkipSpace(s: string, i: nat): (j: nat)
    requires i <= |s|
    ensures i <= j <= |s|
    ensures j < |s| ==> !IsSpace(s[j])
    decreases |s| - i
  {
    if i < |s| && IsSpace(s[i]) then SkipSpace(s, i + 1) else i
  }

  /** The end of `s[lo..j]` once its trailing white space is dropped. */
  function SkipSpaceBack(s: string, lo: nat, j: nat): (e: nat)
    requires lo <= j <= |s|
    ensures lo <= e <= j
    ensures e > lo ==> !IsSpace(s[e - 1])
    decreases j
  {
    if j > lo && IsSpace(s[j - 1]) then SkipSpaceBack(s, lo, j - 1) else j
  }

  /** Everything `SkipSpace` passes over is white space. */
  lemma {:induction false} SkipSpaceSkipsSpace(s: string, i: nat)
    requires i <= |s|
    ensures forall k :: i <= k < SkipSpace(s, i) ==> IsSpace(s[k])
    decreases |s| - i
  {
    if i < |s| && IsSpace(s[i]) {
      SkipSpaceSkipsSpace(s, i + 1);
    }
  }

  /** Everything `SkipSpaceBack` passes over is white space. */
  lemma {:induction false} SkipSpaceBackSkipsSpace(s: string, lo: nat, j: nat)
    requires lo <= j <= |s|
    ensures forall k :: SkipSpaceBack(s, lo, j) <= k < j ==> IsSpace(s[k])
    decreases j
  {
    if j > lo && IsSpace(s[j - 1]) {
      SkipSpaceBackSkipsSpace(s, lo, j - 1);
    }
  }

  /** `r` sits in `s` at offset `i` with nothing but white space before and
      after it. */
  predicate FramedBySpace(s: string, r: string, i: int) {
    && 0 <= i && i + |r| <= |s| && r == s[i..i + |r|]
    && (forall k :: 0 <= k < i ==> IsSpace(s[k]))
    && (forall k :: i + |r| <= k < |s| ==> IsSpace(s[k]))
  }

  /** `s.strip()`: what is left after removing white space from both ends. */
  function Strip(s: string): (r: string)
    ensures IsStripped(r)
    ensures |r| <= |s|
  {
    var i := SkipSpace(s, 0);
    s[i..SkipSpaceBack(s, i, |s|)]
  }

  /** `strip()` removes white space, and only white space, from the two ends:
      the result is a contiguous piece of the input framed by white space. */
  lemma StripFramed(s: string)
    ensures exists i :: FramedBySpace(s, Strip(s), i)
  {
    var i := SkipSpace(s, 0);
    SkipSpaceSkipsSpace(s, 0);
    SkipSpaceBackSkipsSpace(s, i, |s|);
    assert FramedBySpace(s, Strip(s), i);
  }

  /** A text is left alone by `strip()` exactly when it has no white space at
      either end; in particular stripping twice is stripping once. */
  lemma StripFixedPoint(s: string)
    ensures Strip(s) == s <==> IsStripped(s)
    ensures Strip(Strip(s)) == Strip(s)
  {
    var r := Strip(s);
    assert SkipSpace(r, 0) == 0;
    assert SkipSpaceBack(r, 0, |r|) == |r|;
    if IsStripped(s) {
      assert SkipSpace(s, 0) == 0;
      assert SkipSpaceBack(s, 0, |s|) == |s|;
    }
  }

  /** Nothing but white space. */
  predicate AllSpace(s: string) {
    forall k :: 0 <= k < |s| ==> IsSpace(s[k])
  }

  /** `SkipSpace` stops at the first character that is not white space. */
  lemma {:induction false} SkipSpaceTo(s: string, i: nat, j: nat)
    requires i <= j <= |s|
    requires forall k :: i <= k < j ==> IsSpace(s[k])
    requires j < |s| ==> !IsSpace(s[j])
    ensures SkipSpace(s, i) == j
    decreases j - i
  {
    if i < j {
      SkipSpaceTo(s, i + 1, j);
    }
  }

  /** `SkipSpaceBack` stops after the last character that is not white space. */
  lemma {:induction false} SkipSpaceBackTo(s: string, lo: nat, j: nat, e: nat)
    requires lo <= e <= j <= |s|
    requires forall k :: e <= k < j ==> IsSpace(s[k])
    requires e > lo ==> !IsSpace(s[e - 1])
    ensures SkipSpaceBack(s, lo, j) == e
    decreases j - e
  {
    if e < j {
      SkipSpaceBackTo(s, lo, j - 1, e);
    }
  }

  /** A text without white space at its ends, padded with white space on
      both sides (a table cell such as `"\nGoalkeeper\n"`), strips to that
      text. */
  lemma StripPadded(pre: string, text: string, post: string)
    requires AllSpace(pre) && AllSpace(post) && IsStripped(text)
    ensures Strip(pre + text + post) == text
  {
    var s := pre + text + post;
    assert forall k :: 0 <= k < |pre| ==> s[k] == pre[k];
    assert forall k :: |pre| + |text| <= k < |s| ==> s[k] == post[k - |pre| - |text|];
    if |text| == 0 {
      SkipSpaceTo(s, 0, |s|);
      assert s[|s|..|s|] == text;
    } else {
      assert s[|pre|] == text[0];
      assert s[|pre| + |text| - 1] == text[|text| - 1];
      SkipSpaceTo(s, 0, |pre|);
      SkipSpaceBackTo(s, |pre|, |s|, |pre| + |text|);
      assert s[|pre|..|pre| + |text|] == text;
    }
  }
}
