/** Python's `str.title()`: every letter that follows a letter is lower-cased,
    every other letter is upper-cased, and everything that is not a letter is
    kept. The scraper uses it to turn a league slug such as `premier league`
    into `Premier League`. Only the ASCII letters are modelled as cased. */
module Casing {

  predicate IsUpper(c: char) { 'A' <= c <= 'Z' }

  predicate IsLower(c: char) { 'a' <= c <= 'z' }

  /** A character with an upper and a lower case form. */
  predicate IsCased(c: char) { IsUpper(c) || IsLower(c) }

  function ToUpper(c: char): (u: char)
    ensures IsCased(u) <==> IsCased(c)
    ensures !IsLower(u)
  {
    if IsLower(c) then (c as int - 32) as char else c
  }

  function ToLower(c: char): (l: char)
    ensures IsCased(l) <==> IsCased(c)
    ensures !IsUpper(l)
  {
    if IsUpper(c) then (c as int + 32) as char else c
  }

  /** One step of `title()`: a letter is lower-cased after a letter and
      upper-cased otherwise; anything else is kept. */
  function TitleChar(c: char, afterCased: bool): (t: char)
    ensures IsCased(t) <==> IsCased(c)
    ensures !IsCased(c) ==> t == c
  {
    if !IsCased(c) then c else if afterCased then ToLower(c) else ToUpper(c)
  }

  /** The scan behind `title()`: `afterCased` says whether the character
      just before `s` was a letter. */
  function TitleFrom(s: string, afterCased: bool): (r: string)
    ensures |r| == |s|
  {
    if |s| == 0 then ""
    else [TitleChar(s[0], afterCased)] + TitleFrom(s[1..], IsCased(s[0]))
  }

  /** `s.title()`: same length, and every character that is not a letter
      is kept where it was, while letters stay letters. */
  function Title(s: string): (r: string)
    ensures |r| == |s|
    ensures forall i :: 0 <= i < |s| ==> (IsCased(r[i]) <==> IsCased(s[i]))
    ensures forall i :: 0 <= i < |s| && !IsCased(s[i]) ==> r[i] == s[i]
  {
    TitleFromKeepsUncased(s, false);
    TitleFrom(s, false)
  }

  /** What `title()` puts at position `i`, looking only at `s[i]` and the
      character before it. */
  function TitleCharAt(s: string, i: nat): char
    requires i < |s|
  {
    TitleChar(s[i], i > 0 && IsCased(s[i - 1]))
  }

  /** `title()` works character by character: a letter starts a word
      (upper-cased) exactly when it is not preceded by a letter, and
      everything that is not a letter passes through. */
  lemma TitlePointwise(s: string)
    ensures |Title(s)| == |s|
    ensures forall i :: 0 <= i < |s| ==> Title(s)[i] == TitleCharAt(s, i)
  {
    TitleFromPointwise(s, false);
  }

  lemma {:induction false} TitleFromPointwise(s: string, afterCased: bool)
    ensures |s| > 0 ==> TitleFrom(s, afterCased)[0] == TitleChar(s[0], afterCased)
    ensures forall i :: 0 < i < |s| ==>
              TitleFrom(s, afterCased)[i] == TitleChar(s[i], IsCased(s[i - 1]))
    decreases |s|
  {
    if |s| > 0 {
      var t := s[1..];
      TitleFromPointwise(t, IsCased(s[0]));
      forall i | 0 < i < |s|
        ensures TitleFrom(s, afterCased)[i] == TitleChar(s[i], IsCased(s[i - 1]))
      {
        assert TitleFrom(s, afterCased)[i] == TitleFrom(t, IsCased(s[0]))[i - 1];
        assert s[i] == t[i - 1];
        if i > 1 {
          assert s[i - 1] == t[i - 2];
        }
      }
    }
  }

  /** The scan keeps letters letters and keeps every non-letter as it is. */
  lemma TitleFromKeepsUncased(s: string, afterCased: bool)
    ensures forall i :: 0 <= i < |s| ==> (IsCased(TitleFrom(s, afterCased)[i]) <==> IsCased(s[i]))
    ensures forall i :: 0 <= i < |s| && !IsCased(s[i]) ==> TitleFrom(s, afterCased)[i] == s[i]
  {
    var r := TitleFrom(s, afterCased);
    TitleFromPointwise(s, afterCased);
    forall i | 0 <= i < |s|
      ensures IsCased(r[i]) <==> IsCased(s[i])
      ensures !IsCased(s[i]) ==> r[i] == s[i]
    {
      if i == 0 {
        assert r[i] == TitleChar(s[i], afterCased);
      } else {
        assert r[i] == TitleChar(s[i], IsCased(s[i - 1]));
      }
    }
  }
}
