/** Normalising slashes: clean_url of the one server and remove_duplicate_forward_slashes of the other. */
module UrlCleaning {
  import opened Strings

  // ---------------------------------------------------------------- what the two functions compute

  /** Every run of slashes becomes one slash. */
  function Collapse(s: string): string {
    if s == "" then ""
    else if |s| > 1 && s[0] == '/' && s[1] == '/' then Collapse(s[1..])
    else [s[0]] + Collapse(s[1..])
  }

  function DropTrailingSlash(s: string): string {
    if |s| > 1 && s[|s| - 1] == '/' then s[..|s| - 1] else s
  }

  function Clean(s: string): string {
    DropTrailingSlash(Collapse(s))
  }

  /** No slash is followed by another, and none ends the string unless it is the whole string. */
  predicate IsClean(s: string) {
    Settled(s, |s|)
  }

  /** The same for the characters before position i. */
  predicate Settled(s: string, i: nat) {
    forall k: nat :: k < i ==> Fits(s, k)
  }

  predicate Fits(s: string, k: nat) {
    At(s, k) == '/' ==> |s| == 1 || (k + 1 < |s| && s[k + 1] != '/')
  }

  // ---------------------------------------------------------------- erasing one slash

  lemma {:induction false} CollapseAppend(s: string, c: char)
    ensures Collapse(s + [c]) == if c == '/' && s != "" && s[|s| - 1] == '/' then Collapse(s) else Collapse(s) + [c]
  {
    if s == "" {
      assert s + [c] == [c];
    } else if |s| == 1 {
      assert (s + [c])[1..] == [c] && [c][1..] == "" && s[1..] == "";
      assert Collapse([c]) == [c] && Collapse(s) == s;
    } else {
      assert (s + [c])[1..] == s[1..] + [c];
      CollapseAppend(s[1..], c);
    }
  }

  lemma {:induction false} CollapseLast(s: string)
    ensures s != "" ==> Collapse(s) != "" && Collapse(s)[|Collapse(s)| - 1] == s[|s| - 1]
    ensures s != "" ==> Collapse(s)[0] == s[0]
  {
    if |s| <= 1 {
    } else {
      CollapseLast(s[1..]);
    }
  }

  lemma {:induction false} EraseDouble(s: string, i: nat)
    requires i + 1 < |s| && s[i] == '/' && s[i + 1] == '/'
    ensures Collapse(s[..i] + s[i + 1..]) == Collapse(s)
  {
    var t := s[..i] + s[i + 1..];
    if i == 0 {
      assert t == s[1..];
    } else {
      assert t[1..] == s[1..][..i - 1] + s[1..][i..];
      EraseDouble(s[1..], i - 1);
      assert i == 1 ==> t[1] == s[2] && s[1] == s[2];
      assert i > 1 ==> t[1] == s[1];
    }
  }

  lemma EraseLast(s: string)
    requires |s| > 1 && s[|s| - 1] == '/'
    ensures Clean(s[..|s| - 1]) == Clean(s)
  {
    var t := s[..|s| - 1];
    assert s == t + ['/'];
    CollapseAppend(t, '/');
    CollapseLast(t);
  }

  lemma {:induction false} CollapseOfClean(s: string)
    requires forall k :: 0 <= k < |s| - 1 ==> !(s[k] == '/' && s[k + 1] == '/')
    ensures Collapse(s) == s
  {
    if s == "" {
    } else {
      assert forall k :: 0 <= k < |s| - 1 ==> s[1..][k] == s[k + 1];
      CollapseOfClean(s[1..]);
    }
  }

  lemma CleanOfClean(s: string)
    requires IsClean(s)
    ensures Clean(s) == s
  {
    forall k | 0 <= k < |s| - 1
      ensures !(s[k] == '/' && s[k + 1] == '/')
    {
      assert Fits(s, k);
    }
    CollapseOfClean(s);
    if s != "" {
      assert Fits(s, |s| - 1);
    }
  }

  // ---------------------------------------------------------------- the two functions

  /** Erases in place; a NUL character would be taken for the end of the string. */
  method CleanUrl(url: string) returns (str: string)
    ensures NulFree(url) ==> str == Clean(url) && NulFree(str)
  {
    hide Clean;
    str := url;
    var i := 0;
    while i < |str|
      invariant 0 <= i
      invariant NulFree(url) ==> NulFree(str) && Clean(str) == Clean(url) && Settled(str, i)
      decreases |str| - i
    {
      while At(str, i) == '/' && (At(str, i + 1) == '/' || At(str, i + 1) == '\0') && |str| > 1
        invariant 0 <= i <= |str|
        invariant NulFree(url) ==> NulFree(str) && Clean(str) == Clean(url) && Settled(str, i)
        decreases |str|
      {
        if NulFree(url) {
          EraseSlash(str, i);
        }
        str := str[..i] + str[i + 1..];
      }
      NotErased(str, i);
      i := i + 1;
    }
    if NulFree(url) {
      CleanOfClean(str);
    }
  }

  lemma NotErased(s: string, i: nat)
    requires !(At(s, i) == '/' && (At(s, i + 1) == '/' || At(s, i + 1) == '\0') && |s| > 1)
    ensures Settled(s, i) ==> Settled(s, i + 1)
  {
  }

  lemma EraseSlash(s: string, i: nat)
    requires NulFree(s) && i < |s| && s[i] == '/' && (At(s, i + 1) == '/' || At(s, i + 1) == '\0') && |s| > 1
    requires Settled(s, i)
    ensures var t := s[..i] + s[i + 1..]; NulFree(t) && Clean(t) == Clean(s) && Settled(t, i)
  {
    var t := s[..i] + s[i + 1..];
    forall k: nat | k < i
      ensures Fits(t, k)
    {
      assert Fits(s, k);
    }
    if i + 1 < |s| {
      assert s[i + 1] in s;
      EraseDouble(s, i);
    } else {
      assert s[..i] + s[i + 1..] == s[..|s| - 1];
      EraseLast(s);
    }
  }

  method RemoveDuplicateForwardSlashes(location: string) returns (result: string)
    ensures result == Collapse(location)
  {
    hide Collapse;
    result := "";
    var x := 0;
    assert location[0..] == location;
    CollapseParts(location);
    while x < |location|
      invariant 0 <= x <= |location|
      invariant result + Collapse(location[x..]) == Collapse(location)
    {
      ghost var start := x;
      if location[x] == '/' {
        result := result + [location[x]];
        while At(location, x) == '/'
          invariant start <= x <= |location| && forall k :: start <= k < x ==> location[k] == '/'
          invariant x == start ==> location[x] == '/'
          decreases |location| - x
        {
          x := x + 1;
        }
        CollapseRun(location[start..], x - start);
        assert location[start..][x - start..] == location[x..];
      } else {
        result := result + [location[x]];
        CollapseParts(location[x..]);
        x := x + 1;
        assert location[start..][1..] == location[x..];
      }
    }
    assert location[x..] == "";
    CollapseParts("");
  }

  lemma CollapseParts(s: string)
    ensures s == "" ==> Collapse(s) == ""
    ensures s != "" && s[0] != '/' ==> Collapse(s) == [s[0]] + Collapse(s[1..])
  {
  }

  lemma {:induction false} CollapseRun(s: string, n: nat)
    requires 1 <= n <= |s| && (forall k :: 0 <= k < n ==> s[k] == '/') && (n < |s| ==> s[n] != '/')
    ensures Collapse(s) == ['/'] + Collapse(s[n..])
  {
    if n == 1 {
    } else {
      CollapseRun(s[1..], n - 1);
      assert s[1..][n - 1..] == s[n..];
    }
  }

  // ---------------------------------------------------------------- what they promise

  lemma {:induction false} CollapseHasNoDouble(s: string)
    ensures forall k :: 0 <= k < |Collapse(s)| - 1 ==> !(Collapse(s)[k] == '/' && Collapse(s)[k + 1] == '/')
  {
    if |s| <= 1 {
    } else {
      CollapseHasNoDouble(s[1..]);
      CollapseLast(s[1..]);
    }
  }

  /** Cleaning leaves no double slash and no trailing one, and cleaning again changes nothing. */
  lemma CleanIsClean(s: string)
    ensures IsClean(Clean(s)) && Clean(Clean(s)) == Clean(s)
  {
    CollapseHasNoDouble(s);
    var c := Clean(s);
    assert forall k :: 0 <= k < |c| ==> c[k] == Collapse(s)[k];
    CleanOfClean(c);
  }

  function Pieces(acc: string): seq<string> {
    if acc == "" then [] else [acc]
  }

  /** The non-empty segments between slashes, when acc has been read of the current one. */
  function SegmentsFrom(acc: string, s: string): seq<string>
    decreases |s|
  {
    if s == "" then Pieces(acc)
    else if s[0] == '/' then Pieces(acc) + SegmentsFrom("", s[1..])
    else SegmentsFrom(acc + [s[0]], s[1..])
  }

  function Segments(s: string): seq<string> {
    SegmentsFrom("", s)
  }

  function Join(segments: seq<string>): string {
    if segments == [] then ""
    else if |segments| == 1 then segments[0]
    else segments[0] + "/" + Join(segments[1..])
  }

  function Lead(s: string): string {
    if s != "" && s[0] == '/' then "/" else ""
  }

  lemma {:induction false} CollapseKeepsSegments(acc: string, s: string)
    ensures SegmentsFrom(acc, Collapse(s)) == SegmentsFrom(acc, s)
    decreases |s|
  {
    if s == "" {
    } else {
      var t := s[1..];
      if |s| > 1 && s[0] == '/' && s[1] == '/' {
        CollapseKeepsSegments(acc, t);
        assert SegmentsFrom("", t) == SegmentsFrom("", t[1..]);
      } else if s[0] == '/' {
        CollapseKeepsSegments("", t);
        assert Collapse(s)[1..] == Collapse(t);
      } else {
        CollapseKeepsSegments(acc + [s[0]], t);
        assert Collapse(s)[1..] == Collapse(t);
      }
    }
  }

  lemma {:induction false} DropKeepsSegments(acc: string, s: string)
    requires s != "" && s[|s| - 1] == '/'
    ensures SegmentsFrom(acc, s[..|s| - 1]) == SegmentsFrom(acc, s)
    decreases |s|
  {
    var t := s[..|s| - 1];
    if |s| == 1 {
      assert SegmentsFrom("", s[1..]) == [];
    } else {
      assert t[1..] == s[1..][..|s| - 2];
      DropKeepsSegments(if s[0] == '/' then "" else acc + [s[0]], s[1..]);
    }
  }

  /** Cleaning keeps the leading slash and every non-empty segment. */
  lemma CleanKeepsMeaning(s: string)
    ensures Segments(Clean(s)) == Segments(s) && Lead(Clean(s)) == Lead(s)
  {
    CollapseKeepsSegments("", s);
    CollapseLast(s);
    var c := Collapse(s);
    if |c| > 1 && c[|c| - 1] == '/' {
      DropKeepsSegments("", c);
    }
  }

  /** The cleaned form is determined by exactly these: the leading slash and the segments joined by single slashes. */
  lemma CleanIsCanonical(s: string)
    ensures Clean(s) == Lead(s) + Join(Segments(s))
  {
    CanonicalFrom("", s);
  }

  lemma {:induction false} CollapseName(name: string, s: string)
    requires '/' !in name
    ensures Collapse(name + s) == name + Collapse(s)
  {
    if name == "" {
      assert name + s == s;
    } else {
      assert (name + s)[1..] == name[1..] + s;
      CollapseName(name[1..], s);
    }
  }

  /** A slash in front of a path, without or with a name before it. */
  lemma CleanSlash(s: string)
    requires s != "" && s[0] == '/'
    ensures Clean(s) == if Lead(s[1..]) == "/" then Clean(s[1..]) else "/" + Clean(s[1..])
  {
    CollapseLast(s);
    if |s| > 1 && s[1] != '/' {
      CollapseLast(s[1..]);
    }
  }

  lemma CleanAfterName(name: string, s: string)
    requires name != "" && '/' !in name && s != "" && s[0] == '/'
    ensures Clean(name + s) == if Clean(s) == "/" then name else name + Clean(s)
  {
    CollapseName(name, s);
    CollapseLast(s);
    CollapseHasNoDouble(s);
    var c := Collapse(s);
    if |c| > 1 {
      assert (name + c)[..|name + c| - 1] == name + c[..|c| - 1];
    } else {
      assert c == "/" && (name + c)[..|name + c| - 1] == name;
    }
  }

  lemma {:induction false} SegmentsAreNonEmpty(acc: string, s: string)
    ensures forall piece :: piece in SegmentsFrom(acc, s) ==> piece != ""
    ensures Join(SegmentsFrom(acc, s)) == "" <==> SegmentsFrom(acc, s) == []
    decreases |s|
  {
    if s == "" {
    } else {
      SegmentsAreNonEmpty(if s[0] == '/' then "" else acc + [s[0]], s[1..]);
    }
  }

  lemma {:induction false} CanonicalFrom(acc: string, s: string)
    requires '/' !in acc
    ensures acc == "" ==> Clean(s) == Lead(s) + Join(SegmentsFrom("", s))
    ensures acc != "" ==> Clean(acc + s) == Join(SegmentsFrom(acc, s))
    decreases |s|
  {
    hide Collapse, Clean;
    if s == "" {
      assert acc + s == acc;
      CleanOfClean(acc);
      CleanOfClean("");
    } else if s[0] != '/' {
      var longer := acc + [s[0]];
      assert longer + s[1..] == acc + s;
      CanonicalFrom(longer, s[1..]);
      assert acc == "" ==> acc + s == s && Lead(s) + Join(SegmentsFrom("", s)) == Join(SegmentsFrom("", s));
    } else {
      CanonicalFrom("", s[1..]);
      CanonicalSlash(s);
      SegmentsAtSlash("", s);
      if acc != "" {
        CanonicalNameSlash(acc, s);
      }
    }
  }

  lemma CanonicalSlash(s: string)
    requires s != "" && s[0] == '/' && Clean(s[1..]) == Lead(s[1..]) + Join(SegmentsFrom("", s[1..]))
    ensures Clean(s) == Lead(s) + Join(SegmentsFrom("", s))
  {
    hide Collapse, Clean, Join, SegmentsFrom;
    CleanSlash(s);
    SegmentsAtSlash("", s);
    assert "" + Join(SegmentsFrom("", s)) == Join(SegmentsFrom("", s));
  }

  lemma CanonicalNameSlash(acc: string, s: string)
    requires acc != "" && '/' !in acc && s != "" && s[0] == '/' && Clean(s) == "/" + Join(SegmentsFrom("", s[1..]))
    ensures Clean(acc + s) == Join(SegmentsFrom(acc, s))
  {
    hide Collapse, Clean, Join, SegmentsFrom;
    SegmentsAtSlash(acc, s);
    SegmentsAreNonEmpty("", s[1..]);
    JoinAfter(acc, SegmentsFrom("", s[1..]));
    CleanAfterName(acc, s);
  }

  lemma SegmentsAtSlash(acc: string, s: string)
    requires s != "" && s[0] == '/'
    ensures SegmentsFrom(acc, s) == Pieces(acc) + SegmentsFrom("", s[1..])
    ensures acc == "" ==> SegmentsFrom(acc, s) == SegmentsFrom("", s[1..])
  {
  }

  lemma JoinAfter(name: string, segments: seq<string>)
    ensures Join(Pieces(name) + segments) ==
      if name == "" then Join(segments) else if segments == [] then name else name + "/" + Join(segments)
  {
    if name == "" {
      assert Pieces(name) + segments == segments;
    } else {
      assert (Pieces(name) + segments)[1..] == segments;
    }
  }

  /** The two servers normalise alike, but for one trailing slash. */
  method SameNormalisation(s: string) returns (one: string, other: string)
    requires NulFree(s)
    ensures one == Clean(s) && other == Collapse(s) && one == DropTrailingSlash(other)
  {
    one := CleanUrl(s);
    other := RemoveDuplicateForwardSlashes(s);
  }
}
