/** std::string and C-string reading and searching, shared by every component. */
module Strings {
  const CRLF := "\r\n"
  const HEADER_END := "\r\n\r\n"

  predicate NulFree(s: string) {
    '\0' !in s
  }

  /** s[i] as c_str() and std::string::operator[] read it: the terminator follows the last byte. */
  function At(s: string, i: nat): char {
    if i < |s| then s[i] else '\0'
  }

  predicate OccursAt<T(==)>(s: seq<T>, pattern: seq<T>, i: int) {
    0 <= i && i + |pattern| <= |s| && s[i..i + |pattern|] == pattern
  }

  /** std::string::find; -1 is npos narrowed to int. */
  function Find<T(==)>(s: seq<T>, pattern: seq<T>, from: nat): (r: int)
    ensures r == -1 || (from <= r && OccursAt(s, pattern, r))
    ensures forall k :: from <= k && (r == -1 || k < r) ==> !OccursAt(s, pattern, k)
    decreases |s| - from
  {
    if from + |pattern| > |s| then -1
    else if OccursAt(s, pattern, from) then from
    else Find(s, pattern, from + 1)
  }

  lemma FindIs<T>(s: seq<T>, pattern: seq<T>, from: nat, at: int)
    requires from <= at && OccursAt(s, pattern, at)
    requires forall k :: from <= k < at ==> !OccursAt(s, pattern, k)
    ensures Find(s, pattern, from) == at
  {
  }

  lemma FindMisses<T>(s: seq<T>, pattern: seq<T>, from: nat)
    requires forall k :: from <= k ==> !OccursAt(s, pattern, k)
    ensures Find(s, pattern, from) == -1
  {
  }

  lemma OccursInPrefix(s: string, end: nat, pattern: string, k: int)
    requires end <= |s|
    ensures OccursAt(s[..end], pattern, k) <==> OccursAt(s, pattern, k) && k + |pattern| <= end
  {
    if 0 <= k && k + |pattern| <= end {
      assert s[..end][k..k + |pattern|] == s[k..k + |pattern|];
    }
  }

  /** A prefix of a string has the string's first match, if that match lies inside it, and no other. */
  lemma FindInPrefix(s: string, end: nat, pattern: string)
    requires end <= |s|
    ensures var at := Find(s, pattern, 0);
      Find(s[..end], pattern, 0) == if at != -1 && at + |pattern| <= end then at else -1
  {
    hide Find, OccursAt;
    var at := Find(s, pattern, 0);
    forall k
      ensures OccursAt(s[..end], pattern, k) <==> OccursAt(s, pattern, k) && k + |pattern| <= end
    {
      OccursInPrefix(s, end, pattern, k);
    }
    if at != -1 && at + |pattern| <= end {
      FindIs(s[..end], pattern, 0, at);
    } else {
      FindMisses(s[..end], pattern, 0);
    }
  }

  /** The list of fragments as one string; push_back extends it on the right. */
  function Flatten(fragments: seq<string>): string {
    if fragments == [] then ""
    else Flatten(fragments[..|fragments| - 1]) + fragments[|fragments| - 1]
  }

  lemma {:induction false} FlattenAppend(fragments: seq<string>, last: string)
    ensures Flatten(fragments + [last]) == Flatten(fragments) + last
  {
    assert (fragments + [last])[..|fragments|] == fragments;
  }
}
