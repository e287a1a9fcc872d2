/** request_handler::resolve_path up to its final clean-up: which location serves a URL, and under which path. */
module LocationChoice {
  import opened Strings
  import opened UrlCleaning

  const ERROR_PAGES := "/error_pages/"

  datatype Location = Location(name: string, root: string, index: string, redirect: seq<string>)

  // ---------------------------------------------------------------- the search loop on values

  predicate IsPrefix(p: string, s: string) {
    |p| <= |s| && s[..|p|] == p
  }

  function SlashEnded(root: string): string {
    if root != "" && root[|root| - 1] == '/' then root else root + "/"
  }

  /** The first location that a return directive names; -1 if none has that name. */
  function TargetOf(locations: seq<Location>, name: string): (t: int)
    ensures -1 <= t < |locations|
    ensures t != -1 ==> locations[t].name == name
    ensures forall j :: 0 <= j < (if t == -1 then |locations| else t) ==> locations[j].name != name
  {
    if locations == [] then -1
    else if locations[0].name == name then 0
    else var t := TargetOf(locations[1..], name); if t == -1 then -1 else t + 1
  }

  /** _path, _l_id and len during the search; OutOfRange is the exception of substr. */
  datatype Search = Search(path: string, id: int, len: nat) | OutOfRange

  /** The root and the location id that location k gives, following its return directive. */
  function RootOf(locations: seq<Location>, k: nat, s: Search): (string, int)
    requires k < |locations| && s.Search?
  {
    var redirect := locations[k].redirect;
    if redirect == [] then (SlashEnded(locations[k].root), k)
    else
      var t := TargetOf(locations, redirect[|redirect| - 1]);
      if t == -1 then (s.path, s.id) else (SlashEnded(locations[t].root), t)
  }

  predicate Takes(url: string, locations: seq<Location>, k: nat, s: Search)
    requires k < |locations| && s.Search?
  {
    (IsPrefix(locations[k].name, url) && |locations[k].name| > s.len) || (s.len == 0 && k == 0)
  }

  /** _l_id is always an index into the location list. */
  predicate InRange(locations: seq<Location>, s: Search) {
    s.Search? ==> 0 <= s.id < |locations|
  }

  function Visit(url: string, locations: seq<Location>, k: nat, s: Search): (after: Search)
    requires k < |locations| && InRange(locations, s)
    ensures InRange(locations, after)
  {
    if s.OutOfRange? || !Takes(url, locations, k, s) then s
    else
      var name, (root, id) := locations[k].name, RootOf(locations, k, s);
      if |name| > |url| then OutOfRange
      else Search(root + url[|name|..] + (if |name| == |url| then locations[id].index else ""), id, |name|)
  }

  /** The loop from location k - 1 down to location 0. */
  function Scan(url: string, locations: seq<Location>, k: nat, s: Search): Search
    requires k <= |locations| && InRange(locations, s)
    decreases k
  {
    if k == 0 then s else Scan(url, locations, k - 1, Visit(url, locations, k - 1, s))
  }

  function StripLeading(s: string): string {
    if s != "" && s[0] == '/' then StripLeading(s[1..]) else s
  }

  datatype Resolution = ErrorPage(path: string) | Resolved(path: string, id: int) | Thrown

  /** What resolve_path makes of a cleaned URL. */
  function Resolve(url: string, locations: seq<Location>): Resolution
    requires locations != []
  {
    if IsPrefix(ERROR_PAGES, url) then ErrorPage("files" + url)
    else
      match Scan(url, locations, |locations|, Search("", 0, 0))
      case OutOfRange => Thrown
      case Search(path, id, _) => Resolved(Clean(StripLeading(path)), id)
  }

  // ---------------------------------------------------------------- the method

  predicate NulFreeConfig(locations: seq<Location>) {
    forall k :: 0 <= k < |locations| ==> NulFree(locations[k].root) && NulFree(locations[k].index)
  }

  lemma FindAtStart(s: string, pattern: string)
    ensures Find(s, pattern, 0) == 0 <==> IsPrefix(pattern, s)
  {
    if IsPrefix(pattern, s) {
      FindIs(s, pattern, 0, 0);
    }
  }

  class RequestHandler {
    const locations: seq<Location>
    var path: string
    var id: int

    constructor (locations: seq<Location>)
      ensures this.locations == locations
    {
      this.locations := locations;
      path, id := "", 0;
    }

    /** One iteration of the search loop; false when substr throws. */
    method Consider(url: string, index: nat, len: nat) returns (ok: bool, newLen: nat)
      requires index < |locations| && 0 <= id < |locations|
      modifies this
      ensures 0 <= id < |locations|
      ensures Visit(url, locations, index, Search(old(path), old(id), len)) ==
        if ok then Search(path, id, newLen) else OutOfRange
      ensures NulFree(url) && NulFreeConfig(locations) && NulFree(old(path)) ==> NulFree(path)
    {
      hide TargetOf, Find;
      var it := locations[index];
      newLen := len;
      FindAtStart(url, it.name);
      if (Find(url, it.name, 0) == 0 && |it.name| > len) || (len == 0 && index == 0) {
        if it.redirect != [] {
          var t := TargetOf(locations, it.redirect[|it.redirect| - 1]);
          if t != -1 {
            path := SlashEnded(locations[t].root);
            id := t;
          }
        } else {
          path := SlashEnded(it.root);
          id := index;
        }
        if |it.name| > |url| {
          return false, len;
        }
        path := path + url[|it.name|..];
        newLen := |it.name|;
        if |it.name| == |url| {
          path := path + locations[id].index;
        }
      }
      ok := true;
    }

    method ResolvePath(url0: string) returns (url: string, r: Resolution)
      requires locations != []
      modifies this
      ensures NulFree(url0) ==> url == Clean(url0)
      ensures NulFree(url0) && NulFreeConfig(locations) ==> r == Resolve(url, locations)
    {
      hide Visit, Clean, Find;
      path := "";
      url := CleanUrl(url0);
      FindAtStart(url, ERROR_PAGES);
      if Find(url, ERROR_PAGES, 0) == 0 {
        path := "files" + url;
        return url, ErrorPage(path);
      }
      id := 0;
      var len, index := 0, |locations|;
      while index > 0
        invariant 0 <= index <= |locations| && 0 <= id < |locations| && 0 <= len
        invariant NulFree(url) && NulFreeConfig(locations) ==> NulFree(path)
        invariant Scan(url, locations, |locations|, Search("", 0, 0)) == Scan(url, locations, index, Search(path, id, len))
      {
        index := index - 1;
        var ok;
        ok, len := Consider(url, index, len);
        if !ok {
          ScanThrown(url, locations, index);
          return url, Thrown;
        }
      }
      ghost var found, chosen := path, id;
      assert Scan(url, locations, |locations|, Search("", 0, 0)) == Search(path, id, len);
      while path != "" && path[0] == '/'
        invariant StripLeading(path) == StripLeading(found) && 0 <= id < |locations| && id == chosen
        invariant NulFree(found) ==> NulFree(path)
        decreases |path|
      {
        path := path[1..];
      }
      path := CleanUrl(path);
      return url, Resolved(path, id);
    }
  }

  lemma {:induction false} ScanThrown(url: string, locations: seq<Location>, k: nat)
    requires k <= |locations|
    ensures Scan(url, locations, k, OutOfRange) == OutOfRange
    decreases k
  {
    if k == 0 {
    } else {
      ScanThrown(url, locations, k - 1);
    }
  }

  // ---------------------------------------------------------------- which location is chosen

  /** The location's name is a non-empty prefix of the URL. */
  predicate Matches(url: string, locations: seq<Location>, k: int) {
    0 <= k < |locations| && locations[k].name != "" && IsPrefix(locations[k].name, url)
  }

  /** Location c is the longest match from position k on, the last of them among equals. */
  predicate IsLongest(url: string, locations: seq<Location>, c: int, k: nat) {
    && k <= c && Matches(url, locations, c)
    && forall j :: k <= j < |locations| && Matches(url, locations, j) ==>
         |locations[j].name| < |locations[c].name| || (|locations[j].name| == |locations[c].name| && j <= c)
  }

  predicate NoMatch(url: string, locations: seq<Location>, k: nat) {
    forall j :: k <= j < |locations| ==> !Matches(url, locations, j)
  }

  /** The longest match from position k on; -1 if there is none. */
  function Longest(url: string, locations: seq<Location>, k: nat): (c: int)
    requires k <= |locations|
    ensures if c == -1 then NoMatch(url, locations, k) else IsLongest(url, locations, c, k)
    decreases |locations| - k
  {
    if k == |locations| then -1
    else
      var c := Longest(url, locations, k + 1);
      if Matches(url, locations, k) && (c == -1 || |locations[k].name| > |locations[c].name|) then k else c
  }

  /** The location that serves the URL: the longest match, or location 0. */
  function Chosen(url: string, locations: seq<Location>): (c: nat)
    requires locations != []
    ensures c < |locations|
    ensures IsLongest(url, locations, c, 0) || (NoMatch(url, locations, 0) && c == 0)
  {
    var c := Longest(url, locations, 0);
    if c == -1 then 0 else c
  }

  /** The choice is unique: no other location is the longest match. */
  lemma ChoiceIsUnique(url: string, locations: seq<Location>, c: int)
    requires locations != [] && IsLongest(url, locations, c, 0)
    ensures c == Chosen(url, locations)
  {
  }

  // ---------------------------------------------------------------- what is looked up for it

  /** The location that answers for location k: the one its return directive names, or itself. */
  function ServedBy(locations: seq<Location>, k: nat): (t: int)
    requires k < |locations|
    ensures -1 <= t < |locations|
  {
    var redirect := locations[k].redirect;
    if redirect == [] then k else TargetOf(locations, redirect[|redirect| - 1])
  }

  function IndexOnMatch(url: string, name: string, loc: Location): string {
    if |name| == |url| then loc.index else ""
  }

  /** Root of the location that answers, remainder of the URL, and the index file when nothing remains. */
  function PathOf(url: string, name: string, loc: Location): string
    requires |name| <= |url|
  {
    SlashEnded(loc.root) + url[|name|..] + IndexOnMatch(url, name, loc)
  }

  datatype Lookup = Lookup(path: string, id: int)

  /** The look-up for location c. When c's return directive names no location, the remainder is appended to
      the look-up for the longest match listed after c, which was the last one taken before it. */
  function LookupFor(url: string, locations: seq<Location>, c: nat): (l: Lookup)
    requires c < |locations| && |locations[c].name| <= |url|
    ensures 0 <= l.id < |locations|
    decreases |locations| - c
  {
    var name, t := locations[c].name, ServedBy(locations, c);
    if t != -1 then Lookup(PathOf(url, name, locations[t]), t)
    else
      var before := LookupBefore(url, locations, c);
      Lookup(before.path + url[|name|..] + IndexOnMatch(url, name, locations[before.id]), before.id)
  }

  /** The look-up for the longest match listed after c; none leaves an empty path and location 0. */
  function LookupBefore(url: string, locations: seq<Location>, c: nat): (l: Lookup)
    requires c < |locations|
    ensures 0 <= l.id < |locations|
    decreases |locations| - c, 0
  {
    var p := Longest(url, locations, c + 1);
    if p == -1 then Lookup("", 0) else LookupFor(url, locations, p)
  }

  /** Where the search stands once the locations from k on have been visited. */
  function Standing(url: string, locations: seq<Location>, k: nat): Search
    requires k <= |locations|
  {
    var c := Longest(url, locations, k);
    if c == -1 then Search("", 0, 0)
    else var l := LookupFor(url, locations, c); Search(l.path, l.id, |locations[c].name|)
  }

  lemma StandingInRange(url: string, locations: seq<Location>, k: nat)
    requires k <= |locations| && locations != []
    ensures InRange(locations, Standing(url, locations, k))
  {
  }

  /** A location that is taken has its look-up appended to the standing of those listed after it. */
  lemma VisitTaken(url: string, locations: seq<Location>, k: nat)
    requires k < |locations| && InRange(locations, Standing(url, locations, k + 1))
    requires Takes(url, locations, k, Standing(url, locations, k + 1))
    ensures var after, name := Visit(url, locations, k, Standing(url, locations, k + 1)), locations[k].name;
      if |name| > |url| then after == OutOfRange
      else var l := LookupFor(url, locations, k); after == Search(l.path, l.id, |name|)
  {
    hide TargetOf, SlashEnded, Longest;
  }

  lemma VisitKeepsStanding(url: string, locations: seq<Location>, k: nat)
    requires 0 < k < |locations| && InRange(locations, Standing(url, locations, k + 1))
    ensures Visit(url, locations, k, Standing(url, locations, k + 1)) == Standing(url, locations, k)
  {
    hide LookupFor;
    if Takes(url, locations, k, Standing(url, locations, k + 1)) {
      VisitTaken(url, locations, k);
    }
  }

  lemma {:induction false} ScanStanding(url: string, locations: seq<Location>, k: nat)
    requires 1 <= k <= |locations| && InRange(locations, Standing(url, locations, k))
    ensures InRange(locations, Standing(url, locations, 1))
    ensures Scan(url, locations, k, Standing(url, locations, k))
         == Visit(url, locations, 0, Standing(url, locations, 1))
    decreases k
  {
    hide Visit, Standing, InRange;
    if k == 1 {
    } else {
      StandingInRange(url, locations, k - 1);
      VisitKeepsStanding(url, locations, k - 1);
      ScanStanding(url, locations, k - 1);
    }
  }

  /** Location 0 is taken when it is the longest match or when nothing matched. */
  lemma LastVisit(url: string, locations: seq<Location>)
    requires locations != [] && InRange(locations, Standing(url, locations, 1))
    ensures var after, c := Visit(url, locations, 0, Standing(url, locations, 1)), Chosen(url, locations);
      if NoMatch(url, locations, 0) && |locations[0].name| > |url| then after == OutOfRange
      else |locations[c].name| <= |url|
           && var l := LookupFor(url, locations, c); after == Search(l.path, l.id, |locations[c].name|)
  {
    hide LookupFor;
    if Takes(url, locations, 0, Standing(url, locations, 1)) {
      VisitTaken(url, locations, 0);
    }
  }

  /** The reverse search settles on the longest matching location (the last among equals), or on location 0
      if none matches, and looks it up; it throws exactly when none matches and location 0 is longer than the
      URL. */
  lemma LongestPrefixServes(url: string, locations: seq<Location>)
    requires locations != [] && !IsPrefix(ERROR_PAGES, url)
    ensures var r, c := Resolve(url, locations), Chosen(url, locations);
      if NoMatch(url, locations, 0) && |locations[0].name| > |url| then r == Thrown
      else |locations[c].name| <= |url|
           && var l := LookupFor(url, locations, c); r == Resolved(Clean(StripLeading(l.path)), l.id)
  {
    hide Clean, Visit, LookupFor, StripLeading;
    StandingInRange(url, locations, |locations|);
    assert Standing(url, locations, |locations|) == Search("", 0, 0);
    ScanStanding(url, locations, |locations|);
    LastVisit(url, locations);
  }

  // ---------------------------------------------------------------- in the configuration's own terms

  /** The location at t has this name and is the first that has. */
  predicate FirstNamed(locations: seq<Location>, name: string, t: nat) {
    t < |locations| && locations[t].name == name && forall j :: 0 <= j < t ==> locations[j].name != name
  }

  /** Location t answers for c: c has no return directive and t is c, or the directive's last item names t. */
  predicate AnswersFor(locations: seq<Location>, c: nat, t: nat) {
    && c < |locations| && t < |locations|
    && var directive := locations[c].redirect;
       if directive == [] then t == c else FirstNamed(locations, directive[|directive| - 1], t)
  }

  /** The URL resolves under the location that answers for the chosen one: that location's root with one slash at
      its end, the rest of the URL, and that location's index if nothing remains. */
  lemma ResolvesUnder(url: string, locations: seq<Location>, t: nat)
    requires locations != [] && !IsPrefix("/error_pages/", url)
    requires var c := Chosen(url, locations); |locations[c].name| <= |url| && AnswersFor(locations, c, t)
    ensures var name, root := locations[Chosen(url, locations)].name, locations[t].root;
      var slash := if root != "" && root[|root| - 1] == '/' then "" else "/";
      var index := if |name| == |url| then locations[t].index else "";
      && LookupFor(url, locations, Chosen(url, locations)) == Lookup(root + slash + url[|name|..] + index, t)
      && Resolve(url, locations) == Resolved(Clean(StripLeading(root + slash + url[|name|..] + index)), t)
  {
    hide Clean, StripLeading, Scan, Longest, Chosen, Resolve, TargetOf, PathOf, IsLongest, AnswersFor, LookupFor;
    var c := Chosen(url, locations);
    LongestPrefixServes(url, locations);
    ChosenFits(url, locations);
    AnswersServes(locations, c, t);
    LookupWithAnswer(url, locations, c);
    PathSpelled(url, locations[c].name, locations[t]);
  }

  lemma ChosenFits(url: string, locations: seq<Location>)
    requires locations != [] && |locations[Chosen(url, locations)].name| <= |url|
    ensures !(NoMatch(url, locations, 0) && |locations[0].name| > |url|)
  {
    hide IsPrefix;
  }

  lemma AnswersServes(locations: seq<Location>, c: nat, t: nat)
    requires AnswersFor(locations, c, t)
    ensures c < |locations| && t < |locations| && ServedBy(locations, c) == t
  {
    hide TargetOf;
  }

  lemma LookupWithAnswer(url: string, locations: seq<Location>, c: nat)
    requires c < |locations| && |locations[c].name| <= |url| && ServedBy(locations, c) != -1
    ensures LookupFor(url, locations, c)
         == Lookup(PathOf(url, locations[c].name, locations[ServedBy(locations, c)]), ServedBy(locations, c))
  {
    hide ServedBy, PathOf, Longest;
  }

  lemma PathSpelled(url: string, name: string, loc: Location)
    requires |name| <= |url|
    ensures var slash := if loc.root != "" && loc.root[|loc.root| - 1] == '/' then "" else "/";
      var index := if |name| == |url| then loc.index else "";
      PathOf(url, name, loc) == loc.root + slash + url[|name|..] + index
  {
    assert loc.root + "" == loc.root;
  }

  /** When the directive's last item names no location, the rest of the URL goes to the look-up of the longest
      match listed after the chosen one, or to an empty path under location 0. */
  lemma UnknownNameAppends(url: string, locations: seq<Location>, c: nat, p: nat)
    requires c < |locations| && |locations[c].name| <= |url| && locations[c].redirect != []
    requires forall j :: 0 <= j < |locations| ==> locations[j].name != locations[c].redirect[|locations[c].redirect| - 1]
    ensures var name := locations[c].name;
      var l := LookupFor(url, locations, c);
      && (NoMatch(url, locations, c + 1) ==>
            l == Lookup(url[|name|..] + (if |name| == |url| then locations[0].index else ""), 0))
      && (IsLongest(url, locations, p, c + 1) ==>
            var b := LookupFor(url, locations, p);
            l == Lookup(b.path + url[|name|..] + (if |name| == |url| then locations[b.id].index else ""), b.id))
  {
    var rest := url[|locations[c].name|..];
    assert "" + rest == rest;
  }

  /** The error pages are served from a directory of their own. */
  lemma ErrorPagesApart(rest: string, locations: seq<Location>)
    requires locations != []
    ensures Resolve("/error_pages/" + rest, locations) == ErrorPage("files/error_pages/" + rest)
  {
    assert "files" + ("/error_pages/" + rest) == "files/error_pages/" + rest;
  }

  // ---------------------------------------------------------------- when a location answers

  predicate EndsInSlash(s: string) {
    s != "" && s[|s| - 1] == '/'
  }

  lemma CleanEnds(s: string)
    ensures |Clean(s)| > 1 ==> !EndsInSlash(Clean(s))
  {
    CleanIsClean(s);
    var c := Clean(s);
    assert |c| > 1 ==> Fits(c, |c| - 1);
  }

  /** A look-up for a proper prefix ends like the URL. */
  lemma LookupEnds(url: string, locations: seq<Location>, p: nat)
    requires p < |locations| && |locations[p].name| < |url|
    ensures var path := LookupFor(url, locations, p).path; path != "" && path[|path| - 1] == url[|url| - 1]
  {
    hide TargetOf, SlashEnded, LookupBefore;
    var rest := url[|locations[p].name|..];
    assert rest[|rest| - 1] == url[|url| - 1];
  }

  lemma SameBeforeRest(a: string, b: string, rest: string)
    ensures a + rest == b + rest <==> a == b
  {
    if a + rest == b + rest {
      assert a == (a + rest)[..|a|] && b == (b + rest)[..|b|];
    }
  }

  /** The path is the root of the location with the resulting id, the rest of the URL once, and the index on
      an exact match, if and only if the chosen location has no return directive or one that names a location. */
  lemma AnsweredExactlyWhenNamed(url0: string, locations: seq<Location>)
    requires locations != [] && |locations[Chosen(Clean(url0), locations)].name| <= |Clean(url0)|
    ensures var url := Clean(url0);
      var c := Chosen(url, locations);
      var l := LookupFor(url, locations, c);
      l.path == PathOf(url, locations[c].name, locations[l.id]) <==> ServedBy(locations, c) != -1
  {
    hide Clean, Chosen, TargetOf, PathOf, IsLongest, NoMatch;
    var c := Chosen(Clean(url0), locations);
    if ServedBy(locations, c) == -1 {
      NotARoot(url0, locations, c);
      PathWithoutAnswer(Clean(url0), locations, c);
    }
  }

  /** Without an answering location the path is that of a root only if the look-up before it is that root. */
  lemma PathWithoutAnswer(url: string, locations: seq<Location>, c: nat)
    requires c < |locations| && |locations[c].name| <= |url| && ServedBy(locations, c) == -1
    requires !EndsInSlash(LookupBefore(url, locations, c).path)
    ensures var l := LookupFor(url, locations, c); l.path != PathOf(url, locations[c].name, locations[l.id])
  {
    hide LookupBefore, Longest, TargetOf, EndsInSlash, SlashEnded, IndexOnMatch;
    var name, before := locations[c].name, LookupBefore(url, locations, c);
    var root, rest := SlashEnded(locations[before.id].root), url[|name|..] + IndexOnMatch(url, name, locations[before.id]);
    assert LookupFor(url, locations, c).path == before.path + rest;
    assert PathOf(url, name, locations[before.id]) == root + rest;
    SameBeforeRest(before.path, root, rest);
    RootEndsInSlash(locations[before.id].root);
  }

  lemma RootEndsInSlash(root: string)
    ensures EndsInSlash(SlashEnded(root))
  {
  }

  lemma NotARoot(url0: string, locations: seq<Location>, c: nat)
    requires locations != [] && c == Chosen(Clean(url0), locations) && |locations[c].name| <= |Clean(url0)|
    ensures !EndsInSlash(LookupBefore(Clean(url0), locations, c).path)
  {
    hide Clean, LookupFor, Longest, Chosen, IsLongest, NoMatch;
    var url := Clean(url0);
    var p := Longest(url, locations, c + 1);
    if p != -1 {
      CleanEnds(url0);
      NextIsShorter(url, locations);
      LookupEnds(url, locations, p);
    }
  }

  /** The longest match listed after the chosen location is a shorter one. */
  lemma NextIsShorter(url: string, locations: seq<Location>)
    requires locations != []
    ensures var c := Chosen(url, locations);
      var p := Longest(url, locations, c + 1);
      p != -1 ==> 0 <= p < |locations| && 0 < |locations[p].name| < |locations[c].name|
  {
    hide Longest, IsPrefix;
  }

  /** A return directive that names no location, and no shorter match: "/a/x" is looked up as "/x", without
      any root, under location 0. */
  lemma UnknownTargetWithoutRoot()
    ensures var locations := [Location("/", "www", "", []), Location("/a", "www/a", "", ["301", "/gone"])];
      && Chosen("/a/x", locations) == 1 && ServedBy(locations, 1) == -1
      && Resolve("/a/x", locations) == Resolved("x", 0)
  {
    var first, second := Location("/", "www", "", []), Location("/a", "www/a", "", ["301", "/gone"]);
    var locations, url := [first, second], "/a/x";
    assert locations[1..] == [second] && [second][1..] == [];
    assert url[..2] == "/a" && url[2..] == "/x" && "/x"[1..] == "x" && url[..1] == "/";
    assert TargetOf([second], "/gone") == -1;
    assert Longest(url, locations, 2) == -1 && Longest(url, locations, 1) == 1 && Longest(url, locations, 0) == 1;
    assert LookupFor(url, locations, 1) == Lookup("/x", 0);
    assert StripLeading("/x") == "x";
    LongestPrefixServes(url, locations);
    CleanOfClean("x");
  }

  /** The same directive with a shorter match listed after it: its root is kept, and the rest of "/a/b/x"
      is appended twice, once for either match. */
  lemma UnknownTargetRepeatsRest()
    ensures var locations := [Location("/", "w", "", []), Location("/a/b", "", "", ["301", "/gone"]), Location("/a", "www", "", [])];
      && Chosen("/a/b/x", locations) == 1 && ServedBy(locations, 1) == -1
      && LookupFor("/a/b/x", locations, 1) == Lookup("www//b/x/x", 2)
  {
    var first, second, third := Location("/", "w", "", []), Location("/a/b", "", "", ["301", "/gone"]), Location("/a", "www", "", []);
    var locations, url := [first, second, third], "/a/b/x";
    assert locations[1..] == [second, third] && [second, third][1..] == [third] && [third][1..] == [];
    assert url[..2] == "/a" && url[2..] == "/b/x" && url[..4] == "/a/b" && url[4..] == "/x";
    assert TargetOf([second, third], "/gone") == -1 by {
      assert TargetOf([third], "/gone") == -1;
    }
    assert Longest(url, locations, 3) == -1 && Longest(url, locations, 2) == 2;
    assert Longest(url, locations, 1) == 1;
    assert Longest(url, locations, 0) == 1;
    assert LookupFor(url, locations, 2) == Lookup("www/" + "/b/x", 2);
    assert LookupBefore(url, locations, 1) == Lookup("www//b/x", 2);
  }
}
