/** The resource list of app.js: the search filter and the newest-first
    ordering. */
module Resources {
  import opened Util
  import opened Strings

  /** A Firestore timestamp; only its whole seconds are compared. */
  datatype Timestamp = Timestamp(seconds: int)

  /** A stored resource, with the fields the search and the ordering read.
      `subject`, `topics` and `uploadedAt` may be missing. */
  datatype Resource = Resource(title: string, subject: Option<string>, topics: Option<seq<string>>, uploadedAt: Option<Timestamp>)

  /** The sort key: the upload seconds, 0 when there is no timestamp. */
  function Seconds(r: Resource): int {
    match r.uploadedAt
    case Some(t) => t.seconds
    case None => 0
  }

  /** `!query || query.trim() === ''`. */
  predicate Blank(query: string) {
    Trim(query) == []
  }

  /** Some topic of `r` contains `searchLower`, ignoring case. */
  predicate TopicMatches(r: Resource, searchLower: string) {
    r.topics.Some? && exists t :: t in r.topics.value && Contains(Lower(t), searchLower)
  }

  /** The search condition: the title, the subject or one of the topics
      contains `searchLower`, ignoring case. */
  predicate Matches(r: Resource, searchLower: string) {
    Contains(Lower(r.title), searchLower)
    || (r.subject.Some? && Contains(Lower(r.subject.value), searchLower))
    || TopicMatches(r, searchLower)
  }

  /** The `filter` callback, with its loop over the topics. */
  method MatchesResource(r: Resource, searchLower: string) returns (found: bool)
    ensures found == Matches(r, searchLower)
  {
    if Contains(Lower(r.title), searchLower) {
      return true;
    }
    if r.subject.Some? && Contains(Lower(r.subject.value), searchLower) {
      return true;
    }
    if r.topics.Some? {
      var topics := r.topics.value;
      var i := 0;
      while i < |topics|
        invariant 0 <= i <= |topics|
        invariant forall k :: 0 <= k < i ==> !Contains(Lower(topics[k]), searchLower)
      {
        if Contains(Lower(topics[i]), searchLower) {
          return true;
        }
        i := i + 1;
      }
    }
    return false;
  }

  /** The resources `filterResources` lists for `query`: all of them for a
      blank query, otherwise those matching the lower-cased query. */
  function FilterResources(all: seq<Resource>, query: string): seq<Resource> {
    if Blank(query) then all
    else Filter(all, (r: Resource) => Matches(r, Lower(query)))
  }

  /** A blank query lists every resource, in order. */
  lemma BlankListsAll(all: seq<Resource>, query: string)
    requires Blank(query)
    ensures FilterResources(all, query) == all
  {
  }

  /** Otherwise the listing keeps the order of `all`, and each resource
      appears exactly as often as in `all` when it matches and not at all
      when it does not. */
  lemma FilterSpec(all: seq<Resource>, query: string)
    requires !Blank(query)
    ensures IsSubseq(FilterResources(all, query), all)
    ensures forall r :: multiset(FilterResources(all, query))[r] ==
                        if Matches(r, Lower(query)) then multiset(all)[r] else 0
  {
    FilterIsSubseq(all, (r: Resource) => Matches(r, Lower(query)));
    FilterCounts(all, (r: Resource) => Matches(r, Lower(query)));
  }

  /** A query is blank exactly when it is all whitespace. */
  lemma BlankIffSpaces(query: string)
    ensures Blank(query) <==> forall i :: 0 <= i < |query| ==> IsSpace(query[i])
  {
    var a := TrimStart(query);
    if a != [] {
      assert TrimEnd(a) != [] by {
        assert !IsSpace(a[0]);
      }
      assert a[0] == query[|query| - |a|];
    }
  }

  /** Lower-casing a query does not change whether it is blank. */
  lemma LowerKeepsBlank(query: string)
    ensures Blank(Lower(query)) <==> Blank(query)
  {
    var lowered := Lower(query);
    forall i | 0 <= i < |query| ensures IsSpace(lowered[i]) <==> IsSpace(query[i]) {
      LowerCharSpace(query[i]);
    }
    BlankIffSpaces(query);
    BlankIffSpaces(lowered);
  }

  lemma LowerCharSpace(c: char)
    ensures IsSpace(LowerChar(c)) <==> IsSpace(c)
  {
  }

  /** The search ignores the case of the query. */
  lemma QueryCaseIgnored(all: seq<Resource>, query: string)
    ensures FilterResources(all, Lower(query)) == FilterResources(all, query)
  {
    LowerKeepsBlank(query);
    assert Lower(Lower(query)) == Lower(query);
  }

  /** Newest first: upload seconds never increase along the list. */
  predicate NewestFirst(s: seq<Resource>) {
    forall i, j :: 0 <= i < j < |s| ==> Seconds(s[i]) >= Seconds(s[j])
  }

  /** Filtering a newest-first list leaves it newest first, so the search
      results keep the order of the full list. */
  lemma {:induction false} FilterKeepsNewestFirst(all: seq<Resource>, query: string)
    requires NewestFirst(all)
    ensures NewestFirst(FilterResources(all, query))
  {
    if !Blank(query) {
      FilteredNewestFirst(all, (r: Resource) => Matches(r, Lower(query)));
    }
  }

  lemma {:induction false} FilteredNewestFirst(xs: seq<Resource>, p: Resource -> bool)
    requires NewestFirst(xs)
    ensures NewestFirst(Filter(xs, p))
    decreases |xs|
  {
    if xs != [] {
      FilteredNewestFirst(xs[1..], p);
      var rest := Filter(xs[1..], p);
      if p(xs[0]) {
        var f := [xs[0]] + rest;
        forall i, j | 0 <= i < j < |f| ensures Seconds(f[i]) >= Seconds(f[j]) {
          if i == 0 {
            assert f[j] in xs[1..];
          }
        }
      }
    }
  }

  /** `allResources.sort` with the comparator `dateB - dateA`: the array
      ends up newest first and holds the same resources. */
  method SortNewestFirst(a: array<Resource>)
    modifies a
    ensures NewestFirst(a[..])
    ensures multiset(a[..]) == multiset(old(a[..]))
  {
    var i := 0;
    while i < a.Length
      invariant 0 <= i <= a.Length
      invariant NewestFirst(a[..i])
      invariant multiset(a[..]) == multiset(old(a[..]))
    {
      Insert(a, i);
      i := i + 1;
    }
  }

  /** The first `i + 1` entries are newest first, leaving out the one at `j`. */
  predicate NewestFirstExcept(s: seq<Resource>, i: nat, j: nat)
    requires i < |s|
  {
    forall k, l :: 0 <= k < l <= i && k != j && l != j ==> Seconds(s[k]) >= Seconds(s[l])
  }

  /** The entry at `j` is newer than every entry after it up to `i`. */
  predicate NewerThanRest(s: seq<Resource>, i: nat, j: nat)
    requires j <= i < |s|
  {
    forall l :: j < l <= i ==> Seconds(s[j]) > Seconds(s[l])
  }

  /** Moves `a[i]` left past the older resources before it: the first
      `i + 1` entries are reordered among themselves and the rest is left
      alone. */
  method Insert(a: array<Resource>, i: nat)
    requires i < a.Length && NewestFirst(a[..i])
    modifies a
    ensures NewestFirst(a[..i + 1])
    ensures multiset(a[..i + 1]) == multiset(old(a[..i + 1]))
    ensures a[i + 1..] == old(a[i + 1..])
    ensures multiset(a[..]) == multiset(old(a[..]))
  {
    var j := i;
    while j > 0 && Seconds(a[j - 1]) < Seconds(a[j])
      invariant 0 <= j <= i
      invariant NewestFirstExcept(a[..], i, j)
      invariant NewerThanRest(a[..], i, j)
      invariant multiset(a[..i + 1]) == multiset(old(a[..i + 1]))
      invariant a[i + 1..] == old(a[i + 1..])
    {
      ghost var before := a[..];
      a[j - 1], a[j] := a[j], a[j - 1];
      InsertStep(before, a[..], i, j);
      j := j - 1;
    }
    InsertDone(a[..], i, j);
    PrefixAndRest(old(a[..]), a[..], i + 1);
  }

  /** One swap of the insertion keeps its invariants, with the entry moved
      one place to the left. */
  lemma InsertStep(s: seq<Resource>, t: seq<Resource>, i: nat, j: nat)
    requires 0 < j <= i < |s| && t == s[j - 1 := s[j]][j := s[j - 1]]
    requires NewestFirstExcept(s, i, j) && NewerThanRest(s, i, j)
    requires Seconds(s[j - 1]) < Seconds(s[j])
    ensures NewestFirstExcept(t, i, j - 1) && NewerThanRest(t, i, j - 1)
    ensures multiset(t[..i + 1]) == multiset(s[..i + 1]) && t[i + 1..] == s[i + 1..]
  {
    SwapInPrefix(s, t, j, i + 1);
  }

  /** Swapping two neighbours inside the first `n` entries reorders those
      entries and leaves the rest alone. */
  lemma SwapInPrefix(s: seq<Resource>, t: seq<Resource>, j: nat, n: nat)
    requires 0 < j < n <= |s| && t == s[j - 1 := s[j]][j := s[j - 1]]
    ensures multiset(t[..n]) == multiset(s[..n])
    ensures t[n..] == s[n..]
  {
    assert t[..n] == s[..n][j - 1 := s[j]][j := s[j - 1]];
  }

  lemma PrefixAndRest(s: seq<Resource>, t: seq<Resource>, n: nat)
    requires n <= |s| == |t| && multiset(t[..n]) == multiset(s[..n]) && t[n..] == s[n..]
    ensures multiset(t) == multiset(s)
  {
    assert s == s[..n] + s[n..];
    assert t == t[..n] + t[n..];
  }

  /** Where the insertion stops, the first `i + 1` entries are newest first. */
  lemma InsertDone(s: seq<Resource>, i: nat, j: nat)
    requires j <= i < |s|
    requires NewestFirstExcept(s, i, j) && NewerThanRest(s, i, j)
    requires j == 0 || Seconds(s[j - 1]) >= Seconds(s[j])
    ensures NewestFirst(s[..i + 1])
  {
    forall k, l | 0 <= k < l <= i ensures Seconds(s[k]) >= Seconds(s[l]) {
      if l == j && k < j - 1 {
        assert Seconds(s[k]) >= Seconds(s[j - 1]);
      }
    }
  }
}
