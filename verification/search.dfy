/** The search page: the post filter of `performSearch`, the selected-tag
    toggle of the tag buttons, and the sorted tag catalogue `renderTags`
    lists. */
module Search {
  import opened Text
  import opened Lex

  /** One entry of the post list. */
  datatype Post = Post(
    title: string,
    file: string,
    date: string,
    category: string,
    excerpt: string,
    description: string,
    tags: seq<string>)

  // ---------------------------------------------------------------------------
  // The filter of performSearch
  // ---------------------------------------------------------------------------

  /** `searchQuery.toLowerCase().trim()`: a query with no space at either
      end that lower-casing leaves as it is. */
  function NormalizeQuery(raw: string): (r: string)
    ensures |r| <= |raw|
    ensures r == [] || (!IsSpace(r[0]) && !IsSpace(r[|r| - 1]))
    ensures ToLower(r) == r
  {
    ToLowerIdempotent(raw);
    ToLowerTrimCommute(ToLower(raw));
    Trim(ToLower(raw))
  }

  /** The text, lower-cased, contains the query somewhere. */
  ghost predicate Mentions(text: string, query: string) {
    exists i :: OccursAt(ToLower(text), query, i)
  }

  /** `matchesQuery`: an empty query matches every post; otherwise the query
      occurs, case-insensitively, in the title, excerpt, description or one
      of the tags. The query is already lower-cased. */
  function MatchesQuery(p: Post, query: string): (r: bool)
    ensures r <==> || query == []
                   || Mentions(p.title, query)
                   || Mentions(p.excerpt, query)
                   || Mentions(p.description, query)
                   || exists j :: 0 <= j < |p.tags| && Mentions(p.tags[j], query)
  {
    assert forall j :: 0 <= j < |p.tags| ==>
             (Includes(ToLower(p.tags[j]), query) <==> Mentions(p.tags[j], query));
    || query == []
    || Includes(ToLower(p.title), query)
    || Includes(ToLower(p.excerpt), query)
    || Includes(ToLower(p.description), query)
    || exists i | 0 <= i < |p.tags| :: Includes(ToLower(p.tags[i]), query)
  }

  /** `matchesTags`: no tag selected, or one of the post's tags is selected,
      compared exactly. */
  function MatchesTags(p: Post, selected: set<string>): (r: bool)
    ensures r <==> selected == {} || exists t :: t in selected && t in p.tags
  {
    |selected| == 0 || exists i | 0 <= i < |p.tags| :: p.tags[i] in selected
  }

  /** The callback given to `filter`: a post is kept exactly when it passes
      both tests, and a test with nothing to test by lets every post through. */
  function Keep(p: Post, query: string, selected: set<string>): (r: bool)
    ensures r <==> MatchesQuery(p, query) && MatchesTags(p, selected)
    ensures query == [] ==> (r <==> MatchesTags(p, selected))
    ensures selected == {} ==> (r <==> MatchesQuery(p, query))
    ensures r ==> MatchesQuery(p, query) && MatchesTags(p, selected)
  {
    MatchesQuery(p, query) && MatchesTags(p, selected)
  }

  /** `posts.filter(...)`: the kept posts, in order; a post is kept as many
      times as it occurs. */
  function Filter(posts: seq<Post>, query: string, selected: set<string>): (r: seq<Post>)
    ensures |r| <= |posts|
    ensures forall i :: 0 <= i < |r| ==> r[i] in posts && Keep(r[i], query, selected)
    decreases |posts|
  {
    if posts == [] then []
    else
      var rest := Filter(posts[1..], query, selected);
      if Keep(posts[0], query, selected) then [posts[0]] + rest else rest
  }

  /** Each post is kept as many times as it occurs, if it matches, and
      otherwise dropped. */
  lemma {:induction false} FilterCounts(posts: seq<Post>, query: string, selected: set<string>)
    ensures forall p :: multiset(Filter(posts, query, selected))[p]
                        == if Keep(p, query, selected) then multiset(posts)[p] else 0
    decreases |posts|
  {
    if posts != [] {
      var x, rest := posts[0], posts[1..];
      FilterCounts(rest, query, selected);
      assert multiset(posts) == multiset{x} + multiset(rest) by {
        assert posts == [x] + rest;
      }
      if Keep(x, query, selected) {
        assert multiset(Filter(posts, query, selected))
               == multiset{x} + multiset(Filter(rest, query, selected));
      } else {
        assert Filter(posts, query, selected) == Filter(rest, query, selected);
      }
    }
  }

  /** `performSearch`: normalise the query, then keep the posts that match. */
  method PerformSearch(posts: seq<Post>, searchQuery: string, selected: set<string>)
    returns (filtered: seq<Post>)
    ensures filtered == Filter(posts, NormalizeQuery(searchQuery), selected)
  {
    var query := NormalizeQuery(searchQuery);
    filtered := [];
    for i := 0 to |posts|
      invariant filtered == Filter(posts[..i], query, selected)
    {
      FilterAppend(posts[..i], [posts[i]], query, selected);
      assert posts[..i + 1] == posts[..i] + [posts[i]];
      if Keep(posts[i], query, selected) {
        filtered := filtered + [posts[i]];
      }
    }
    assert posts[..|posts|] == posts;
  }

  /** Filtering distributes over concatenation. */
  lemma {:induction false} FilterAppend(a: seq<Post>, b: seq<Post>, query: string, selected: set<string>)
    ensures Filter(a + b, query, selected) == Filter(a, query, selected) + Filter(b, query, selected)
    decreases |a|
  {
    if a != [] {
      assert (a + b)[1..] == a[1..] + b;
      FilterAppend(a[1..], b, query, selected);
    } else {
      assert a + b == b;
    }
  }

  /** Filtering a filtered list again with the same query and tags changes
      nothing. */
  lemma {:induction false} FilterIdempotent(posts: seq<Post>, query: string, selected: set<string>)
    ensures Filter(Filter(posts, query, selected), query, selected) == Filter(posts, query, selected)
    decreases |posts|
  {
    if posts != [] {
      FilterIdempotent(posts[1..], query, selected);
    }
  }

  /** With nothing to match, every post is kept. */
  lemma {:induction false} FilterKeepsAll(posts: seq<Post>, query: string, selected: set<string>)
    requires forall i :: 0 <= i < |posts| ==> Keep(posts[i], query, selected)
    ensures Filter(posts, query, selected) == posts
    decreases |posts|
  {
    if posts != [] {
      FilterKeepsAll(posts[1..], query, selected);
    }
  }

  /** A blank search with no tag selected shows every post, in order. */
  lemma BlankSearchShowsAll(posts: seq<Post>, searchQuery: string)
    requires AllSpace(searchQuery)
    ensures Filter(posts, NormalizeQuery(searchQuery), {}) == posts
  {
    BlankQuery(searchQuery);
    FilterKeepsAll(posts, NormalizeQuery(searchQuery), {});
  }

  /** The normalised query is empty exactly when the typed text is blank. */
  lemma BlankQuery(raw: string)
    ensures NormalizeQuery(raw) == [] <==> AllSpace(raw)
  {
    forall i | 0 <= i < |raw|
      ensures IsSpace(ToLower(raw)[i]) <==> IsSpace(raw[i])
    {
      LowerCharSpace(raw[i]);
    }
  }

  /** With no query and one selected tag, a post is shown exactly when it
      carries that tag, spelled the same way. */
  lemma SingleTagSelects(p: Post, tag: string)
    ensures Keep(p, [], {tag}) <==> tag in p.tags
  {
    if tag in p.tags {
      var i :| 0 <= i < |p.tags| && p.tags[i] == tag;
      assert p.tags[i] in {tag};
    }
  }

  /** The search ignores the case of what is typed, and trimming before or
      after lower-casing comes to the same. */
  lemma QueryIgnoresCase(raw: string)
    ensures NormalizeQuery(ToLower(raw)) == NormalizeQuery(raw)
    ensures NormalizeQuery(raw) == ToLower(Trim(raw))
  {
    ToLowerIdempotent(raw);
    ToLowerTrimCommute(raw);
  }

  /** The indices of the kept posts, ascending, from `lo` on. */
  function KeptIndices(posts: seq<Post>, query: string, selected: set<string>, lo: nat): (idx: seq<nat>)
    requires lo <= |posts|
    ensures forall j :: 0 <= j < |idx| ==> lo <= idx[j] < |posts|
    ensures forall j, k :: 0 <= j < k < |idx| ==> idx[j] < idx[k]
    ensures forall i :: lo <= i < |posts| ==> (i in idx <==> Keep(posts[i], query, selected))
    decreases |posts| - lo
  {
    if lo == |posts| then []
    else
      var rest := KeptIndices(posts, query, selected, lo + 1);
      if Keep(posts[lo], query, selected) then [lo] + rest else rest
  }

  /** The posts at the given indices, in the order of the indices. */
  function At(posts: seq<Post>, idx: seq<nat>): (r: seq<Post>)
    requires forall j :: 0 <= j < |idx| ==> idx[j] < |posts|
    ensures |r| == |idx|
    ensures forall j :: 0 <= j < |idx| ==> r[j] == posts[idx[j]]
  {
    if idx == [] then [] else [posts[idx[0]]] + At(posts, idx[1..])
  }

  /** The filter is the subsequence of the posts at the kept indices. */
  lemma {:induction false} FilterAtKeptIndices(posts: seq<Post>, query: string, selected: set<string>, lo: nat)
    requires lo <= |posts|
    ensures Filter(posts[lo..], query, selected) == At(posts, KeptIndices(posts, query, selected, lo))
    decreases |posts| - lo
  {
    if lo < |posts| {
      var rest := KeptIndices(posts, query, selected, lo + 1);
      FilterAtKeptIndices(posts, query, selected, lo + 1);
      assert posts[lo..][1..] == posts[lo + 1..];
      assert posts[lo..][0] == posts[lo];
      if Keep(posts[lo], query, selected) {
        assert ([lo] + rest)[1..] == rest;
      }
    }
  }

  /** The whole list: the filter keeps exactly the posts at the kept indices. */
  lemma FilterIsSubsequence(posts: seq<Post>, query: string, selected: set<string>)
    ensures Filter(posts, query, selected) == At(posts, KeptIndices(posts, query, selected, 0))
  {
    FilterAtKeptIndices(posts, query, selected, 0);
    assert posts[0..] == posts;
  }

  // ---------------------------------------------------------------------------
  // The tag buttons
  // ---------------------------------------------------------------------------

  /** A click on a tag button: deselect the tag if selected, else select it. */
  function ToggleTag(selected: set<string>, tag: string): (r: set<string>)
    ensures tag in r <==> tag !in selected
    ensures forall t :: t != tag ==> (t in r <==> t in selected)
  {
    if tag in selected then selected - {tag} else selected + {tag}
  }

  /** Two clicks on the same button restore the selection. */
  lemma ToggleTwice(selected: set<string>, tag: string)
    ensures ToggleTag(ToggleTag(selected, tag), tag) == selected
  {
  }

  /** Clicks on two buttons give the same selection in either order. */
  lemma ToggleCommutes(selected: set<string>, a: string, b: string)
    ensures ToggleTag(ToggleTag(selected, a), b) == ToggleTag(ToggleTag(selected, b), a)
  {
  }

  // ---------------------------------------------------------------------------
  // The tag catalogue of renderTags
  // ---------------------------------------------------------------------------

  /** Every tag of every post. */
  ghost function AllTags(posts: seq<Post>): set<string> {
    set i, j | 0 <= i < |posts| && 0 <= j < |posts[i].tags| :: posts[i].tags[j]
  }

  /** `Array.from(allTags).sort()`: the tags of all posts, each once, in
      ascending order. */
  method TagCatalogue(posts: seq<Post>) returns (catalogue: seq<string>)
    ensures StrictlySorted(catalogue)
    ensures forall t :: t in catalogue <==> t in AllTags(posts)
  {
    catalogue := [];
    for i := 0 to |posts|
      invariant StrictlySorted(catalogue)
      invariant forall t :: t in catalogue <==> t in AllTags(posts[..i])
    {
      var tags := posts[i].tags;
      for j := 0 to |tags|
        invariant StrictlySorted(catalogue)
        invariant forall t :: t in catalogue <==> t in AllTags(posts[..i]) || t in tags[..j]
      {
        assert tags[..j + 1] == tags[..j] + [tags[j]];
        catalogue := Insert(catalogue, tags[j]);
      }
      AllTagsStep(posts, i);
    }
    assert posts[..|posts|] == posts;
  }

  /** One more post adds its own tags to the catalogue. */
  lemma AllTagsStep(posts: seq<Post>, i: nat)
    requires i < |posts|
    ensures forall t :: t in AllTags(posts[..i + 1])
                        <==> t in AllTags(posts[..i]) || t in posts[i].tags[..|posts[i].tags|]
  {
    var pre, post := posts[..i], posts[..i + 1];
    assert posts[i].tags[..|posts[i].tags|] == posts[i].tags;
    forall t | t in AllTags(post)
      ensures t in AllTags(pre) || t in posts[i].tags
    {
      var a, b :| 0 <= a < |post| && 0 <= b < |post[a].tags| && post[a].tags[b] == t;
      if a < i {
        assert pre[a] == post[a];
      }
    }
    forall t | t in AllTags(pre) || t in posts[i].tags
      ensures t in AllTags(post)
    {
      if t in AllTags(pre) {
        var a, b :| 0 <= a < |pre| && 0 <= b < |pre[a].tags| && pre[a].tags[b] == t;
        assert post[a] == pre[a];
      } else {
        var b :| 0 <= b < |posts[i].tags| && posts[i].tags[b] == t;
        assert post[i] == posts[i];
      }
    }
  }

  /** The catalogue is the one sorted listing of all tags. */
  lemma CatalogueUnique(posts: seq<Post>, c1: seq<string>, c2: seq<string>)
    requires StrictlySorted(c1) && (forall t :: t in c1 <==> t in AllTags(posts))
    requires StrictlySorted(c2) && (forall t :: t in c2 <==> t in AllTags(posts))
    ensures c1 == c2
  {
    SortedUnique(c1, c2);
  }
}
