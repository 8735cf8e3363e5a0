/**
 * The index page of the earlier Gatsby site: a text-only search over the
 * posts' titles and descriptions, and the fallbacks used when a post is shown.
 * A frontmatter field a post does not set arrives from the page query as
 * `null`, so the title and the description are optional here.
 */
module BlogIndex {
  import opened Wrappers
  import opened Text
  import opened Sequences

  datatype Frontmatter = Frontmatter(date: Option<string>, title: Option<string>, description: Option<string>)

  /** One `allMdx` edge's node, as the page query selects it. */
  datatype MdxNode = MdxNode(excerpt: string, slug: string, frontmatter: Frontmatter)

  /**
   * The filter callback: `title.toLowerCase().includes(q) || description.toLowerCase().includes(q)`.
   * `None` is the TypeError of calling `toLowerCase` on a null field: the title
   * is always read, the description only when the title does not match.
   */
  function MatchResult(node: MdxNode, searchQuery: string): (r: Option<bool>)
    ensures r.None? <==>
      || node.frontmatter.title.None?
      || (!Includes(Lower(node.frontmatter.title.value), searchQuery) && node.frontmatter.description.None?)
  {
    match node.frontmatter.title
    case None => None
    case Some(title) =>
      if Includes(Lower(title), searchQuery) then Some(true)
      else
        match node.frontmatter.description
        case None => None
        case Some(description) => Some(Includes(Lower(description), searchQuery))
  }

  /** The callback throws for this post. */
  predicate Throws(node: MdxNode, searchQuery: string) {
    MatchResult(node, searchQuery).None?
  }

  /** The callback keeps this post: its lower-cased title or its lower-cased description contains the query. */
  predicate Matches(node: MdxNode, searchQuery: string) {
    MatchResult(node, searchQuery) == Some(true)
  }

  /** What rendering the list gives: the TypeError, or the posts shown. */
  datatype Filtered = TypeError | Shown(posts: seq<MdxNode>)

  /**
   * `posts.filter(...)`: a TypeError exactly when the callback throws for some
   * post; otherwise the matching posts, every one of them, in their original order.
   */
  function FilterPosts(posts: seq<MdxNode>, searchQuery: string): (r: Filtered)
    ensures r.TypeError? <==> exists i :: 0 <= i < |posts| && Throws(posts[i], searchQuery)
    ensures r.Shown? ==> IsSubsequence(r.posts, posts)
    ensures r.Shown? ==> forall p :: multiset(r.posts)[p] == if Matches(p, searchQuery) then multiset(posts)[p] else 0
  {
    if posts == [] then Shown([])
    else if Throws(posts[0], searchQuery) then
      TypeError
    else
      var rest := FilterPosts(posts[1..], searchQuery);
      assert posts == [posts[0]] + posts[1..];
      ThrowsSplit(posts, searchQuery);
      if rest.TypeError? then
        TypeError
      else if Matches(posts[0], searchQuery) then
        var r := [posts[0]] + rest.posts;
        assert r[1..] == rest.posts;
        Shown(r)
      else
        assert rest.posts == [] || rest.posts[0] != posts[0] by {
          if rest.posts != [] {
            assert rest.posts[0] in multiset(rest.posts);
          }
        }
        rest
  }

  /** Some post throws exactly when the first one does or one of the rest does. */
  lemma ThrowsSplit(posts: seq<MdxNode>, searchQuery: string)
    requires posts != []
    ensures (exists i :: 0 <= i < |posts| && Throws(posts[i], searchQuery))
        <==> Throws(posts[0], searchQuery) || exists j :: 0 <= j < |posts[1..]| && Throws(posts[1..][j], searchQuery)
  {
    if exists j :: 0 <= j < |posts[1..]| && Throws(posts[1..][j], searchQuery) {
      var j :| 0 <= j < |posts[1..]| && Throws(posts[1..][j], searchQuery);
      assert Throws(posts[j + 1], searchQuery);
    }
    if exists i :: 0 <= i < |posts| && Throws(posts[i], searchQuery) {
      var i :| 0 <= i < |posts| && Throws(posts[i], searchQuery);
      if i > 0 {
        assert Throws(posts[1..][i - 1], searchQuery);
      }
    }
  }

  /**
   * The initial, empty query keeps every post, in order, when every post has a
   * title (a missing description is then never read); a post without a title
   * makes the page throw.
   */
  lemma EmptyQueryKeepsAll(posts: seq<MdxNode>)
    ensures (forall i :: 0 <= i < |posts| ==> posts[i].frontmatter.title.Some?) ==> FilterPosts(posts, "") == Shown(posts)
    ensures (exists i :: 0 <= i < |posts| && posts[i].frontmatter.title.None?) ==> FilterPosts(posts, "") == TypeError
  {
    if exists i :: 0 <= i < |posts| && posts[i].frontmatter.title.None? {
      var i :| 0 <= i < |posts| && posts[i].frontmatter.title.None?;
      assert Throws(posts[i], "");
    } else {
      TitledPostsKept(posts);
    }
  }

  lemma {:induction false} TitledPostsKept(posts: seq<MdxNode>)
    requires forall i :: 0 <= i < |posts| ==> posts[i].frontmatter.title.Some?
    ensures FilterPosts(posts, "") == Shown(posts)
  {
    if posts != [] {
      IncludesEmpty(Lower(posts[0].frontmatter.title.value));
      assert Matches(posts[0], "");
      TitledPostsKept(posts[1..]);
      assert [posts[0]] + posts[1..] == posts;
    }
  }

  /** The search box handler: the stored query is the lower-cased input. */
  function HandleSearchChange(value: string): (searchQuery: string)
    ensures IsLower(searchQuery) && |searchQuery| == |value|
    ensures forall i :: 0 <= i < |value| ==> searchQuery[i] == LowerChar(value[i])
  {
    LowerIsLower(value);
    Lower(value)
  }

  /** Matching ignores the case of what was typed: an input and its lower-cased form filter alike. */
  lemma SearchIgnoresInputCase(posts: seq<MdxNode>, value: string)
    ensures FilterPosts(posts, HandleSearchChange(Lower(value))) == FilterPosts(posts, HandleSearchChange(value))
  {
    LowerIsLower(value);
  }

  /** `node.frontmatter.title || node.fields.slug`: a null or empty title falls back to the slug. */
  function DisplayTitle(node: MdxNode): (r: string)
    ensures node.frontmatter.title.Some? && node.frontmatter.title.value != "" ==> r == node.frontmatter.title.value
    ensures node.frontmatter.title.None? || node.frontmatter.title.value == "" ==> r == node.slug
    ensures r == "" <==> (node.frontmatter.title.None? || node.frontmatter.title.value == "") && node.slug == ""
  {
    if node.frontmatter.title.Some? && node.frontmatter.title.value != "" then node.frontmatter.title.value else node.slug
  }

  /** `node.frontmatter.description || node.excerpt`: a null or empty description falls back to the excerpt. */
  function DisplaySummary(node: MdxNode): (r: string)
    ensures node.frontmatter.description.Some? && node.frontmatter.description.value != "" ==> r == node.frontmatter.description.value
    ensures node.frontmatter.description.None? || node.frontmatter.description.value == "" ==> r == node.excerpt
    ensures r == "" <==> (node.frontmatter.description.None? || node.frontmatter.description.value == "") && node.excerpt == ""
  {
    if node.frontmatter.description.Some? && node.frontmatter.description.value != "" then node.frontmatter.description.value
    else node.excerpt
  }
}
