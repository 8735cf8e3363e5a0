/**
 * The Gatsby build hooks of the earlier site: one page per post with links to
 * its neighbours in the date-sorted post list, the `slug` field added to Markdown
 * nodes, and the resolver that picks a post's author.
 */
module GatsbyNode {
  import opened Wrappers

  /** One `allMdx` edge's node: `fields.slug` and `frontmatter.title`. */
  datatype PostNode = PostNode(slug: string, title: string)

  /** A GraphQL error object, kept opaque. */
  datatype GraphQLError = GraphQLError(message: string)

  /**
   * The page query's result: an `errors` array when the query failed (any
   * array, even an empty one, is truthy), and otherwise the posts, already
   * sorted by date, newest first, by the query itself.
   */
  datatype QueryResult = QueryResult(errors: Option<seq<GraphQLError>>, posts: seq<PostNode>)

  datatype PageContext = PageContext(slug: string, previous: Option<PostNode>, next: Option<PostNode>)

  /** The argument of one `createPage` call (the component is the fixed blog-post template). */
  datatype Page = Page(path: string, context: PageContext)

  /** How `createPages` ends: by throwing the errors, or after the pages were created. */
  datatype Outcome = Thrown(errors: seq<GraphQLError>) | Completed(pages: seq<Page>)

  /** `previous`: the next-older post, absent for the last (oldest) one. */
  function Previous(posts: seq<PostNode>, index: nat): Option<PostNode>
    requires index < |posts|
  {
    if index == |posts| - 1 then None else Some(posts[index + 1])
  }

  /** `next`: the next-newer post, absent for the first (newest) one. */
  function Next(posts: seq<PostNode>, index: nat): Option<PostNode>
    requires index < |posts|
  {
    if index == 0 then None else Some(posts[index - 1])
  }

  /** The page created in the iteration for `posts[index]`. */
  function PageFor(posts: seq<PostNode>, index: nat): Page
    requires index < |posts|
  {
    Page(posts[index].slug, PageContext(posts[index].slug, Previous(posts, index), Next(posts, index)))
  }

  /**
   * `createPages`: the thrown errors, or the `createPage` calls in the order the
   * `forEach` issues them. No page is created when the query reports errors.
   */
  method CreatePages(result: QueryResult) returns (outcome: Outcome)
    ensures result.errors.Some? ==> outcome == Thrown(result.errors.value)
    ensures result.errors.None? ==> outcome.Completed?
    ensures outcome.Completed? ==>
      && |outcome.pages| == |result.posts|
      && forall i :: 0 <= i < |result.posts| ==> outcome.pages[i] == PageFor(result.posts, i)
  {
    if result.errors.Some? {
      return Thrown(result.errors.value);
    }
    var posts := result.posts;
    var created: seq<Page> := [];
    for index := 0 to |posts|
      invariant |created| == index
      invariant forall i :: 0 <= i < index ==> created[i] == PageFor(posts, i)
    {
      var previous := if index == |posts| - 1 then None else Some(posts[index + 1]);
      var next := if index == 0 then None else Some(posts[index - 1]);
      created := created + [Page(posts[index].slug, PageContext(posts[index].slug, previous, next))];
    }
    return Completed(created);
  }

  /**
   * The pages are linked like the posts: each page's path and context slug are
   * its post's slug; the newest page has no `next` and the oldest no `previous`
   * (so a single post has neither); in between, page i's `previous` is post i+1
   * and page i+1's `next` is post i.
   */
  lemma PagesLinkNeighbours(posts: seq<PostNode>)
    ensures forall i :: 0 <= i < |posts| ==>
      PageFor(posts, i).path == posts[i].slug && PageFor(posts, i).context.slug == posts[i].slug
    ensures |posts| > 0 ==> PageFor(posts, 0).context.next.None? && PageFor(posts, |posts| - 1).context.previous.None?
    ensures forall i :: 0 <= i < |posts| - 1 ==>
      PageFor(posts, i).context.previous == Some(posts[i + 1]) && PageFor(posts, i + 1).context.next == Some(posts[i])
    ensures forall i :: 0 <= i < |posts| ==>
      (PageFor(posts, i).context.previous.None? <==> i == |posts| - 1)
      && (PageFor(posts, i).context.next.None? <==> i == 0)
  {
  }

  // ---------------------------------------------------------------------------
  // `onCreateNode`
  // ---------------------------------------------------------------------------

  /** A node as the hook sees it: its `internal.type` and the fields added so far. */
  datatype GraphNode = GraphNode(internalType: string, fields: map<string, string>)

  /**
   * `onCreateNode`: a Markdown (`Mdx`) node gets the `slug` field, whose value is
   * the path `createFilePath` computes for it (`filePath`); other nodes are left alone.
   */
  function OnCreateNode(node: GraphNode, filePath: string): (r: GraphNode)
    ensures r.internalType == node.internalType
    ensures node.internalType == "Mdx" ==> "slug" in r.fields && r.fields["slug"] == filePath
    ensures forall name :: name != "slug" ==> (name in r.fields <==> name in node.fields)
    ensures forall name :: name != "slug" && name in r.fields ==> r.fields[name] == node.fields[name]
    ensures node.internalType != "Mdx" ==> r == node
  {
    if node.internalType == "Mdx" then node.(fields := node.fields["slug" := filePath]) else node
  }

  /** Only a Markdown node ever gains a slug, and running the hook again changes nothing more. */
  lemma OnlyMdxGainsSlug(node: GraphNode, filePath: string)
    ensures "slug" in OnCreateNode(node, filePath).fields && "slug" !in node.fields ==> node.internalType == "Mdx"
    ensures OnCreateNode(OnCreateNode(node, filePath), filePath) == OnCreateNode(node, filePath)
  {
  }

  // ---------------------------------------------------------------------------
  // The `defaultAuthor` resolver
  // ---------------------------------------------------------------------------

  datatype Author = Author(id: string, name: string)

  /** `source.author || "wds"`: an absent or empty author id falls back to "wds". */
  function AuthorId(sourceAuthor: Option<string>): (id: string)
    ensures sourceAuthor.Some? && sourceAuthor.value != "" ==> id == sourceAuthor.value
    ensures sourceAuthor.None? || sourceAuthor.value == "" ==> id == "wds"
  {
    if sourceAuthor.Some? && sourceAuthor.value != "" then sourceAuthor.value else "wds"
  }

  /** `authors[i]` is the first author whose id is `id`. */
  predicate FirstWithId(authors: seq<Author>, id: string, i: int) {
    && 0 <= i < |authors|
    && authors[i].id == id
    && forall j :: 0 <= j < i ==> authors[j].id != id
  }

  /** `authors.find(author => author.id === id)`: the first author with that id, if any. */
  function FindAuthor(authors: seq<Author>, id: string): (r: Option<Author>)
    ensures r.None? <==> forall i :: 0 <= i < |authors| ==> authors[i].id != id
    ensures r.Some? ==> exists i :: FirstWithId(authors, id, i) && authors[i] == r.value
  {
    if authors == [] then None
    else if authors[0].id == id then
      assert FirstWithId(authors, id, 0);
      Some(authors[0])
    else
      var r := FindAuthor(authors[1..], id);
      assert r.Some? ==> exists i :: FirstWithId(authors, id, i) && authors[i] == r.value by {
        if r.Some? {
          var k :| FirstWithId(authors[1..], id, k) && authors[1..][k] == r.value;
          assert forall j :: 0 < j < k + 1 ==> authors[j] == authors[1..][j - 1];
          assert FirstWithId(authors, id, k + 1);
        }
      }
      assert r.None? ==> forall i :: 0 <= i < |authors| ==> authors[i].id != id by {
        if r.None? {
          assert forall i :: 1 <= i < |authors| ==> authors[i] == authors[1..][i - 1];
        }
      }
      r
  }

  /** The author the `defaultAuthor` extension resolves for a post's frontmatter. */
  function DefaultAuthor(authors: seq<Author>, sourceAuthor: Option<string>): Option<Author> {
    FindAuthor(authors, AuthorId(sourceAuthor))
  }

  /** A post without an author gets the "wds" author whenever the author list has one. */
  lemma MissingAuthorIsWds(authors: seq<Author>, k: nat)
    requires k < |authors| && authors[k].id == "wds"
    ensures DefaultAuthor(authors, None).Some? && DefaultAuthor(authors, None).value.id == "wds"
    ensures DefaultAuthor(authors, Some("")) == DefaultAuthor(authors, None)
  {
  }
}
