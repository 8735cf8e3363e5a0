/**
 * The RSS endpoint: every post, newest first, as a feed item, under a fixed
 * channel title, description and language.
 */
module RssFeed {

  datatype Frontmatter = Frontmatter(title: string, description: string, date: int)

  /**
   * One imported Markdown module: its frontmatter and its public URL. The date
   * is its `valueOf()`, a number of milliseconds.
   */
  datatype MarkdownPost = MarkdownPost(frontmatter: Frontmatter, url: string)

  datatype Item = Item(title: string, description: string, link: string, pubDate: int)

  /** The options passed to the feed serializer. */
  datatype Feed = Feed(title: string, description: string, customData: string, site: string, items: seq<Item>)

  /** Newest first: no post is older than one after it. */
  predicate NewestFirst(s: seq<MarkdownPost>) {
    forall k, l :: 0 <= k < l < |s| ==> s[k].frontmatter.date >= s[l].frontmatter.date
  }

  /** Exchanges two posts of the array; the array keeps the same posts. */
  method Swap(a: array<MarkdownPost>, p: int, q: int)
    requires 0 <= p < a.Length && 0 <= q < a.Length
    modifies a
    ensures a[..] == old(a[..])[p := old(a[q])][q := old(a[p])]
    ensures a[p] == old(a[q]) && a[q] == old(a[p])
    ensures forall k :: 0 <= k < a.Length && k != p && k != q ==> a[k] == old(a[k])
    ensures multiset(a[..]) == multiset(old(a[..]))
  {
    a[p], a[q] := a[q], a[p];
  }

  /**
   * `allMarkdownPosts.sort((a, b) => b.date - a.date)`, in place: afterwards the
   * array holds the same posts, newest first.
   */
  method SortNewestFirst(a: array<MarkdownPost>)
    modifies a
    ensures NewestFirst(a[..])
    ensures multiset(a[..]) == multiset(old(a[..]))
  {
    for i := 0 to a.Length
      invariant forall k, l :: 0 <= k < l < i ==> a[k].frontmatter.date >= a[l].frontmatter.date
      invariant multiset(a[..]) == multiset(old(a[..]))
    {
      var j := i;
      while j > 0 && a[j - 1].frontmatter.date < a[j].frontmatter.date
        invariant 0 <= j <= i
        invariant multiset(a[..]) == multiset(old(a[..]))
        invariant forall k, l :: 0 <= k < l <= i && k != j && l != j ==> a[k].frontmatter.date >= a[l].frontmatter.date
        invariant forall l :: j < l <= i ==> a[j].frontmatter.date > a[l].frontmatter.date
      {
        Swap(a, j - 1, j);
        j := j - 1;
      }
    }
  }

  /** `allPosts.map(...)`: one item per post, in the same order. */
  function ToItems(posts: seq<MarkdownPost>): (r: seq<Item>)
    ensures |r| == |posts|
    ensures forall i :: 0 <= i < |posts| ==>
      && r[i].title == posts[i].frontmatter.title
      && r[i].description == posts[i].frontmatter.description
      && r[i].link == posts[i].url
      && r[i].pubDate == posts[i].frontmatter.date
  {
    seq(|posts|, i requires 0 <= i < |posts| =>
      Item(posts[i].frontmatter.title, posts[i].frontmatter.description, posts[i].url, posts[i].frontmatter.date))
  }

  const ChannelTitle := "Web Dev Simplified Blog"
  const ChannelLanguage := "<language>en-us</language>"

  /** The mapped items of newest-first posts are newest first too. */
  lemma ItemsNewestFirst(posts: seq<MarkdownPost>)
    requires NewestFirst(posts)
    ensures forall k, l :: 0 <= k < l < |posts| ==> ToItems(posts)[k].pubDate >= ToItems(posts)[l].pubDate
  {
  }

  /**
   * `get`: sorts the imported posts in place and returns the feed: the fixed
   * channel fields, and one item per post, newest first.
   */
  method Get(allMarkdownPosts: array<MarkdownPost>, site: string) returns (feed: Feed)
    modifies allMarkdownPosts
    ensures multiset(allMarkdownPosts[..]) == multiset(old(allMarkdownPosts[..]))
    ensures NewestFirst(allMarkdownPosts[..])
    ensures feed.title == ChannelTitle && feed.description == ChannelTitle
    ensures feed.customData == ChannelLanguage && feed.site == site
    ensures feed.items == ToItems(allMarkdownPosts[..])
    ensures forall k, l :: 0 <= k < l < |feed.items| ==> feed.items[k].pubDate >= feed.items[l].pubDate
  {
    SortNewestFirst(allMarkdownPosts);
    ItemsNewestFirst(allMarkdownPosts[..]);
    feed := Feed(ChannelTitle, ChannelTitle, ChannelLanguage, site, ToItems(allMarkdownPosts[..]));
  }
}
