/**
 * The Markdown plugin that turns an inline code span `youtube:<id>?start=<t>`
 * into an embedded player: the paragraph holding the span becomes a `div` whose
 * children are the text before the span, the player's HTML and the text after.
 */
module YoutubeEmbed {
  import opened Wrappers
  import opened Text

  // ---------------------------------------------------------------------------
  // The pattern /youtube:\s*(?<id>[^?]*)(\?start=(?<start>.*))?/
  // ---------------------------------------------------------------------------

  /** `\s`: the white space and line terminator characters of ECMAScript. */
  predicate IsJsWhitespace(c: char) {
    var n := c as int;
    || n == 0x09 || n == 0x0A || n == 0x0B || n == 0x0C || n == 0x0D || n == 0x20
    || n == 0xA0 || n == 0x1680 || (0x2000 <= n <= 0x200A) || n == 0x2028 || n == 0x2029
    || n == 0x202F || n == 0x205F || n == 0x3000 || n == 0xFEFF
  }

  /** The characters `.` does not match without the `s` flag. */
  predicate IsLineTerminator(c: char) {
    var n := c as int;
    n == 0x0A || n == 0x0D || n == 0x2028 || n == 0x2029
  }

  predicate NotQuestionMark(c: char) {
    c != '?'
  }

  predicate NotLineTerminator(c: char) {
    !IsLineTerminator(c)
  }

  /** The length of the longest prefix of `s` whose characters all satisfy `p` (a greedy `[...]*`). */
  function Span(s: string, p: char -> bool): (n: nat)
    ensures n <= |s|
    ensures forall i :: 0 <= i < n ==> p(s[i])
    ensures n < |s| ==> !p(s[n])
  {
    if s == [] || !p(s[0]) then 0 else 1 + Span(s[1..], p)
  }

  const Keyword := "youtube:"
  const StartMarker := "?start="

  /** The first position at or after `from` where `youtube:` occurs. */
  function FindKeyword(s: string, from: nat): (r: Option<nat>)
    ensures r.Some? ==> from <= r.value && OccursAt(s, Keyword, r.value)
    ensures r.Some? ==> forall k :: from <= k < r.value ==> !OccursAt(s, Keyword, k)
    ensures r.None? ==> forall k :: from <= k ==> !OccursAt(s, Keyword, k)
    decreases |s| - from
  {
    if from + |Keyword| > |s| then None
    else if s[from..from + |Keyword|] == Keyword then Some(from)
    else FindKeyword(s, from + 1)
  }

  /** The named groups of a match: `id`, and `start` when the optional group took part. */
  datatype YoutubeMatch = YoutubeMatch(id: string, start: Option<string>)

  /**
   * The named groups read from the text after the keyword: white space is
   * skipped, `id` runs to the first `?`, and `start` is whatever follows a
   * directly following `?start=` up to the end of the line.
   */
  function GroupsAfter(rest: string): (m: YoutubeMatch)
    ensures '?' !in m.id
    ensures m.start.Some? ==> forall i :: 0 <= i < |m.start.value| ==> !IsLineTerminator(m.start.value[i])
  {
    var afterSpace := rest[Span(rest, IsJsWhitespace)..];
    var idLength := Span(afterSpace, NotQuestionMark);
    var id := afterSpace[..idLength];
    var tail := afterSpace[idLength..];
    var start :=
      if StartMarker <= tail then
        var t := tail[|StartMarker|..];
        Some(t[..Span(t, NotLineTerminator)])
      else None;
    assert forall i :: 0 <= i < |id| ==> NotQuestionMark(id[i]);
    YoutubeMatch(id, start)
  }

  /**
   * `value.match(...)?.groups`. The match begins at the first `youtube:`; since
   * everything after the keyword is optional, the greedy first attempt succeeds.
   */
  function MatchYoutube(value: string): (r: Option<YoutubeMatch>)
    ensures r.None? <==> !Includes(value, Keyword)
    ensures r.Some? ==> '?' !in r.value.id
    ensures r.Some? && r.value.start.Some? ==> forall i :: 0 <= i < |r.value.start.value| ==> !IsLineTerminator(r.value.start.value[i])
  {
    match FindKeyword(value, 0)
    case None => None
    case Some(at) => Some(GroupsAfter(value[at + |Keyword|..]))
  }

  lemma SpanAll(s: string, p: char -> bool)
    requires forall i :: 0 <= i < |s| ==> p(s[i])
    ensures Span(s, p) == |s|
  {
  }

  lemma SpanNone(s: string, p: char -> bool)
    requires s != [] && !p(s[0])
    ensures Span(s, p) == 0
  {
  }

  /**
   * Writing an id (with no `?` and not starting with white space) after the
   * keyword, and optionally `?start=` and a one-line start time, is read back
   * as exactly that id and start time.
   */
  lemma MatchReadsBack(id: string, start: Option<string>)
    requires '?' !in id
    requires id != [] ==> !IsJsWhitespace(id[0])
    requires start.Some? ==> forall i :: 0 <= i < |start.value| ==> !IsLineTerminator(start.value[i])
    ensures MatchYoutube(Keyword + id + (if start.Some? then StartMarker + start.value else ""))
      == Some(YoutubeMatch(id, start))
  {
    var suffix := if start.Some? then StartMarker + start.value else "";
    var value := Keyword + id + suffix;
    assert value[0..|Keyword|] == Keyword;
    assert FindKeyword(value, 0) == Some(0);
    assert value[|Keyword|..] == id + suffix;
    GroupsReadBack(id, start);
  }

  /** The group reading of an id followed by an optional `?start=` suffix. */
  lemma GroupsReadBack(id: string, start: Option<string>)
    requires '?' !in id
    requires id != [] ==> !IsJsWhitespace(id[0])
    requires start.Some? ==> forall i :: 0 <= i < |start.value| ==> !IsLineTerminator(start.value[i])
    ensures GroupsAfter(id + (if start.Some? then StartMarker + start.value else "")) == YoutubeMatch(id, start)
  {
    var suffix := if start.Some? then StartMarker + start.value else "";
    var rest := id + suffix;
    if rest != [] {
      assert rest[0] == if id != [] then id[0] else '?';
      SpanNone(rest, IsJsWhitespace);
    }
    assert rest[Span(rest, IsJsWhitespace)..] == rest;
    SpanPrefix(id, suffix);
    assert rest[..|id|] == id;
    var tail := rest[|id|..];
    assert tail == suffix;
    if start.Some? {
      assert tail[..|StartMarker|] == StartMarker;
      assert tail[|StartMarker|..] == start.value;
      SpanAll(start.value, NotLineTerminator);
      assert start.value[..|start.value|] == start.value;
    } else {
      assert tail == [];
    }
  }

  /** The `[^?]*` span over `id + suffix` stops at the end of `id` when the suffix is empty or starts with `?`. */
  lemma {:induction false} SpanPrefix(id: string, suffix: string)
    requires '?' !in id
    requires suffix == [] || suffix[0] == '?'
    ensures Span(id + suffix, NotQuestionMark) == |id|
  {
    if id != [] {
      assert (id + suffix)[1..] == id[1..] + suffix;
      SpanPrefix(id[1..], suffix);
    } else {
      assert id + suffix == suffix;
    }
  }

  // ---------------------------------------------------------------------------
  // `createIframe`
  // ---------------------------------------------------------------------------

  /** `start ? `&start=${start}` : ""`: an absent or empty start time adds nothing. */
  function StartSuffix(start: Option<string>): (r: string)
    ensures start.None? || start.value == "" ==> r == ""
    ensures start.Some? && start.value != "" ==> r == "&start=" + start.value
  {
    if start.Some? && start.value != "" then "&start=" + start.value else ""
  }

  function IframeSrc(id: string, start: Option<string>): string {
    "https://www.youtube-nocookie.com/embed/" + id + "?rel=0" + StartSuffix(start)
  }

  const IframeHead := "\n    <div style=\"max-width: 600px; margin: 1rem auto;\">\n      <div style=\"padding-bottom: 56.4286%; position: relative; height: 0; overflow: hidden;\">\n        <iframe\n          src=\""
  const IframeTail := "\"\n          style=\"border: 0; width: 100%; height: 100%; top: 0; left: 0; position: absolute;\"\n          loading=\"lazy\"\n          allowfullscreen\n        ></iframe>\n      </div>\n    </div>"

  /** The player markup: a fixed wrapper around an iframe whose `src` is `IframeSrc`. */
  function CreateIframe(id: string, start: Option<string>): (html: string)
    ensures Includes(html, IframeSrc(id, start))
  {
    IncludesSelf(IframeSrc(id, start));
    IncludesRight(IframeHead, IframeSrc(id, start), IframeSrc(id, start));
    IncludesLeft(IframeHead + IframeSrc(id, start), IframeSrc(id, start), IframeTail);
    IframeHead + IframeSrc(id, start) + IframeTail
  }

  /** The source address names the video and, for a non-empty start time, where to begin. */
  lemma IframeSrcShape(id: string, start: Option<string>)
    ensures Includes(IframeSrc(id, start), id)
    ensures start.Some? && start.value != "" ==> Includes(IframeSrc(id, start), "&start=" + start.value)
    ensures start.None? || start.value == "" ==> IframeSrc(id, start) == "https://www.youtube-nocookie.com/embed/" + id + "?rel=0"
  {
    var base := "https://www.youtube-nocookie.com/embed/";
    IncludesSelf(id);
    IncludesRight(base, id, id);
    IncludesLeft(base + id, id, "?rel=0");
    IncludesLeft(base + id + "?rel=0", id, StartSuffix(start));
    if start.Some? && start.value != "" {
      IncludesSelf(StartSuffix(start));
      IncludesRight(base + id + "?rel=0", StartSuffix(start), StartSuffix(start));
    } else {
      assert IframeSrc(id, start) == base + id + "?rel=0" + "";
    }
  }

  // ---------------------------------------------------------------------------
  // Rewriting the parent
  // ---------------------------------------------------------------------------

  /**
   * A node of the Markdown tree: its `type`, `tagName` and `value` when present,
   * its other properties, and its children.
   */
  datatype Node = Node(nodeType: string, tagName: Option<string>, value: Option<string>,
                       rest: map<string, string>, children: seq<Node>)

  /** `u("html", { value })`. */
  function HtmlNode(value: string): Node {
    Node("html", None, Some(value), map[], [])
  }

  /**
   * The new children: a copy of the original parent holding the children before
   * `index` (if any), the html node, and a copy holding those after (if any).
   */
  function SplitAround(original: Node, index: nat, html: Node): seq<Node>
    requires index < |original.children|
  {
    var before := original.children[..index];
    var after := original.children[index + 1..];
    (if |before| > 0 then [original.(children := before)] else [])
    + [html]
    + (if |after| > 0 then [original.(children := after)] else [])
  }

  lemma SplitAroundParts(original: Node, index: nat, html: Node)
    requires index < |original.children|
    ensures SplitAround(original, index, html)
      == (if index > 0 then [original.(children := original.children[..index])] else [])
         + [html]
         + (if index + 1 < |original.children| then [original.(children := original.children[index + 1..])] else [])
  {
  }

  /** The children of the copies, in order (the html node contributes none). */
  function ChildrenOfCopies(nodes: seq<Node>, html: Node): seq<Node> {
    if nodes == [] then [] else (if nodes[0] == html then [] else nodes[0].children) + ChildrenOfCopies(nodes[1..], html)
  }

  lemma ChildrenOfCopiesAppend(a: seq<Node>, b: seq<Node>, html: Node)
    ensures ChildrenOfCopies(a + b, html) == ChildrenOfCopies(a, html) + ChildrenOfCopies(b, html)
  {
    if a != [] {
      assert (a + b)[1..] == a[1..] + b;
      ChildrenOfCopiesAppend(a[1..], b, html);
    } else {
      assert a + b == b;
    }
  }

  /**
   * The new children are one to three nodes with the html node exactly once,
   * after the "before" copy when there is one; every other node is a copy of the
   * original parent, and together the copies hold the original children without
   * the matched one, in order.
   */
  lemma SplitAroundShape(original: Node, index: nat, html: Node)
    requires index < |original.children|
    requires html.children == []
    ensures var r := SplitAround(original, index, html);
      && 1 <= |r| <= 3
      && (forall p :: 0 <= p < |r| ==> (r[p] == html <==> p == if index > 0 then 1 else 0))
      && (forall p :: 0 <= p < |r| && r[p] != html ==> r[p] == original.(children := r[p].children))
      && ChildrenOfCopies(r, html) == original.children[..index] + original.children[index + 1..]
  {
    var before := original.children[..index];
    var after := original.children[index + 1..];
    var b := if |before| > 0 then [original.(children := before)] else [];
    var a := if |after| > 0 then [original.(children := after)] else [];
    ChildrenOfCopiesAppend(b, [html], html);
    ChildrenOfCopiesAppend(b + [html], a, html);
    assert ChildrenOfCopies(b, html) == before by {
      if |before| > 0 {
        assert b[1..] == [];
      }
    }
    assert ChildrenOfCopies(a, html) == after by {
      if |after| > 0 {
        assert a[1..] == [];
      }
    }
    assert ChildrenOfCopies([html], html) == [] by {
      assert [html][1..] == [];
    }
  }

  /** `u("html", { value: createIframe(id, start) })`: the node that replaces the matched code. */
  function EmbedNode(m: YoutubeMatch): (html: Node)
    ensures html.nodeType == "html" && html.children == []
    ensures html.value.Some? && Includes(html.value.value, IframeSrc(m.id, m.start))
  {
    HtmlNode(CreateIframe(m.id, m.start))
  }

  /** The paragraph (or other parent) being rewritten in place. */
  class Parent {
    var nodeType: string
    var tagName: Option<string>
    var value: Option<string>
    var rest: map<string, string>
    var children: seq<Node>

    constructor (n: Node)
      ensures Snapshot() == n
    {
      nodeType := n.nodeType;
      tagName := n.tagName;
      value := n.value;
      rest := n.rest;
      children := n.children;
    }

    /** `{ ...parent }`: a copy of the parent's current properties. */
    function Snapshot(): Node
      reads this
    {
      Node(nodeType, tagName, value, rest, children)
    }
  }

  /**
   * The visitor for an `inlineCode` node at `index` among `parent`'s children.
   * Without a `youtube:` match nothing changes; with one, the parent becomes a
   * `div` element holding `SplitAround` of its former self.
   */
  method VisitInlineCode(node: Node, index: nat, parent: Parent)
    requires index < |parent.children| && parent.children[index] == node
    requires node.value.Some?
    modifies parent
    ensures MatchYoutube(node.value.value).None? ==> parent.Snapshot() == old(parent.Snapshot())
    ensures MatchYoutube(node.value.value).Some? ==>
      var m := MatchYoutube(node.value.value).value;
      && parent.nodeType == "element" && parent.tagName == Some("div")
      && parent.value == old(parent.value) && parent.rest == old(parent.rest)
      && parent.children == SplitAround(old(parent.Snapshot()), index, EmbedNode(m))
  {
    var m := MatchYoutube(node.value.value);
    if m.None? {
      return;
    }
    ReplaceWithEmbed(m.value, index, parent);
  }

  /**
   * The rewrite once the pattern matched: the parent becomes a `div` whose
   * children are pushed one by one: a copy holding the children before `index`
   * (if any), the html node, and a copy holding those after (if any).
   */
  method ReplaceWithEmbed(m: YoutubeMatch, index: nat, parent: Parent)
    requires index < |parent.children|
    modifies parent
    ensures parent.nodeType == "element" && parent.tagName == Some("div")
    ensures parent.value == old(parent.value) && parent.rest == old(parent.rest)
    ensures parent.children == SplitAround(old(parent.Snapshot()), index, EmbedNode(m))
  {
    var beforeChildren := parent.children[..index];
    var afterChildren := parent.children[index + 1..];
    var parentClone := parent.Snapshot();
    var html := EmbedNode(m);
    ghost var first := if index > 0 then [parentClone.(children := beforeChildren)] else [];
    ghost var last := if index + 1 < |parentClone.children| then [parentClone.(children := afterChildren)] else [];
    SplitAroundParts(parentClone, index, html);
    parent.nodeType := "element";
    parent.tagName := Some("div");
    parent.children := [];
    if |beforeChildren| > 0 {
      parent.children := parent.children + [parentClone.(children := beforeChildren)];
    }
    assert parent.children == first;
    parent.children := parent.children + [html];
    if |afterChildren| > 0 {
      parent.children := parent.children + [parentClone.(children := afterChildren)];
    }
    assert parent.children == first + [html] + last;
  }
}
