# Web Dev Simplified blog: a verified model of its logic

The Web Dev Simplified blog is a static site. Its pages come from Markdown
posts. A few interactive widgets are embedded in the articles. This project
models, in Dafny, the parts of the site that compute something:

- **The post lists.** These are the home page of the earlier site
  (`BlogIndex`) and the searchable list of the current one (`BlogList`):
  - the case-insensitive search;
  - the tag tally, ranked by count and then by name;
  - the tag filter, where any selected tag lets a post through;
  - the tag toggle.
- **The build hooks.**
  - The page-per-post creation with previous and next links (`GatsbyNode`).
  - The `slug` field.
  - The default-author resolver.
  - The RSS feed, newest first (`RssFeed`).
- **Three Markdown plugins.**
  - `youtube:` inline code becomes an embedded player, and the paragraph is
    split around it (`YoutubeEmbed`).
  - A code block's `{…}` meta string becomes a line-highlight language
    suffix (`CodeHighlightPre`).
  - Every image gets the `responsive-img` class (`ResponsiveImages`).
- **The share dialog.** It builds the query string with
  `encodeURIComponent` (`ShareDialog`, `UriComponent`) and the
  `window.open` feature string.
- **The freebies table** and its fallback lookup (`Freebies`). Both this
  lookup and the tag tally read properties of plain objects, so `JsObject`
  lists the members every such object inherits and the text they print as.
- **Two article widgets.**
  - The CSS quantity-query demo (`QuantityQuery`). Its box colour is shown
    to agree with the `An+B` semantics of the CSS it prints (`Selectors`,
    following the child-indexed pseudo-classes of section 14.4 of Selectors Level 4),
    and with what a browser applies whenever the printed CSS is valid.
  - The CSS specificity display (`Specificity`).

React state becomes a class whose fields the handlers update, or a value
that the handler functions return. The Markdown visitors become methods on a
node object that they change in place. The RSS sort is an in-place sort of an
`array`. Everything else is pure functions with lemmas. `Text`, `Sequences`
and `Wrappers` hold the shared string, subsequence and option definitions.

## Model

| member | source | states |
|---|---|---|
| BlogList.TagTotalsCorrect | src/components/BlogList.jsx:9-16 | The `reduce` tally names exactly the tags that occur in some post, each once, and its count for a tag is how many times that tag is listed over all posts (at least one). |
| BlogList.SortTagsCorrect | src/components/BlogList.jsx:17-20 | The comparator sort is a permutation of the tally, and it is strictly ranked: higher count first, and equal counts in ascending name order. |
| BlogList.CompareDecidesRanked | src/components/BlogList.jsx:18-19 | For distinct names, the comparator is negative exactly when the first tag ranks before the second. It is never zero, and it is antisymmetric. |
| BlogList.RankedUnique | src/components/BlogList.jsx:17-20 | Two strictly ranked lists with the same elements are equal, so the sorted order does not depend on the sort algorithm. |
| BlogList.TagIndexNames | src/components/BlogList.jsx:9-23 | The tag bar lists every tag of every post exactly once. |
| BlogList.TagIndexCounts | src/components/BlogList.jsx:9-16 | Each listed tag's count is its number of occurrences over all posts, and that is at least 1. |
| BlogList.TagIndexOrder | src/components/BlogList.jsx:17-20 | The tag bar is ordered by descending count, with ties broken by ascending name. |
| BlogList.TagIndexSelected | src/components/BlogList.jsx:21-23 | A listed tag is marked selected exactly when its name is among the selected tags. |
| BlogList.TagIndexTotal | src/components/BlogList.jsx:9-16 | The counts add up to the total number of tag listings over all posts. |
| BlogList.TagIndexOrderIndependent | src/components/BlogList.jsx:9-23 | The tag bar depends only on the multiset of tag listings, not on the order of the posts or of their tags. |
| BlogList.PropertyAsWrittenCounts | src/components/BlogList.jsx:10-14 | The tally as written, for a tag that is not an inherited member name: no property while the tag is unlisted, otherwise the number of its listings. |
| BlogList.InheritedNameNeverCounted | src/components/BlogList.jsx:10-14 | The tally as written, for an inherited member name such as `constructor`: a property exactly when the tag is listed, and then always a string, never a count. |
| BlogList.TallyAsWrittenAgrees | src/components/BlogList.jsx:9-16 | For every tag that is not an inherited member name, the tally as written has a property exactly for the tags the modelled tally names, and the same count. |
| BlogList.ConstructorTagAsWritten | src/components/BlogList.jsx:10-14 | One post tagged `constructor`: the tally as written stores the text `function Object() { [native code] }1`, where the count of listings is 1. |
| BlogList.FilterPosts | src/components/BlogList.jsx:24-31 | The shown posts keep their original order. A post is shown, with its full multiplicity, exactly when its lower-cased title or description contains the query and, if tags are selected, it carries one of them. |
| BlogList.FilterIdentity | src/components/BlogList.jsx:24-31 | With an empty query and no tag selected, every post is shown. |
| BlogList.SelectingWidens | src/components/BlogList.jsx:28-29 | Once a tag is selected, selecting another one can only add posts (tags combine with OR). |
| BlogList.TagMatchIsUnion | src/components/BlogList.jsx:28-29 | A post passes the tag filter exactly when it passes it for one of the selected tags alone. |
| BlogList.RemoveAll | src/components/BlogList.jsx:40 | Filtering out the clicked tag removes every copy of it and keeps all other tags in order. |
| BlogList.Toggle | src/components/BlogList.jsx:37-45 | The clicked tag is selected afterwards exactly when it was not before. Other tags are unchanged. A newly selected tag is appended at the end. |
| BlogList.ToggleTwice | src/components/BlogList.jsx:37-45 | Clicking an unselected tag twice restores the selection. |
| BlogList.ToggleTwiceSelected | src/components/BlogList.jsx:37-45 | Clicking a selected tag twice moves it to the end of the selection. |
| BlogList.HandleSearchChange | src/components/BlogList.jsx:33-35 | The stored query is the lower-cased input, and the selection is unchanged. |
| BlogList.HandleTagSelect | src/components/BlogList.jsx:37-45 | The selection toggles the clicked tag, and the query is unchanged. |
| BlogList.ToggleKeepsNoDuplicates | src/components/BlogList.jsx:37-45 | Toggling a tag in a selection without repeats leaves a selection without repeats. |
| BlogList.HandlersPreserveValid | src/components/BlogList.jsx:7-8 | From the defaults, both handlers keep the query lower-case and the selection free of duplicates. |
| BlogIndex.FilterPosts | src/pages/index.js:15-20 | A TypeError exactly when some post has a null title, or a null description on a post whose title does not match. Otherwise the posts whose lower-cased title or description contains the query, in order, each with its full multiplicity. |
| BlogIndex.MatchResult | src/pages/index.js:16-19 | The callback throws exactly when the title is null, or when the title does not match and the description is null. |
| BlogIndex.EmptyQueryKeepsAll | src/pages/index.js:15-20 | The initial empty query shows every post when every post has a title, and throws when one has none. |
| BlogIndex.HandleSearchChange | src/pages/index.js:22-24 | The query is the input with every letter lower-cased, and it has the same length. |
| BlogIndex.SearchIgnoresInputCase | src/pages/index.js:15-24 | Lower-casing the input before typing it changes nothing: the handler stores the same query, so the list is the same. |
| BlogIndex.DisplayTitle | src/pages/index.js:32 | The title, or the slug when the title is null or empty. It is empty only when both are. |
| BlogIndex.DisplaySummary | src/pages/index.js:50 | The description, or the excerpt when the description is null or empty. It is empty only when both are. |
| GatsbyNode.CreatePages | gatsby-node.js:32-52 | Query errors are thrown and no page is created. Otherwise exactly one page per post is created, in post order, each one the post's page. |
| GatsbyNode.PagesLinkNeighbours | gatsby-node.js:39-51 | Each page's path and context slug are its post's slug. The newest page has no `next` and the oldest no `previous`. Neighbouring pages link to each other's posts. |
| GatsbyNode.OnCreateNode | gatsby-node.js:55-66 | An `Mdx` node gets the `slug` field with the computed path, and no other field changes. Other nodes are left alone. |
| GatsbyNode.OnlyMdxGainsSlug | gatsby-node.js:58-65 | Only an `Mdx` node can gain a slug, and running the hook twice is the same as running it once. |
| GatsbyNode.FindAuthor | gatsby-node.js:78 | The first author with the id, or nothing exactly when no author has it. |
| GatsbyNode.MissingAuthorIsWds | gatsby-node.js:78 | A post with no author, or an empty one, resolves to the `wds` author whenever one exists. |
| RssFeed.SortNewestFirst | src/pages/rss.xml.js:7-9 | The array is sorted in place, newest first, and holds the same posts. |
| RssFeed.Get | src/pages/rss.xml.js:3-23 | The posts array is reordered newest first. The feed has the fixed title, description and language, and one item per post in that order, with the post's title, description, URL and date. |
| YoutubeEmbed.MatchYoutube | src/plugins/youtubeEmbed.mjs:10-13 | There is a match exactly when the text contains `youtube:`. The id never contains `?`, and the start time never contains a line terminator. |
| YoutubeEmbed.MatchReadsBack | src/plugins/youtubeEmbed.mjs:11 | `youtube:` followed by an id without `?` (and not starting with white space), and optionally by `?start=` and a time without line terminators, matches back to that id and time. |
| YoutubeEmbed.IframeSrcShape | src/plugins/youtubeEmbed.mjs:34-41 | The player URL embeds the id. It carries `&start=` and the time exactly when a non-empty time was given. Otherwise it is the bare `youtube-nocookie` URL with `?rel=0`. |
| YoutubeEmbed.CreateIframe | src/plugins/youtubeEmbed.mjs:34-48 | The HTML contains the player URL. |
| YoutubeEmbed.SplitAroundShape | src/plugins/youtubeEmbed.mjs:14-30 | The new children are one to three nodes, and the player is at position 0 or 1 depending on whether children come before it. The other nodes are copies of the old parent. Their children, concatenated, are the old children without the matched one, in order. |
| YoutubeEmbed.EmbedNode | src/plugins/youtubeEmbed.mjs:24-26 | An `html` node without children whose value contains the player URL. |
| YoutubeEmbed.ReplaceWithEmbed | src/plugins/youtubeEmbed.mjs:14-30 | The parent becomes a `div` element whose children are the split around the player. Its value and other properties are kept. |
| YoutubeEmbed.VisitInlineCode | src/plugins/youtubeEmbed.mjs:9-31 | Without a match the parent is unchanged. With one, it becomes a `div` element whose children are the split around the player, and its other fields are kept. |
| CodeHighlightPre.RemoveBraces | src/plugins/codeHighlightPre.mjs:20 | No brace is left. Every other character is kept with its multiplicity, and the length drops by the number of braces. |
| CodeHighlightPre.RemoveBracesIdempotent | src/plugins/codeHighlightPre.mjs:20 | Removing the braces twice gives the same string as removing them once. |
| CodeHighlightPre.HighlightedLangReadsBack | src/plugins/codeHighlightPre.mjs:20 | The new language is the old one (or `null`), then `[data-line=`, then the meta string without braces, then `]`. Each part can be read back. |
| CodeHighlightPre.VisitCode | src/plugins/codeHighlightPre.mjs:18-21 | A code node with a truthy meta string gets the highlighted language. Otherwise nothing changes, and only `lang` ever changes. |
| ResponsiveImages.WithResponsiveClass | src/plugins/responsiveImages.mjs:9-12 | The class list afterwards is the old one (empty when any level was missing) with `responsive-img` appended. Existing data and properties are kept. |
| ResponsiveImages.AppliedTwiceAppendsTwice | src/plugins/responsiveImages.mjs:12 | Nothing checks for duplicates: each application appends one more `responsive-img` and leaves the earlier entries alone. |
| ResponsiveImages.VisitImage | src/plugins/responsiveImages.mjs:8-13 | An image node's data becomes the data with the class added. Other nodes are unchanged. |
| UriComponent.Encode | src/components/shareButtons/useShareDialog.js:5 | Every output character is unreserved, `%` or an upper-case hex digit, and the output is at least as long as the input. |
| UriComponent.EncodeKeepsUnreserved | src/components/shareButtons/useShareDialog.js:5 | A string of unreserved characters is left as it is. |
| UriComponent.EncodeAvoidsDelimiters | src/components/shareButtons/useShareDialog.js:5-9 | An encoded component never contains `&`, `=`, `?`, `,` or `#`. |
| UriComponent.DecodeEncode | src/components/shareButtons/useShareDialog.js:5 | Percent-decoding the UTF-8 bytes gives back the original string. |
| UriComponent.EncodeInjective | src/components/shareButtons/useShareDialog.js:5 | Different strings encode differently. |
| ShareDialog.KeptEntries | src/components/shareButtons/useShareDialog.js:3 | Exactly the entries whose value is neither `null` nor `undefined` are kept, in order. |
| ShareDialog.ParamStringReadsBack | src/components/shareButtons/useShareDialog.js:2-7 | Splitting the parameter string at `&`, then each pair at `=`, and decoding gives back the kept keys and the text of their values, in order. There is one `&` fewer than kept entries. |
| ShareDialog.NullValuesDropped | src/components/shareButtons/useShareDialog.js:3 | A `null` or `undefined` parameter contributes nothing. |
| ShareDialog.PresentValuesKept | src/components/shareButtons/useShareDialog.js:3 | A list with no null or undefined value is kept whole and in order, falsy strings, numbers and booleans (`""`, `0`, `false`) included, because the filter tests against null only. |
| ShareDialog.PlainValueKept | src/components/shareButtons/useShareDialog.js:5 | A single parameter with an unreserved value renders as the encoded key, `=` and the value text. |
| ShareDialog.UrlSplitsAtQuestionMark | src/components/shareButtons/useShareDialog.js:9 | For a URL without `?`, the shared URL splits at `?` into the URL and the parameter string. |
| ShareDialog.OpenShareDialog | src/components/shareButtons/useShareDialog.js:11-35 | `window.open` gets the shared URL, an empty target and the feature string. A missing width is 550 and a missing height is 400. |
| ShareDialog.ConfigStringReadsBack | src/components/shareButtons/useShareDialog.js:12-34 | The feature string splits at `,` into exactly the twelve `key=value` features, in declaration order, each after the first preceded by one space. |
| Freebies.GetFreebie | src/data/freebies.ts:35-40 | Always an entry of the table. A known id gives its entry; an absent, empty or unknown id gives the roadmap entry. |
| Freebies.AsWrittenReturnsInheritedMember | src/data/freebies.ts:37-40 | As written, the id `constructor` yields an inherited member of the plain object and no freebie. |
| Freebies.AsWrittenAgreesElsewhere | src/data/freebies.ts:37-40 | For every id that is not the name of an inherited member, the code as written gives the same freebie as the corrected lookup. |
| QuantityQuery.BoxColors | src/blogComponents/cssQuantityQuery/CSSQuantityQuery.tsx:110-135 | One box per unit of a non-negative count, all the same colour. A box is orange exactly when the item selector, read as the `An+B` values it denotes, matches some child, and exactly when it selects that box or one before it. When the printed CSS is valid, a box is orange exactly when the printed container rule takes effect, and exactly when the printed element rule takes effect on that box. |
| QuantityQuery.ContainerMatchesIffOrange | src/blogComponents/cssQuantityQuery/CSSQuantityQuery.tsx:151-228 | With at least one box, some child matches the item selector, read as the `An+B` values it denotes, exactly when `getBoxColor` says orange. |
| QuantityQuery.ElementRuleMatchesIffOrange | src/blogComponents/cssQuantityQuery/CSSQuantityQuery.tsx:151-228 | Each box is selected by the element selector, read as the values it denotes, exactly when `getBoxColor` says orange. |
| QuantityQuery.SignShownAfterPlus | src/blogComponents/cssQuantityQuery/CSSQuantityQuery.tsx:154-172 | The printed `±n + B` has a `-` right after the `+ ` exactly when B is negative. |
| QuantityQuery.ValidIffNonNegative | src/blogComponents/cssQuantityQuery/CSSQuantityQuery.tsx:151-173 | The printed selector has only unsigned offsets, as the `An+B` grammar requires, exactly when the amount, and under "Between" the maximum, is non-negative. |
| QuantityQuery.ContainerRuleIffOrange | src/blogComponents/cssQuantityQuery/CSSQuantityQuery.tsx:151-228 | With at least one box and valid CSS, the printed `ul:has(...)` rule takes effect exactly when `getBoxColor` says orange. Invalid CSS never takes effect. |
| QuantityQuery.ElementRuleIffOrange | src/blogComponents/cssQuantityQuery/CSSQuantityQuery.tsx:151-228 | With valid CSS, the printed element rule takes effect on a box exactly when `getBoxColor` says orange. Invalid CSS never takes effect. |
| QuantityQuery.NegativeAmountDisagrees | src/blogComponents/cssQuantityQuery/CSSQuantityQuery.tsx:60-78 | The inputs' `min="0"` does not stop a negative amount. Under "≥" a negative amount colours every box orange, but the printed CSS is invalid and neither rule takes effect. |
| QuantityQuery.FirstBoxDecides | src/blogComponents/cssQuantityQuery/CSSQuantityQuery.tsx:151-228 | The first box matches the item selector exactly when the colour is orange. |
| QuantityQuery.AnyMatchMeansFirstMatches | src/blogComponents/cssQuantityQuery/CSSQuantityQuery.tsx:151-173 | If any box matches the item selector, so does the first. |
| QuantityQuery.CodeIsStyleSheet | src/blogComponents/cssQuantityQuery/CSSQuantityQuery.tsx:151-173 | Each template literal is the element and container stylesheet around the rendered item selector. |
| QuantityQuery.CodeShowsAmount | src/blogComponents/cssQuantityQuery/CSSQuantityQuery.tsx:151-173 | The printed CSS contains the amount. |
| QuantityQuery.CodeShowsAmount2OnlyForBetween | src/blogComponents/cssQuantityQuery/CSSQuantityQuery.tsx:151-173 | The CSS contains the maximum under "Between", and does not depend on it for the other query types. |
| QuantityQuery.BetweenIsBoth | src/blogComponents/cssQuantityQuery/CSSQuantityQuery.tsx:219-228 | "Between" is satisfied exactly when both "≥ min" and "≤ max" are. |
| QuantityQuery.EmptyRangeNeverOrange | src/blogComponents/cssQuantityQuery/CSSQuantityQuery.tsx:224-227 | A range whose minimum exceeds its maximum is never satisfied. |
| QuantityQuery.RenderedBoxCount | src/blogComponents/cssQuantityQuery/CSSQuantityQuery.tsx:123 | `Array.from({ length })` renders the count for a non-negative length, and no box for a negative one. |
| QuantityQuery.QuantityQueryDemo.AmountLabel | src/blogComponents/cssQuantityQuery/CSSQuantityQuery.tsx:57 | The label is "Min" exactly under "Between", and "Amount" otherwise. |
| QuantityQuery.QuantityQueryDemo.ShowsMaxInput | src/blogComponents/cssQuantityQuery/CSSQuantityQuery.tsx:69 | The Max input is shown exactly under "Between". |
| QuantityQuery.QuantityQueryDemo.AddThenRemove | src/blogComponents/cssQuantityQuery/CSSQuantityQuery.tsx:92-98 | Adding and then removing a box restores the count, and the rest of the state is untouched. |
| QuantityQuery.QuantityQueryDemo.Default | src/blogComponents/cssQuantityQuery/CSSQuantityQuery.tsx:10-13 | The defaults: "≥", amount 3, maximum 5 and two boxes. |
| Selectors.PlusNMatches | src/blogComponents/cssQuantityQuery/CSSQuantityQuery.tsx:154 | `:nth-last-child(n + B)` selects exactly the children at position B or later from the end. |
| Selectors.MinusNMatches | src/blogComponents/cssQuantityQuery/CSSQuantityQuery.tsx:161 | `:nth-last-child(-n + B)` selects exactly the last B children. |
| Selectors.NoChildNoMatch | src/blogComponents/cssQuantityQuery/CSSQuantityQuery.tsx:158 | `:has` never matches a list without children. |
| Specificity.SpecificityDisplay.RunEffect | src/blogComponents/cssSpecificityDisplay/CssSpecificityDisplay.jsx:72-92 | The effect changes nothing when the input is hidden. Without a calculator result, the four counters are zero and there are no details. Otherwise the counters are the four entries of the specificity array, and the details are its parts. |
| Specificity.SpecificityDisplay.HandleChange | src/blogComponents/cssSpecificityDisplay/CssSpecificityDisplay.jsx:94-96 | The input text becomes the typed value, and nothing else changes. |
| Specificity.ToDetails | src/blogComponents/cssSpecificityDisplay/CssSpecificityDisplay.jsx:79-85 | One detail per part, in order, with the part's selector and type 1, 2 or 3 for `a`, `b` or `c`. |
| Specificity.TypeNumber | src/blogComponents/cssSpecificityDisplay/CssSpecificityDisplay.jsx:80-83 | `a`, `b` and `c` map to 1, 2 and 3, in both directions. |
| Specificity.DetailsDisplay | src/blogComponents/cssSpecificityDisplay/CssSpecificityDisplay.jsx:154-155 | There is nothing to display exactly when there are no details. |
| Specificity.DetailsDisplayCorrect | src/blogComponents/cssSpecificityDisplay/CssSpecificityDisplay.jsx:154-165 | The groups are in strictly ascending type order, one per type present. Each group holds exactly the selectors of its type in input order, never none. Together the groups hold every part. |
| Specificity.GroupAllCorrect | src/blogComponents/cssSpecificityDisplay/CssSpecificityDisplay.jsx:157-162 | The `reduce` makes one group per type present, with distinct types, each holding that type's selectors in input order. |
| Specificity.SortByKindSorted | src/blogComponents/cssSpecificityDisplay/CssSpecificityDisplay.jsx:156-164 | Sorting groups that are already in ascending order changes nothing, so the explicit sort after the integer-key enumeration order is harmless. |
| Specificity.BreakdownOfParts | src/blogComponents/cssSpecificityDisplay/CssSpecificityDisplay.jsx:79-92 | A selector's breakdown has at most three groups, each of type 1, 2 or 3. |
| Text.IntToStringInjective | src/blogComponents/cssQuantityQuery/CSSQuantityQuery.tsx:154 | Different numbers render as different decimal texts in `${…}`. |
| Text.SplitJoin | src/components/shareButtons/useShareDialog.js:7 | Joining pieces that do not contain the separator, and splitting the result again, gives back the pieces. |

## Left out

- The letter case: `toLowerCase` is modelled on ASCII letters only. Unicode case mapping (and the length changes it can cause) is not modelled.
- `BlogList.StrLess`: the tag-name comparison `>` orders code points. JavaScript compares UTF-16 code units. The two differ only for characters outside the Basic Multilingual Plane.
- Storage: `useSessionStorage` persistence and the React hooks are not modelled. Only the state they hold and the handlers' updates are.
- Rendering: JSX markup, styles, colours and the `dangerouslySetInnerHTML` output are not modelled, beyond the strings and values they display.
- Library calls: the specificity `calculate`, `createFilePath`, the GraphQL query, `createPage`, the RSS serializer and `import.meta.glob` are outside the model. Their results become parameters, and `createPages` returns the `createPage` arguments in order.
- Tree traversal: the `unist-util-visit` walk itself is not modelled. Each plugin's callback is modelled for one node.
- `YoutubeEmbed.VisitInlineCode`: the index shift after the parent's children change during the walk is not modelled.
- File operations: the `fs.unlinkSync` and `fs.copyFileSync` of the highlighter script in `codeHighlightPre.mjs` are not modelled.
- `ShareDialog.OpenShareDialog`: the window geometry (`left` and `top` from the `window` size and position) is passed in as already-rendered text. `window.open` is returned as a record of its arguments.
- Object enumeration: `Object.entries` of the query parameters is taken in the order the entries are given. The reordering of integer-like keys first is not modelled.
- Numbers: `valueAsNumber` can be `NaN` or fractional, and widths and heights can be fractional. The model uses integers throughout.
- `Specificity.ToDetails`: a part type other than `a`, `b` or `c` (which would leave `type` undefined) is not representable. The calculator only reports these three.
- `ResponsiveImages.VisitImage`: `node.data` and its nested objects are modelled as values, so aliasing between nodes that share a data object is not modelled.
- `UriComponent.Decode`: this is the left inverse used for the round trip. It is not a model of `decodeURIComponent`, and it accepts some byte sequences that UTF-8 forbids. `encodeURIComponent` throws on a lone surrogate, which a Dafny `char` cannot hold.
- `RssFeed.SortNewestFirst`: proved sorted and a permutation. The stability of `Array.prototype.sort` for posts with equal dates is not stated.
- `QuantityQuery.RenderedBoxCount`: a count beyond the array-length limit, or a fractional one, would make `Array.from` throw or truncate. This is not modelled.
- `BlogList.TagTotals`: it models the tally as the code evidently intends it, counting own properties only. The tally as written, which reads inherited members of `{}`, is `BlogList.PropertyAsWritten`; see Findings. What the comparator and the tag bar do with a text-valued count is not modelled.
- `BlogList.Post`: a post's title and description are taken to be strings. The module that loads `allPosts` is not part of this model, so a null title or description, which would make `toLowerCase` throw as it does in `BlogIndex`, is not modelled there.
- `QuantityQuery.BoxColors`: for a negative amount or maximum, the printed CSS is invalid and a browser ignores it, while the boxes still take `getBoxColor`'s colour. The model states that disagreement (`QuantityQuery.NegativeAmountDisagrees`) rather than an agreement.
- The share-dialog feature string has twelve entries, `height` through `top`, because that is what the code declares.

## Findings

| source | as written | input that shows it | evidently intended | confidence | as-written member | corrected member |
|---|---|---|---|---|---|---|
| src/data/freebies.ts:37-40 | `freebies[freebieId] \|\| freebies[DEFAULT_FREEBIE_ID]` reads a property of a plain object, which also finds members inherited from `Object.prototype`. | `getFreebie("constructor")` returns the `Object` constructor function, not a freebie. | An id that is not a key of the table falls back to the default freebie. | low: found by the model, not executed; ids come from post frontmatter, where such a name is unlikely | Freebies.AsWrittenReturnsInheritedMember | Freebies.GetFreebie |
| src/components/BlogList.jsx:10-14 | `(tagTotals[tag] \|\| 0) + 1` reads a property of an object built from `{}`, which also finds members inherited from `Object.prototype`. | One post tagged `constructor`: the tally stores `"function Object() { [native code] }1"` for that tag. | Each tag's count is its number of listings over all posts. | low: found by the model, not executed; tags are written by the blog's author | BlogList.ConstructorTagAsWritten | BlogList.TagTotalsCorrect |
