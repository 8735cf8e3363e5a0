/**
 * The blog index of the Astro site: a tag-frequency index built from the
 * posts, the search-and-tag filter over the posts, and the two event handlers
 * that update the persisted (search query, selected tags) pair.
 */
module BlogList {
  import opened Wrappers
  import opened Text
  import opened Sequences
  import opened JsObject

  datatype Post = Post(title: string, description: string, url: string, tags: seq<string>)

  /** An entry of the running tally: a property `name: count` of the counting object. */
  datatype TagCount = TagCount(name: string, count: nat)

  /** An entry of the tag index handed to the tag bar. */
  datatype Tag = Tag(name: string, count: nat, selected: bool)

  // ---------------------------------------------------------------------------
  // What is counted
  // ---------------------------------------------------------------------------

  /** Every tag of every post, post by post, each list in authored order. */
  function AllTags(posts: seq<Post>): seq<string> {
    if posts == [] then [] else posts[0].tags + AllTags(posts[1..])
  }

  /** How often `t` is listed over all posts; a post listing it twice contributes two. */
  function Occurrences(posts: seq<Post>, t: string): nat {
    multiset(AllTags(posts))[t]
  }

  // ---------------------------------------------------------------------------
  // The counting object, as an insertion-ordered list of properties
  // ---------------------------------------------------------------------------

  function Names(tally: seq<TagCount>): set<string> {
    set i | 0 <= i < |tally| :: tally[i].name
  }

  predicate DistinctNames(tally: seq<TagCount>) {
    forall i, j :: 0 <= i < j < |tally| ==> tally[i].name != tally[j].name
  }

  predicate PositiveCounts(tally: seq<TagCount>) {
    forall i :: 0 <= i < |tally| ==> tally[i].count >= 1
  }

  /** `totals[name] || 0`: the property's value, or 0 when it is absent. */
  function Lookup(tally: seq<TagCount>, name: string): nat {
    if tally == [] then 0
    else if tally[0].name == name then tally[0].count
    else Lookup(tally[1..], name)
  }

  /** `{ ...totals, [name]: count }`: overwrite the property in place, or append it. */
  function Put(tally: seq<TagCount>, name: string, count: nat): seq<TagCount> {
    if tally == [] then [TagCount(name, count)]
    else if tally[0].name == name then [TagCount(name, count)] + tally[1..]
    else [tally[0]] + Put(tally[1..], name, count)
  }

  lemma NamesCons(s: seq<TagCount>)
    requires s != []
    ensures Names(s) == {s[0].name} + Names(s[1..])
  {
    forall t | t in Names(s) ensures t in {s[0].name} + Names(s[1..]) {
      var i :| 0 <= i < |s| && s[i].name == t;
      if i > 0 { assert s[1..][i - 1] == s[i]; }
    }
    forall t | t in Names(s[1..]) ensures t in Names(s) {
      var i :| 0 <= i < |s[1..]| && s[1..][i].name == t;
      assert s[i + 1] == s[1..][i];
    }
  }

  lemma DistinctCons(s: seq<TagCount>)
    requires s != []
    ensures DistinctNames(s) <==> DistinctNames(s[1..]) && s[0].name !in Names(s[1..])
  {
    if DistinctNames(s) {
      forall i, j | 0 <= i < j < |s[1..]| ensures s[1..][i].name != s[1..][j].name {
        assert s[1..][i] == s[i + 1] && s[1..][j] == s[j + 1];
      }
    }
    if DistinctNames(s[1..]) && s[0].name !in Names(s[1..]) {
      forall i, j | 0 <= i < j < |s| ensures s[i].name != s[j].name {
        assert s[j] == s[1..][j - 1];
        if i > 0 { assert s[i] == s[1..][i - 1]; }
      }
    }
  }

  lemma PositiveCons(s: seq<TagCount>)
    requires s != []
    ensures PositiveCounts(s) <==> PositiveCounts(s[1..]) && s[0].count >= 1
  {
    if PositiveCounts(s[1..]) && s[0].count >= 1 {
      forall i | 0 < i < |s| ensures s[i].count >= 1 {
        assert s[i] == s[1..][i - 1];
      }
    }
  }

  /** An absent property reads as 0. */
  lemma {:induction false} LookupAbsent(tally: seq<TagCount>, name: string)
    requires name !in Names(tally)
    ensures Lookup(tally, name) == 0
  {
    if tally != [] {
      NamesCons(tally);
      LookupAbsent(tally[1..], name);
    }
  }

  /** With distinct names, a property reads as its own count. */
  lemma {:induction false} LookupAt(tally: seq<TagCount>, i: nat)
    requires DistinctNames(tally) && i < |tally|
    ensures Lookup(tally, tally[i].name) == tally[i].count
  {
    if i > 0 {
      DistinctCons(tally);
      NamesCons(tally[1..]);
      assert tally[1..][i - 1] == tally[i];
      assert tally[i].name in Names(tally[1..]);
      LookupAt(tally[1..], i - 1);
    }
  }

  /** Writing a property changes only that property and adds its name. */
  lemma {:induction false} PutShape(tally: seq<TagCount>, name: string, count: nat)
    ensures Names(Put(tally, name, count)) == Names(tally) + {name}
    ensures forall t :: Lookup(Put(tally, name, count), t) == if t == name then count else Lookup(tally, t)
    ensures DistinctNames(tally) ==> DistinctNames(Put(tally, name, count))
    ensures PositiveCounts(tally) && count >= 1 ==> PositiveCounts(Put(tally, name, count))
  {
    var r := Put(tally, name, count);
    if tally == [] {
      assert Names(r) == {name};
    } else {
      NamesCons(tally);
      NamesCons(r);
      DistinctCons(tally);
      DistinctCons(r);
      PositiveCons(tally);
      PositiveCons(r);
      if tally[0].name == name {
        assert r[1..] == tally[1..];
      } else {
        assert r[1..] == Put(tally[1..], name, count);
        PutShape(tally[1..], name, count);
      }
    }
  }

  /** The inner `reduce`: one post's tags, each adding one to its property. */
  function CountTags(tally: seq<TagCount>, tags: seq<string>): seq<TagCount>
    decreases |tags|
  {
    if tags == [] then tally
    else CountTags(Put(tally, tags[0], Lookup(tally, tags[0]) + 1), tags[1..])
  }

  /** The outer `reduce`: the posts in order, each handing the tally to its tags. */
  function CountPosts(tally: seq<TagCount>, posts: seq<Post>): seq<TagCount>
    decreases |posts|
  {
    if posts == [] then tally
    else CountPosts(CountTags(tally, posts[0].tags), posts[1..])
  }

  /** The counting object built from `{}`. */
  function TagTotals(posts: seq<Post>): seq<TagCount> {
    CountPosts([], posts)
  }

  /** Shape of the tally after counting some tags into it. */
  ghost predicate TallyAfter(start: seq<TagCount>, tags: seq<string>, r: seq<TagCount>) {
    && Names(r) == Names(start) + (set t | t in tags)
    && (forall t :: Lookup(r, t) == Lookup(start, t) + multiset(tags)[t])
    && (DistinctNames(start) ==> DistinctNames(r))
    && (PositiveCounts(start) ==> PositiveCounts(r))
  }

  lemma SeqCons(tags: seq<string>)
    requires tags != []
    ensures multiset(tags) == multiset{tags[0]} + multiset(tags[1..])
    ensures (set t | t in tags) == {tags[0]} + (set t | t in tags[1..])
  {
    assert tags == [tags[0]] + tags[1..];
  }

  lemma {:induction false} CountTagsShape(tally: seq<TagCount>, tags: seq<string>)
    ensures TallyAfter(tally, tags, CountTags(tally, tags))
    decreases |tags|
  {
    if tags != [] {
      var next := Put(tally, tags[0], Lookup(tally, tags[0]) + 1);
      PutShape(tally, tags[0], Lookup(tally, tags[0]) + 1);
      CountTagsShape(next, tags[1..]);
      SeqCons(tags);
      var r := CountTags(tally, tags);
      assert r == CountTags(next, tags[1..]);
      forall t ensures Lookup(r, t) == Lookup(tally, t) + multiset(tags)[t] {
        assert Lookup(r, t) == Lookup(next, t) + multiset(tags[1..])[t];
      }
    }
  }

  lemma {:induction false} CountPostsShape(tally: seq<TagCount>, posts: seq<Post>)
    ensures TallyAfter(tally, AllTags(posts), CountPosts(tally, posts))
    decreases |posts|
  {
    if posts == [] {
      assert (set t | t in AllTags(posts)) == {};
    } else {
      var next := CountTags(tally, posts[0].tags);
      CountTagsShape(tally, posts[0].tags);
      CountPostsShape(next, posts[1..]);
      var a, b := posts[0].tags, AllTags(posts[1..]);
      assert AllTags(posts) == a + b;
      assert multiset(a + b) == multiset(a) + multiset(b);
      assert (set t | t in a + b) == (set t | t in a) + (set t | t in b);
    }
  }

  /**
   * The counting object holds each tag that occurs in some post exactly once,
   * with the number of times it is listed over all posts, and no other names.
   */
  lemma TagTotalsCorrect(posts: seq<Post>)
    ensures Names(TagTotals(posts)) == set t | t in AllTags(posts)
    ensures DistinctNames(TagTotals(posts)) && PositiveCounts(TagTotals(posts))
    ensures forall t :: Lookup(TagTotals(posts), t) == Occurrences(posts, t)
  {
    CountPostsShape([], posts);
    assert Names([]) == {};
  }

  // ---------------------------------------------------------------------------
  // The counting object as written: a read of an absent property reaches
  // `Object.prototype`
  // ---------------------------------------------------------------------------

  /** A property value of the counting object as written: a count, or a text. */
  datatype TotalValue = Number(n: nat) | Str(s: string)

  /**
   * `(tagTotals[tag] || 0) + 1`, where `own` is the own property `tag`, if any.
   * Without one, the read finds the inherited member of that name, which is
   * truthy and no number, so `+ 1` concatenates; with no inherited member
   * either, the read is `undefined` and the count starts at 1.
   */
  function BumpAsWritten(own: Option<TotalValue>, tag: string): TotalValue {
    match own
    case Some(Number(n)) => Number(n + 1)
    case Some(Str(s)) => Str(s + "1")
    case None => if tag in PrototypeMembers then Str(InheritedText(tag) + "1") else Number(1)
  }

  /**
   * The own property `t` of the counting object after the tags are counted in
   * order, as written. Each listing of `t` bumps it; other tags leave it alone.
   */
  function PropertyAsWritten(tags: seq<string>, t: string): Option<TotalValue> {
    if tags == [] then None
    else
      var before := PropertyAsWritten(tags[..|tags| - 1], t);
      if tags[|tags| - 1] == t then Some(BumpAsWritten(before, t)) else before
  }

  /** For a name that is not inherited, the as-written property is the number of listings, if any. */
  lemma {:induction false} PropertyAsWrittenCounts(tags: seq<string>, t: string)
    requires t !in PrototypeMembers
    ensures PropertyAsWritten(tags, t) == if multiset(tags)[t] == 0 then None else Some(Number(multiset(tags)[t]))
  {
    if tags != [] {
      var init := tags[..|tags| - 1];
      PropertyAsWrittenCounts(init, t);
      assert tags == init + [tags[|tags| - 1]];
    }
  }

  /** For a tag named after an inherited member, the as-written property is never a number. */
  lemma {:induction false} InheritedNameNeverCounted(tags: seq<string>, t: string)
    requires t in PrototypeMembers
    ensures PropertyAsWritten(tags, t).None? <==> multiset(tags)[t] == 0
    ensures PropertyAsWritten(tags, t).Some? ==> PropertyAsWritten(tags, t).value.Str?
  {
    if tags != [] {
      var init := tags[..|tags| - 1];
      InheritedNameNeverCounted(init, t);
      assert tags == init + [tags[|tags| - 1]];
    }
  }

  /**
   * Over the posts, the as-written counting object agrees with `TagTotals` on
   * every name that is not inherited: the same names, with the same counts.
   */
  lemma TallyAsWrittenAgrees(posts: seq<Post>, t: string)
    requires t !in PrototypeMembers
    ensures PropertyAsWritten(AllTags(posts), t).Some? <==> t in Names(TagTotals(posts))
    ensures PropertyAsWritten(AllTags(posts), t).Some? ==>
      PropertyAsWritten(AllTags(posts), t) == Some(Number(Lookup(TagTotals(posts), t)))
  {
    PropertyAsWrittenCounts(AllTags(posts), t);
    TagTotalsCorrect(posts);
  }

  /**
   * One post tagged `constructor`: as written, the property holds a text where
   * `TagTotals` holds the count 1.
   */
  lemma ConstructorTagAsWritten(post: Post)
    requires post.tags == ["constructor"]
    ensures PropertyAsWritten(AllTags([post]), "constructor") == Some(Str("function Object() { [native code] }1"))
    ensures Lookup(TagTotals([post]), "constructor") == 1
  {
    var posts := [post];
    assert AllTags(posts) == ["constructor"] by {
      assert posts[1..] == [];
    }
    var tags: seq<string> := ["constructor"];
    assert tags[..0] == [];
    assert "constructor" in PrototypeMembers;
    assert InheritedText("constructor") == "function Object() { [native code] }";
    assert PropertyAsWritten(tags, "constructor") == Some(BumpAsWritten(None, "constructor"));
    assert BumpAsWritten(None, "constructor") == Str(InheritedText("constructor") + "1");
    assert "function Object() { [native code] }" + "1" == "function Object() { [native code] }1";
    assert AllTags([post]) == tags;
    TagTotalsCorrect(posts);
  }

  // ---------------------------------------------------------------------------
  // The order of the tag index
  // ---------------------------------------------------------------------------

  /** JavaScript's `a < b` on strings: lexicographic, a proper prefix first. */
  predicate StrLess(a: string, b: string) {
    if b == [] then false
    else if a == [] then true
    else if a[0] != b[0] then a[0] < b[0]
    else StrLess(a[1..], b[1..])
  }

  lemma {:induction false} StrLessIrreflexive(a: string)
    ensures !StrLess(a, a)
  {
    if a != [] { StrLessIrreflexive(a[1..]); }
  }

  lemma {:induction false} StrLessTransitive(a: string, b: string, c: string)
    requires StrLess(a, b) && StrLess(b, c)
    ensures StrLess(a, c)
  {
    if a != [] && a[0] == b[0] && b[0] == c[0] {
      StrLessTransitive(a[1..], b[1..], c[1..]);
    }
  }

  lemma {:induction false} StrLessTotal(a: string, b: string)
    requires a != b
    ensures StrLess(a, b) || StrLess(b, a)
  {
    if a != [] && b != [] && a[0] == b[0] {
      assert a == [a[0]] + a[1..] && b == [b[0]] + b[1..];
      StrLessTotal(a[1..], b[1..]);
    }
  }

  /** The comparator handed to `sort`: negative when `a` goes first. */
  function Compare(a: TagCount, b: TagCount): int {
    if a.count == b.count then (if StrLess(b.name, a.name) then 1 else -1)
    else (if a.count < b.count then 1 else -1)
  }

  /** The order the index is meant to have: higher count first, then name ascending. */
  predicate Ranked(a: TagCount, b: TagCount) {
    a.count > b.count || (a.count == b.count && StrLess(a.name, b.name))
  }

  /** For distinct names the comparator is consistent and decides exactly `Ranked`. */
  lemma CompareDecidesRanked(a: TagCount, b: TagCount)
    requires a.name != b.name
    ensures Compare(a, b) < 0 <==> Ranked(a, b)
    ensures Compare(a, b) != 0
    ensures Compare(a, b) < 0 <==> Compare(b, a) > 0
  {
    StrLessTotal(a.name, b.name);
    if StrLess(a.name, b.name) && StrLess(b.name, a.name) {
      StrLessTransitive(a.name, b.name, a.name);
      StrLessIrreflexive(a.name);
    }
  }

  lemma RankedTransitive(a: TagCount, b: TagCount, c: TagCount)
    requires Ranked(a, b) && Ranked(b, c)
    ensures Ranked(a, c)
  {
    if a.count == b.count == c.count {
      StrLessTransitive(a.name, b.name, c.name);
    }
  }

  lemma RankedAsymmetric(a: TagCount, b: TagCount)
    ensures !(Ranked(a, b) && Ranked(b, a))
  {
    if Ranked(a, b) && Ranked(b, a) {
      StrLessTransitive(a.name, b.name, a.name);
      StrLessIrreflexive(a.name);
    }
  }

  predicate StrictlyRanked(s: seq<TagCount>) {
    forall i, j :: 0 <= i < j < |s| ==> Ranked(s[i], s[j])
  }

  predicate RankedBeforeAll(a: TagCount, s: seq<TagCount>) {
    forall j :: 0 <= j < |s| ==> Ranked(a, s[j])
  }

  predicate NameAbsent(x: TagCount, s: seq<TagCount>) {
    forall i :: 0 <= i < |s| ==> s[i].name != x.name
  }

  lemma RankedCons(s: seq<TagCount>)
    requires s != []
    ensures StrictlyRanked(s) <==> StrictlyRanked(s[1..]) && RankedBeforeAll(s[0], s[1..])
  {
    if StrictlyRanked(s) {
      forall i, j | 0 <= i < j < |s[1..]| ensures Ranked(s[1..][i], s[1..][j]) {
        assert s[1..][i] == s[i + 1] && s[1..][j] == s[j + 1];
      }
      forall j | 0 <= j < |s[1..]| ensures Ranked(s[0], s[1..][j]) {
        assert s[1..][j] == s[j + 1];
      }
    }
    if StrictlyRanked(s[1..]) && RankedBeforeAll(s[0], s[1..]) {
      forall i, j | 0 <= i < j < |s| ensures Ranked(s[i], s[j]) {
        assert s[j] == s[1..][j - 1];
        if i > 0 { assert s[i] == s[1..][i - 1]; }
      }
    }
  }

  /** Insert `x` before the first element the comparator does not put before it. */
  function Insert(x: TagCount, s: seq<TagCount>): seq<TagCount> {
    if s == [] then [x]
    else if Compare(x, s[0]) < 0 then [x] + s
    else [s[0]] + Insert(x, s[1..])
  }

  /** `sort` with `Compare`, as an insertion sort (any correct sort gives the same list). */
  function SortTags(s: seq<TagCount>): seq<TagCount> {
    if s == [] then [] else Insert(s[0], SortTags(s[1..]))
  }

  lemma {:induction false} InsertPermutes(x: TagCount, s: seq<TagCount>)
    ensures multiset(Insert(x, s)) == multiset(s) + multiset{x}
  {
    if s != [] && Compare(x, s[0]) >= 0 {
      InsertPermutes(x, s[1..]);
      assert s == [s[0]] + s[1..];
    }
  }

  lemma {:induction false} InsertKeepsFirst(a: TagCount, x: TagCount, s: seq<TagCount>)
    requires RankedBeforeAll(a, s) && Ranked(a, x)
    ensures RankedBeforeAll(a, Insert(x, s))
  {
    var r := Insert(x, s);
    InsertPermutes(x, s);
    forall j | 0 <= j < |r| ensures Ranked(a, r[j]) {
      assert r[j] in multiset(r);
      if r[j] != x {
        assert r[j] in multiset(s);
        var k :| 0 <= k < |s| && s[k] == r[j];
      }
    }
  }

  lemma {:induction false} InsertRanked(x: TagCount, s: seq<TagCount>)
    requires StrictlyRanked(s) && NameAbsent(x, s)
    ensures StrictlyRanked(Insert(x, s))
  {
    if s != [] {
      var r := Insert(x, s);
      RankedCons(s);
      CompareDecidesRanked(x, s[0]);
      if Compare(x, s[0]) < 0 {
        forall j | 0 <= j < |s| ensures Ranked(x, s[j]) {
          if j > 0 { RankedTransitive(x, s[0], s[j]); }
        }
        assert r[1..] == s;
        RankedCons(r);
      } else {
        StrLessTotal(x.name, s[0].name);
        assert Ranked(s[0], x);
        assert NameAbsent(x, s[1..]) by {
          forall i | 0 <= i < |s[1..]| ensures s[1..][i].name != x.name {
            assert s[1..][i] == s[i + 1];
          }
        }
        InsertRanked(x, s[1..]);
        InsertKeepsFirst(s[0], x, s[1..]);
        assert r[1..] == Insert(x, s[1..]);
        RankedCons(r);
      }
    }
  }

  /** The sort is a permutation and, on distinct names, yields the ranked order. */
  lemma {:induction false} SortTagsCorrect(s: seq<TagCount>)
    ensures multiset(SortTags(s)) == multiset(s)
    ensures DistinctNames(s) ==> StrictlyRanked(SortTags(s))
  {
    if s != [] {
      SortTagsCorrect(s[1..]);
      InsertPermutes(s[0], SortTags(s[1..]));
      assert s == [s[0]] + s[1..];
      if DistinctNames(s) {
        DistinctCons(s);
        var rest := SortTags(s[1..]);
        forall i | 0 <= i < |rest| ensures rest[i].name != s[0].name {
          assert rest[i] in multiset(s[1..]);
          var k :| 0 <= k < |s[1..]| && s[1..][k] == rest[i];
          assert rest[i].name in Names(s[1..]);
        }
        InsertRanked(s[0], rest);
      }
    }
  }

  /** A strictly ranked list is fixed by its elements: the sort's result does not depend on the algorithm. */
  lemma {:induction false} RankedUnique(a: seq<TagCount>, b: seq<TagCount>)
    requires StrictlyRanked(a) && StrictlyRanked(b)
    requires forall x :: x in a <==> x in b
    ensures a == b
    decreases |a|
  {
    assert a != [] ==> a[0] in b;
    assert b != [] ==> b[0] in a;
    if a != [] && b != [] {
      assert a[0] in a && b[0] in b;
      if a[0] != b[0] {
        var j :| 0 <= j < |b| && b[j] == a[0];
        var i :| 0 <= i < |a| && a[i] == b[0];
        assert Ranked(b[0], a[0]) && Ranked(a[0], b[0]);
        RankedAsymmetric(a[0], b[0]);
      }
      forall x ensures x in a[1..] <==> x in b[1..] {
        if x in a[1..] {
          var i :| 0 <= i < |a[1..]| && a[1..][i] == x;
          assert Ranked(a[0], a[i + 1]);
          RankedAsymmetric(a[0], x);
          assert x in a;
          var j :| 0 <= j < |b| && b[j] == x;
          assert j != 0;
          assert b[1..][j - 1] == x;
        }
        if x in b[1..] {
          var j :| 0 <= j < |b[1..]| && b[1..][j] == x;
          assert Ranked(b[0], b[j + 1]);
          RankedAsymmetric(b[0], x);
          assert x in b;
          var i :| 0 <= i < |a| && a[i] == x;
          assert i != 0;
          assert a[1..][i - 1] == x;
        }
      }
      RankedUnique(a[1..], b[1..]);
      assert a == [a[0]] + a[1..] && b == [b[0]] + b[1..];
    }
  }

  // ---------------------------------------------------------------------------
  // The tag index
  // ---------------------------------------------------------------------------

  /** Attach the `selected` flag to each counted tag. */
  function Flag(sorted: seq<TagCount>, selectedTags: seq<string>): seq<Tag> {
    seq(|sorted|, i requires 0 <= i < |sorted| =>
      Tag(sorted[i].name, sorted[i].count, sorted[i].name in selectedTags))
  }

  /** The counted, sorted tags, each flagged with whether it is selected. */
  function TagIndex(posts: seq<Post>, selectedTags: seq<string>): seq<Tag> {
    Flag(SortTags(TagTotals(posts)), selectedTags)
  }

  /** The sorted tally holds exactly the entries of the tally. */
  lemma SortedTotals(posts: seq<Post>)
    ensures forall x :: x in SortTags(TagTotals(posts)) <==> x in TagTotals(posts)
    ensures StrictlyRanked(SortTags(TagTotals(posts)))
  {
    TagTotalsCorrect(posts);
    SortTagsCorrect(TagTotals(posts));
    forall x ensures x in SortTags(TagTotals(posts)) <==> x in TagTotals(posts) {
      assert x in SortTags(TagTotals(posts)) <==> x in multiset(SortTags(TagTotals(posts)));
      assert x in TagTotals(posts) <==> x in multiset(TagTotals(posts));
    }
  }

  /** The index names each tag occurring in some post, once, and no other. */
  lemma TagIndexNames(posts: seq<Post>, selectedTags: seq<string>)
    ensures var r := TagIndex(posts, selectedTags);
      && (set i | 0 <= i < |r| :: r[i].name) == (set t | t in AllTags(posts))
      && forall i, j :: 0 <= i < j < |r| ==> r[i].name != r[j].name
  {
    var totals, r := TagTotals(posts), TagIndex(posts, selectedTags);
    var sorted := SortTags(totals);
    TagTotalsCorrect(posts);
    SortedTotals(posts);
    forall t | t in Names(totals) ensures t in set i | 0 <= i < |r| :: r[i].name {
      var k :| 0 <= k < |totals| && totals[k].name == t;
      assert totals[k] in totals;
      var i :| 0 <= i < |sorted| && sorted[i] == totals[k];
      assert r[i].name == t;
    }
    forall t | t in (set i | 0 <= i < |r| :: r[i].name) ensures t in Names(totals) {
      var i :| 0 <= i < |r| && r[i].name == t;
      assert sorted[i] in sorted;
      var k :| 0 <= k < |totals| && totals[k] == sorted[i];
      assert totals[k].name == t;
    }
    forall i, j | 0 <= i < j < |r| ensures r[i].name != r[j].name {
      assert Ranked(sorted[i], sorted[j]);
      assert sorted[i] in sorted && sorted[j] in sorted;
      var ki :| 0 <= ki < |totals| && totals[ki] == sorted[i];
      var kj :| 0 <= kj < |totals| && totals[kj] == sorted[j];
      StrLessIrreflexive(sorted[i].name);
      assert r[i].name == sorted[i].name && r[j].name == sorted[j].name;
    }
  }

  /** Each entry's count is the number of times its tag is listed over all posts, at least one. */
  lemma TagIndexCounts(posts: seq<Post>, selectedTags: seq<string>)
    ensures var r := TagIndex(posts, selectedTags);
      forall i :: 0 <= i < |r| ==> r[i].count == Occurrences(posts, r[i].name) >= 1
  {
    var totals, r := TagTotals(posts), TagIndex(posts, selectedTags);
    var sorted := SortTags(totals);
    TagTotalsCorrect(posts);
    SortedTotals(posts);
    forall i | 0 <= i < |r| ensures r[i].count == Occurrences(posts, r[i].name) >= 1 {
      assert sorted[i] in sorted;
      var k :| 0 <= k < |totals| && totals[k] == sorted[i];
      LookupAt(totals, k);
    }
  }

  /** Higher counts come first; equal counts are ordered by name ascending. */
  lemma TagIndexOrder(posts: seq<Post>, selectedTags: seq<string>)
    ensures var r := TagIndex(posts, selectedTags);
      forall i, j :: 0 <= i < j < |r| ==>
        r[i].count > r[j].count || (r[i].count == r[j].count && StrLess(r[i].name, r[j].name))
  {
    SortedTotals(posts);
  }

  /** An entry is flagged selected exactly when its name is in the selection. */
  lemma TagIndexSelected(posts: seq<Post>, selectedTags: seq<string>)
    ensures var r := TagIndex(posts, selectedTags);
      forall i :: 0 <= i < |r| ==> (r[i].selected <==> r[i].name in selectedTags)
  {
  }

  /** The counts of the index add up to the number of (post, tag) listings. */
  function SumCounts(tags: seq<Tag>): nat {
    if tags == [] then 0 else tags[0].count + SumCounts(tags[1..])
  }

  function SumTally(tally: seq<TagCount>): nat {
    if tally == [] then 0 else tally[0].count + SumTally(tally[1..])
  }

  lemma {:induction false} LookupLeSum(tally: seq<TagCount>, name: string)
    ensures Lookup(tally, name) <= SumTally(tally)
  {
    if tally != [] && tally[0].name != name {
      LookupLeSum(tally[1..], name);
    }
  }

  lemma {:induction false} SumTallyPut(tally: seq<TagCount>, name: string, count: nat)
    ensures SumTally(Put(tally, name, count)) == SumTally(tally) - Lookup(tally, name) + count
  {
    if tally != [] && tally[0].name != name {
      SumTallyPut(tally[1..], name, count);
      assert Put(tally, name, count)[1..] == Put(tally[1..], name, count);
      LookupLeSum(tally[1..], name);
    }
  }

  lemma {:induction false} SumTallyCountTags(tally: seq<TagCount>, tags: seq<string>)
    ensures SumTally(CountTags(tally, tags)) == SumTally(tally) + |tags|
    decreases |tags|
  {
    if tags != [] {
      LookupLeSum(tally, tags[0]);
      SumTallyPut(tally, tags[0], Lookup(tally, tags[0]) + 1);
      SumTallyCountTags(Put(tally, tags[0], Lookup(tally, tags[0]) + 1), tags[1..]);
    }
  }

  lemma {:induction false} SumTallyCountPosts(tally: seq<TagCount>, posts: seq<Post>)
    ensures SumTally(CountPosts(tally, posts)) == SumTally(tally) + |AllTags(posts)|
    decreases |posts|
  {
    if posts != [] {
      SumTallyCountTags(tally, posts[0].tags);
      SumTallyCountPosts(CountTags(tally, posts[0].tags), posts[1..]);
    }
  }

  lemma {:induction false} SumTallyInsert(x: TagCount, s: seq<TagCount>)
    ensures SumTally(Insert(x, s)) == x.count + SumTally(s)
  {
    if s != [] && Compare(x, s[0]) >= 0 {
      SumTallyInsert(x, s[1..]);
      assert Insert(x, s)[1..] == Insert(x, s[1..]);
    }
  }

  lemma {:induction false} SumTallySort(s: seq<TagCount>)
    ensures SumTally(SortTags(s)) == SumTally(s)
  {
    if s != [] {
      SumTallySort(s[1..]);
      SumTallyInsert(s[0], SortTags(s[1..]));
    }
  }

  lemma {:induction false} SumCountsOfFlagged(sorted: seq<TagCount>, selectedTags: seq<string>)
    ensures SumCounts(Flag(sorted, selectedTags)) == SumTally(sorted)
  {
    if sorted != [] {
      assert Flag(sorted, selectedTags)[1..] == Flag(sorted[1..], selectedTags);
      SumCountsOfFlagged(sorted[1..], selectedTags);
    }
  }

  /** Every listing of a tag in a post is counted once: the counts sum to the number of listings. */
  lemma TagIndexTotal(posts: seq<Post>, selectedTags: seq<string>)
    ensures SumCounts(TagIndex(posts, selectedTags)) == |AllTags(posts)|
  {
    SumTallyCountPosts([], posts);
    SumTallySort(TagTotals(posts));
    SumCountsOfFlagged(SortTags(TagTotals(posts)), selectedTags);
  }

  /**
   * The index depends only on which tags are listed how often, not on the order
   * of the posts or of the tags within them.
   */
  lemma TagIndexOrderIndependent(p1: seq<Post>, p2: seq<Post>, selectedTags: seq<string>)
    requires multiset(AllTags(p1)) == multiset(AllTags(p2))
    ensures TagIndex(p1, selectedTags) == TagIndex(p2, selectedTags)
  {
    var t1, t2 := TagTotals(p1), TagTotals(p2);
    TagTotalsCorrect(p1);
    TagTotalsCorrect(p2);
    SortedTotals(p1);
    SortedTotals(p2);
    assert Names(t1) == Names(t2) by {
      forall t ensures t in AllTags(p1) <==> t in AllTags(p2) {
        assert t in AllTags(p1) <==> t in multiset(AllTags(p1));
        assert t in AllTags(p2) <==> t in multiset(AllTags(p2));
      }
    }
    forall x ensures x in t1 <==> x in t2 {
      TallyMember(t1, x);
      TallyMember(t2, x);
    }
    RankedUnique(SortTags(t1), SortTags(t2));
  }

  /** In a tally with distinct names, an entry is present iff its name is and its count is the looked-up one. */
  lemma TallyMember(tally: seq<TagCount>, x: TagCount)
    requires DistinctNames(tally)
    ensures x in tally <==> x.name in Names(tally) && x.count == Lookup(tally, x.name)
  {
    if x.name in Names(tally) && x.count == Lookup(tally, x.name) {
      var i :| 0 <= i < |tally| && tally[i].name == x.name;
      LookupAt(tally, i);
      assert tally[i] == x;
    }
  }

  // ---------------------------------------------------------------------------
  // The filter
  // ---------------------------------------------------------------------------

  /** The lower-cased title or description contains the query. */
  predicate TextMatch(post: Post, searchQuery: string) {
    Includes(Lower(post.title), searchQuery) || Includes(Lower(post.description), searchQuery)
  }

  /** No tag is selected, or some tag of the post is selected. */
  predicate TagMatch(post: Post, selectedTags: seq<string>) {
    |selectedTags| == 0 || exists i :: 0 <= i < |post.tags| && post.tags[i] in selectedTags
  }

  predicate Keep(post: Post, searchQuery: string, selectedTags: seq<string>) {
    TextMatch(post, searchQuery) && TagMatch(post, selectedTags)
  }

  /** `allPosts.filter(...)`: the kept posts, every one of them, in their original order. */
  function FilterPosts(posts: seq<Post>, searchQuery: string, selectedTags: seq<string>): (r: seq<Post>)
    ensures IsSubsequence(r, posts)
    ensures forall p :: multiset(r)[p] == if Keep(p, searchQuery, selectedTags) then multiset(posts)[p] else 0
  {
    if posts == [] then []
    else
      var rest := FilterPosts(posts[1..], searchQuery, selectedTags);
      assert posts == [posts[0]] + posts[1..];
      if Keep(posts[0], searchQuery, selectedTags) then
        var r := [posts[0]] + rest;
        assert r[1..] == rest;
        r
      else
        assert rest == [] || rest[0] != posts[0] by {
          if rest != [] {
            assert rest[0] in multiset(rest);
          }
        }
        rest
  }

  /** With an empty query and no selected tag the filter returns the posts unchanged. */
  lemma {:induction false} FilterIdentity(posts: seq<Post>)
    ensures FilterPosts(posts, "", []) == posts
  {
    if posts != [] {
      IncludesEmpty(Lower(posts[0].title));
      FilterIdentity(posts[1..]);
    }
  }

  /**
   * With at least one tag selected, selecting one more never removes a post:
   * the tag test is an OR over the selection, not an AND.
   */
  lemma {:induction false} SelectingWidens(posts: seq<Post>, searchQuery: string, selectedTags: seq<string>, tag: string)
    requires |selectedTags| > 0
    ensures IsSubsequence(FilterPosts(posts, searchQuery, selectedTags),
                          FilterPosts(posts, searchQuery, selectedTags + [tag]))
  {
    if posts != [] {
      SelectingWidens(posts[1..], searchQuery, selectedTags, tag);
      var p := posts[0];
      var wider := selectedTags + [tag];
      if Keep(p, searchQuery, selectedTags) {
        var i :| 0 <= i < |p.tags| && p.tags[i] in selectedTags;
        assert p.tags[i] in wider;
      } else if Keep(p, searchQuery, wider) {
        SubsequenceOfTail(FilterPosts(posts[1..], searchQuery, selectedTags),
                          FilterPosts(posts, searchQuery, wider));
      }
    }
  }

  /** A post passes the tag test iff it passes it for some single selected tag. */
  lemma TagMatchIsUnion(post: Post, selectedTags: seq<string>)
    requires |selectedTags| > 0
    ensures TagMatch(post, selectedTags) <==> exists k :: 0 <= k < |selectedTags| && TagMatch(post, [selectedTags[k]])
  {
    if TagMatch(post, selectedTags) {
      var i :| 0 <= i < |post.tags| && post.tags[i] in selectedTags;
      var k :| 0 <= k < |selectedTags| && selectedTags[k] == post.tags[i];
      assert post.tags[i] in [selectedTags[k]];
    }
    if exists k :: 0 <= k < |selectedTags| && TagMatch(post, [selectedTags[k]]) {
      var k :| 0 <= k < |selectedTags| && TagMatch(post, [selectedTags[k]]);
      var i :| 0 <= i < |post.tags| && post.tags[i] in [selectedTags[k]];
      assert post.tags[i] in selectedTags;
    }
  }

  // ---------------------------------------------------------------------------
  // The persisted state and its two handlers
  // ---------------------------------------------------------------------------

  /** `prevTags.filter(tag => value !== tag)`. */
  function RemoveAll(tags: seq<string>, value: string): (r: seq<string>)
    ensures value !in r
    ensures forall t :: t != value ==> multiset(r)[t] == multiset(tags)[t]
    ensures IsSubsequence(r, tags)
  {
    if tags == [] then []
    else
      var rest := RemoveAll(tags[1..], value);
      assert tags == [tags[0]] + tags[1..];
      if value != tags[0] then
        var r := [tags[0]] + rest;
        assert r[1..] == rest;
        r
      else
        rest
  }

  /** The tag selector's handler: drop every occurrence of a selected tag, append an unselected one. */
  function Toggle(tags: seq<string>, value: string): (r: seq<string>)
    ensures value in r <==> value !in tags
    ensures forall t :: t != value ==> multiset(r)[t] == multiset(tags)[t]
    ensures value !in tags ==> |r| == |tags| + 1 && r[..|tags|] == tags
  {
    if value in tags then RemoveAll(tags, value) else tags + [value]
  }

  lemma {:induction false} RemoveAllAbsent(tags: seq<string>, value: string)
    requires value !in tags
    ensures RemoveAll(tags, value) == tags
  {
    if tags != [] {
      RemoveAllAbsent(tags[1..], value);
      assert tags == [tags[0]] + tags[1..];
    }
  }

  lemma {:induction false} RemoveAllAppended(tags: seq<string>, value: string)
    requires value !in tags
    ensures RemoveAll(tags + [value], value) == tags
  {
    if tags == [] {
      assert [] + [value] == [value];
    } else {
      assert (tags + [value])[1..] == tags[1..] + [value];
      RemoveAllAppended(tags[1..], value);
      assert tags == [tags[0]] + tags[1..];
    }
  }

  /** Toggling an unselected tag twice restores the selection. */
  lemma ToggleTwice(tags: seq<string>, value: string)
    requires value !in tags
    ensures Toggle(Toggle(tags, value), value) == tags
  {
    RemoveAllAppended(tags, value);
  }

  /** Toggling a selected tag twice moves it to the end, having dropped all its copies. */
  lemma ToggleTwiceSelected(tags: seq<string>, value: string)
    requires value in tags
    ensures Toggle(Toggle(tags, value), value) == RemoveAll(tags, value) + [value]
  {
  }

  predicate NoDuplicates(tags: seq<string>) {
    forall i, j :: 0 <= i < j < |tags| ==> tags[i] != tags[j]
  }

  /** The hook-held pair: the stored search query and the selected tags. */
  datatype ListState = ListState(searchQuery: string, selectedTags: seq<string>)

  /** The defaults used when the session holds nothing yet. */
  function InitialState(): ListState {
    ListState("", [])
  }

  /** The pair as the handlers keep it: a lower-case query and a selection without repeats. */
  predicate ValidState(st: ListState) {
    IsLower(st.searchQuery) && NoDuplicates(st.selectedTags)
  }

  /** The search box handler stores the lower-cased input. */
  function HandleSearchChange(st: ListState, value: string): (r: ListState)
    ensures r.searchQuery == Lower(value) && IsLower(r.searchQuery)
    ensures r.selectedTags == st.selectedTags
  {
    LowerIsLower(value);
    st.(searchQuery := Lower(value))
  }

  /** The tag handler toggles the clicked tag in the selection. */
  function HandleTagSelect(st: ListState, value: string): (r: ListState)
    ensures r.searchQuery == st.searchQuery
    ensures r.selectedTags == Toggle(st.selectedTags, value)
  {
    st.(selectedTags := Toggle(st.selectedTags, value))
  }

  /** Both handlers keep the state valid, starting from the defaults. */
  lemma HandlersPreserveValid(st: ListState, value: string)
    requires ValidState(st)
    ensures ValidState(InitialState())
    ensures ValidState(HandleSearchChange(st, value))
    ensures ValidState(HandleTagSelect(st, value))
  {
    ToggleKeepsNoDuplicates(st.selectedTags, value);
  }

  lemma ToggleKeepsNoDuplicates(tags: seq<string>, value: string)
    requires NoDuplicates(tags)
    ensures NoDuplicates(Toggle(tags, value))
  {
    var r := Toggle(tags, value);
    forall i, j | 0 <= i < j < |r| ensures r[i] != r[j] {
      if r[i] == r[j] {
        RepeatCountsTwice(r, i, j);
        ToggleCountAtMostOne(tags, value, r[i]);
        assert false;
      }
    }
  }

  lemma ToggleCountAtMostOne(tags: seq<string>, value: string, t: string)
    requires NoDuplicates(tags)
    ensures multiset(Toggle(tags, value))[t] <= 1
  {
    NoDuplicatesCount(tags, t);
    if t == value && value !in tags {
      assert Toggle(tags, value) == tags + [value];
    }
  }

  lemma RepeatCountsTwice(r: seq<string>, i: int, j: int)
    requires 0 <= i < j < |r| && r[i] == r[j]
    ensures multiset(r)[r[i]] >= 2
  {
    assert r == r[..i] + [r[i]] + r[i + 1..j] + [r[j]] + r[j + 1..];
  }

  lemma {:induction false} NoDuplicatesCount(tags: seq<string>, t: string)
    requires NoDuplicates(tags)
    ensures multiset(tags)[t] <= 1
  {
    if tags != [] {
      assert NoDuplicates(tags[1..]) by {
        forall i, j | 0 <= i < j < |tags[1..]| ensures tags[1..][i] != tags[1..][j] {
          assert tags[1..][i] == tags[i + 1] && tags[1..][j] == tags[j + 1];
        }
      }
      NoDuplicatesCount(tags[1..], t);
      assert tags == [tags[0]] + tags[1..];
      if tags[0] == t {
        assert t !in tags[1..];
      }
    }
  }
}
