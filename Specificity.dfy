/**
 * The CSS specificity widget: the four counters shown for a selector and the
 * breakdown of the selector's parts, grouped by kind. The kinds are the
 * components of a selector's specificity in section 17 of Selectors Level 4:
 * ID selectors (library type "a"), class-like selectors ("b") and type
 * selectors ("c"). The specificity calculator itself is a library; its result
 * is an input here.
 */
module Specificity {
  import opened Wrappers

  /** The `type` field of a part in the calculator's output. */
  datatype PartType = A | B | C

  /** One part of the selector, as the calculator reports it. */
  datatype Part = Part(selector: string, partType: PartType)

  /** `specificityArray`: the [important, id, class, element] counts. */
  type SpecificityArray = s: seq<int> | |s| == 4 witness [0, 0, 0, 0]

  /** The first entry of the calculator's result for the input text. */
  datatype Calculated = Calculated(specificityArray: SpecificityArray, parts: seq<Part>)

  /** A part as the widget keeps it: the selector text and its numeric type. */
  datatype Detail = Detail(selector: string, kind: int)

  /** "a" is type 1 (ids), "b" type 2 (classes), "c" type 3 (elements). */
  function TypeNumber(t: PartType): (r: int)
    ensures 1 <= r <= 3
    ensures t == A <==> r == 1
    ensures t == B <==> r == 2
    ensures t == C <==> r == 3
  {
    match t
    case A => 1
    case B => 2
    case C => 3
  }

  /** `parts.map(...)`: one detail per part, in the same order. */
  function ToDetails(parts: seq<Part>): (r: seq<Detail>)
    ensures |r| == |parts|
    ensures forall i :: 0 <= i < |parts| ==>
      r[i].selector == parts[i].selector && r[i].kind == TypeNumber(parts[i].partType)
  {
    seq(|parts|, i requires 0 <= i < |parts| => Detail(parts[i].selector, TypeNumber(parts[i].partType)))
  }

  /** The component's props and state hooks. */
  class SpecificityDisplay {
    const showInput: bool
    var inputText: string
    var selectorDetails: Option<seq<Detail>>
    var importantCount: int
    var idCount: int
    var classCount: int
    var elementCount: int

    constructor (showInputProp: bool, initialInputText: string, initialImportantCount: int,
                 initialIdCount: int, initialClassCount: int, initialElementCount: int)
      ensures showInput == showInputProp && inputText == initialInputText && selectorDetails == None
      ensures importantCount == initialImportantCount && idCount == initialIdCount
      ensures classCount == initialClassCount && elementCount == initialElementCount
    {
      showInput := showInputProp;
      inputText := initialInputText;
      selectorDetails := None;
      importantCount := initialImportantCount;
      idCount := initialIdCount;
      classCount := initialClassCount;
      elementCount := initialElementCount;
    }

    /** `handleChange`: the input's text becomes the state. */
    method HandleChange(value: string)
      modifies this
      ensures inputText == value
      ensures selectorDetails == old(selectorDetails) && importantCount == old(importantCount)
      ensures idCount == old(idCount) && classCount == old(classCount) && elementCount == old(elementCount)
    {
      inputText := value;
    }

    /**
     * The effect run after `inputText` changes; `calculated` is the first entry
     * of the calculator's result for the current text, if there is one.
     */
    method RunEffect(calculated: Option<Calculated>)
      modifies this
      ensures inputText == old(inputText)
      ensures !showInput ==>
        && selectorDetails == old(selectorDetails) && importantCount == old(importantCount)
        && idCount == old(idCount) && classCount == old(classCount) && elementCount == old(elementCount)
      ensures showInput && calculated.None? ==>
        && importantCount == 0 && idCount == 0 && classCount == 0 && elementCount == 0
        && selectorDetails == None
      ensures showInput && calculated.Some? ==>
        && importantCount == calculated.value.specificityArray[0]
        && idCount == calculated.value.specificityArray[1]
        && classCount == calculated.value.specificityArray[2]
        && elementCount == calculated.value.specificityArray[3]
        && selectorDetails == Some(ToDetails(calculated.value.parts))
    {
      if !showInput {
        return;
      }
      var specificityArray: SpecificityArray := [0, 0, 0, 0];
      var specificityDetails: Option<seq<Detail>> := None;
      if calculated.Some? {
        specificityArray := calculated.value.specificityArray;
        specificityDetails := Some(ToDetails(calculated.value.parts));
      }
      importantCount := specificityArray[0];
      idCount := specificityArray[1];
      classCount := specificityArray[2];
      elementCount := specificityArray[3];
      selectorDetails := specificityDetails;
    }
  }

  // ---------------------------------------------------------------------------
  // `selectorDetailsDisplay`: the parts grouped by type
  // ---------------------------------------------------------------------------

  /** One `[type, parts]` entry: the selectors of one type. */
  datatype Group = Group(kind: int, selectors: seq<string>)

  function Kinds(groups: seq<Group>): set<int> {
    set g | g in groups :: g.kind
  }

  predicate DistinctKinds(groups: seq<Group>) {
    forall i, j :: 0 <= i < j < |groups| ==> groups[i].kind != groups[j].kind
  }

  /** Strictly ascending type order. */
  predicate Ascending(groups: seq<Group>) {
    forall i, j :: 0 <= i < j < |groups| ==> groups[i].kind < groups[j].kind
  }

  /** The selectors of the details of type `k`, in input order. */
  function SelectorsOf(details: seq<Detail>, k: int): seq<string> {
    if details == [] then []
    else
      var last := details[|details| - 1];
      SelectorsOf(details[..|details| - 1], k) + (if last.kind == k then [last.selector] else [])
  }

  function KindsOf(details: seq<Detail>): set<int> {
    set d | d in details :: d.kind
  }

  /** `{...result, [detail.type]: [...(result[detail.type] || []), detail.selector]}`. */
  function AddToGroups(groups: seq<Group>, detail: Detail): seq<Group> {
    if groups == [] then [Group(detail.kind, [detail.selector])]
    else if groups[0].kind == detail.kind then [Group(detail.kind, groups[0].selectors + [detail.selector])] + groups[1..]
    else [groups[0]] + AddToGroups(groups[1..], detail)
  }

  /** `selectorDetails.reduce(..., {})`, a left fold. */
  function GroupAll(details: seq<Detail>): seq<Group> {
    if details == [] then []
    else AddToGroups(GroupAll(details[..|details| - 1]), details[|details| - 1])
  }

  function InsertByKind(x: Group, s: seq<Group>): seq<Group> {
    if s == [] then [x]
    else if x.kind <= s[0].kind then [x] + s
    else [s[0]] + InsertByKind(x, s[1..])
  }

  /**
   * A stable sort by ascending type. `Object.entries` lists integer keys in
   * ascending order, and the explicit `.sort((a, b) => a - b)` sorts the same way.
   */
  function SortByKind(s: seq<Group>): seq<Group> {
    if s == [] then [] else InsertByKind(s[0], SortByKind(s[1..]))
  }

  /** `selectorDetailsDisplay`, up to rendering: nothing for absent details. */
  function DetailsDisplay(selectorDetails: Option<seq<Detail>>): (r: Option<seq<Group>>)
    ensures selectorDetails.None? <==> r.None?
  {
    match selectorDetails
    case None => None
    case Some(details) => Some(SortByKind(SortByKind(GroupAll(details))))
  }

  function SumSizes(groups: seq<Group>): nat {
    if groups == [] then 0 else |groups[0].selectors| + SumSizes(groups[1..])
  }

  // ------------------------------------------------------------ the fold

  lemma {:induction false} SelectorsOfEmpty(details: seq<Detail>, k: int)
    ensures SelectorsOf(details, k) == [] <==> k !in KindsOf(details)
  {
    if details != [] {
      var p := details[..|details| - 1];
      SelectorsOfEmpty(p, k);
      assert details == p + [details[|details| - 1]];
      assert KindsOf(details) == KindsOf(p) + {details[|details| - 1].kind};
    }
  }

  predicate KindAbsent(k: int, groups: seq<Group>) {
    forall i :: 0 <= i < |groups| ==> groups[i].kind != k
  }

  lemma KindAbsentIsNotIn(k: int, groups: seq<Group>)
    ensures KindAbsent(k, groups) <==> k !in Kinds(groups)
  {
    if !KindAbsent(k, groups) {
      var i :| 0 <= i < |groups| && groups[i].kind == k;
      assert groups[i] in groups;
    }
  }

  lemma DistinctCons(groups: seq<Group>)
    requires groups != []
    ensures DistinctKinds(groups) <==> DistinctKinds(groups[1..]) && KindAbsent(groups[0].kind, groups[1..])
  {
    var tail := groups[1..];
    if DistinctKinds(tail) && KindAbsent(groups[0].kind, tail) {
      forall i, j | 0 <= i < j < |groups| ensures groups[i].kind != groups[j].kind {
        assert groups[j] == tail[j - 1];
        if i > 0 { assert groups[i] == tail[i - 1]; }
      }
    }
  }

  lemma KindsCons(groups: seq<Group>)
    requires groups != []
    ensures Kinds(groups) == {groups[0].kind} + Kinds(groups[1..])
  {
    assert groups == [groups[0]] + groups[1..];
  }

  /** Adding a detail records its type and keeps the types distinct. */
  lemma {:induction false} AddToGroupsKinds(groups: seq<Group>, detail: Detail)
    requires DistinctKinds(groups)
    ensures Kinds(AddToGroups(groups, detail)) == Kinds(groups) + {detail.kind}
    ensures DistinctKinds(AddToGroups(groups, detail))
  {
    var r := AddToGroups(groups, detail);
    if groups == [] {
      assert r == [Group(detail.kind, [detail.selector])];
      assert Kinds(r) == {detail.kind};
    } else {
      var tail := groups[1..];
      DistinctCons(groups);
      KindsCons(groups);
      KindsCons(r);
      if groups[0].kind == detail.kind {
        assert r[1..] == tail;
      } else {
        AddToGroupsKinds(tail, detail);
        assert r[1..] == AddToGroups(tail, detail);
        KindAbsentIsNotIn(groups[0].kind, tail);
        KindAbsentIsNotIn(groups[0].kind, r[1..]);
      }
      DistinctCons(r);
    }
  }

  /** A detail of a new type opens a new group at the end. */
  lemma {:induction false} AddToGroupsNew(groups: seq<Group>, detail: Detail)
    requires detail.kind !in Kinds(groups)
    ensures AddToGroups(groups, detail) == groups + [Group(detail.kind, [detail.selector])]
  {
    if groups != [] {
      KindsCons(groups);
      AddToGroupsNew(groups[1..], detail);
    }
  }

  /** A detail of a known type is appended to that type's group, which keeps its place. */
  lemma {:induction false} AddToGroupsExisting(groups: seq<Group>, detail: Detail)
    requires DistinctKinds(groups) && detail.kind in Kinds(groups)
    ensures |AddToGroups(groups, detail)| == |groups|
    ensures forall i :: 0 <= i < |groups| ==>
      AddToGroups(groups, detail)[i]
        == (if groups[i].kind == detail.kind then Group(detail.kind, groups[i].selectors + [detail.selector]) else groups[i])
  {
    var r := AddToGroups(groups, detail);
    var tail := groups[1..];
    KindsCons(groups);
    DistinctCons(groups);
    if groups[0].kind == detail.kind {
      assert r[1..] == tail;
      forall i | 1 <= i < |groups| ensures groups[i].kind != detail.kind {
        assert groups[i] == tail[i - 1];
      }
    } else {
      AddToGroupsExisting(tail, detail);
      assert r[1..] == AddToGroups(tail, detail);
      forall i | 1 <= i < |groups| ensures r[i] == AddToGroups(tail, detail)[i - 1] && groups[i] == tail[i - 1] {
      }
    }
  }

  /** What the fold has built after a prefix of the details. */
  ghost predicate GroupsOf(groups: seq<Group>, details: seq<Detail>) {
    && DistinctKinds(groups)
    && Kinds(groups) == KindsOf(details)
    && forall i :: 0 <= i < |groups| ==> groups[i].selectors == SelectorsOf(details, groups[i].kind)
  }

  lemma {:induction false} GroupAllCorrect(details: seq<Detail>)
    ensures GroupsOf(GroupAll(details), details)
    ensures SumSizes(GroupAll(details)) == |details|
  {
    if details != [] {
      var p := details[..|details| - 1];
      var d := details[|details| - 1];
      var g := GroupAll(p);
      var r := GroupAll(details);
      GroupAllCorrect(p);
      assert details == p + [d];
      assert KindsOf(details) == KindsOf(p) + {d.kind};
      AddToGroupsKinds(g, d);
      if d.kind in Kinds(g) {
        AddToGroupsExisting(g, d);
        SumSizesUpdate(g, d);
      } else {
        AddToGroupsNew(g, d);
        SelectorsOfEmpty(p, d.kind);
        SumSizesAppend(g, Group(d.kind, [d.selector]));
      }
    }
  }

  lemma {:induction false} SumSizesAppend(s: seq<Group>, x: Group)
    ensures SumSizes(s + [x]) == SumSizes(s) + |x.selectors|
  {
    if s != [] {
      assert (s + [x])[1..] == s[1..] + [x];
      SumSizesAppend(s[1..], x);
    }
  }

  lemma {:induction false} SumSizesUpdate(groups: seq<Group>, detail: Detail)
    requires DistinctKinds(groups) && detail.kind in Kinds(groups)
    ensures SumSizes(AddToGroups(groups, detail)) == SumSizes(groups) + 1
  {
    var tail := groups[1..];
    KindsCons(groups);
    if groups[0].kind != detail.kind {
      DistinctCons(groups);
      SumSizesUpdate(tail, detail);
      assert AddToGroups(groups, detail)[1..] == AddToGroups(tail, detail);
    }
  }

  // ------------------------------------------------------------ the sort

  predicate BelowAll(k: int, s: seq<Group>) {
    forall j :: 0 <= j < |s| ==> k < s[j].kind
  }

  lemma AscendingCons(s: seq<Group>)
    requires s != []
    ensures Ascending(s) <==> Ascending(s[1..]) && BelowAll(s[0].kind, s[1..])
  {
    var tail := s[1..];
    if Ascending(s) {
      forall j | 0 <= j < |tail| ensures s[0].kind < tail[j].kind {
        assert tail[j] == s[j + 1];
      }
    }
    if Ascending(tail) && BelowAll(s[0].kind, tail) {
      forall i, j | 0 <= i < j < |s| ensures s[i].kind < s[j].kind {
        assert s[j] == tail[j - 1];
        if i > 0 { assert s[i] == tail[i - 1]; }
      }
    }
  }

  lemma {:induction false} InsertByKindPermutes(x: Group, s: seq<Group>)
    ensures multiset(InsertByKind(x, s)) == multiset(s) + multiset{x}
    ensures SumSizes(InsertByKind(x, s)) == SumSizes(s) + |x.selectors|
  {
    if s != [] && x.kind > s[0].kind {
      InsertByKindPermutes(x, s[1..]);
      assert s == [s[0]] + s[1..];
      assert InsertByKind(x, s)[1..] == InsertByKind(x, s[1..]);
    }
  }

  lemma {:induction false} InsertByKindKeepsBelow(k: int, x: Group, s: seq<Group>)
    requires BelowAll(k, s) && k < x.kind
    ensures BelowAll(k, InsertByKind(x, s))
  {
    var r := InsertByKind(x, s);
    InsertByKindPermutes(x, s);
    forall j | 0 <= j < |r| ensures k < r[j].kind {
      assert r[j] in multiset(r);
      if r[j] != x {
        assert r[j] in multiset(s);
        var m :| 0 <= m < |s| && s[m] == r[j];
      }
    }
  }

  lemma {:induction false} InsertByKindAscending(x: Group, s: seq<Group>)
    requires Ascending(s) && KindAbsent(x.kind, s)
    ensures Ascending(InsertByKind(x, s))
  {
    if s != [] {
      var r := InsertByKind(x, s);
      AscendingCons(s);
      if x.kind <= s[0].kind {
        assert x.kind < s[0].kind;
        assert r[1..] == s;
        AscendingCons(r);
      } else {
        var tail := s[1..];
        assert KindAbsent(x.kind, tail) by {
          forall i | 0 <= i < |tail| ensures tail[i].kind != x.kind {
            assert tail[i] == s[i + 1];
          }
        }
        InsertByKindAscending(x, tail);
        InsertByKindKeepsBelow(s[0].kind, x, tail);
        assert r[1..] == InsertByKind(x, tail);
        AscendingCons(r);
      }
    }
  }

  lemma {:induction false} SortByKindPermutes(s: seq<Group>)
    ensures multiset(SortByKind(s)) == multiset(s)
    ensures SumSizes(SortByKind(s)) == SumSizes(s)
  {
    if s != [] {
      SortByKindPermutes(s[1..]);
      InsertByKindPermutes(s[0], SortByKind(s[1..]));
      assert s == [s[0]] + s[1..];
    }
  }

  /** On distinct types the sort yields the strictly ascending order. */
  lemma {:induction false} SortByKindAscending(s: seq<Group>)
    requires DistinctKinds(s)
    ensures Ascending(SortByKind(s))
  {
    if s != [] {
      var tail := s[1..];
      var st := SortByKind(tail);
      DistinctCons(s);
      SortByKindAscending(tail);
      SortByKindPermutes(tail);
      forall i | 0 <= i < |st| ensures st[i].kind != s[0].kind {
        assert st[i] in multiset(tail);
        var m :| 0 <= m < |tail| && tail[m] == st[i];
      }
      InsertByKindAscending(s[0], st);
    }
  }

  /** Sorting an already ascending list changes nothing: the explicit `.sort` is a no-op. */
  lemma {:induction false} SortByKindSorted(s: seq<Group>)
    requires Ascending(s)
    ensures SortByKind(s) == s
  {
    if s != [] {
      AscendingCons(s);
      SortByKindSorted(s[1..]);
      assert s == [s[0]] + s[1..];
    }
  }

  // ------------------------------------------------------------ the display

  /**
   * The breakdown has one group per type that occurs, in ascending type order;
   * each group lists exactly the selectors of its type, in input order, and is
   * not empty; the group sizes add up to the number of details.
   */
  lemma DetailsDisplayCorrect(details: seq<Detail>)
    ensures DetailsDisplay(Some(details)).Some?
    ensures var r := DetailsDisplay(Some(details)).value;
      && Ascending(r)
      && Kinds(r) == KindsOf(details)
      && (forall i :: 0 <= i < |r| ==> r[i].selectors == SelectorsOf(details, r[i].kind) && r[i].selectors != [])
      && SumSizes(r) == |details|
  {
    var g := GroupAll(details);
    var s := SortByKind(g);
    GroupAllCorrect(details);
    SortByKindPermutes(g);
    SortByKindAscending(g);
    SortByKindSorted(s);
    assert forall x :: x in s <==> x in g by {
      forall x ensures x in s <==> x in g {
        assert x in s <==> x in multiset(s);
      }
    }
    assert Kinds(s) == Kinds(g);
    forall i | 0 <= i < |s| ensures s[i].selectors == SelectorsOf(details, s[i].kind) && s[i].selectors != [] {
      assert s[i] in g;
      var m :| 0 <= m < |g| && g[m] == s[i];
      assert s[i].kind in Kinds(s);
      SelectorsOfEmpty(details, s[i].kind);
    }
  }

  /** In a strictly ascending list of positive types, the type at position `i` is at least `i + 1`. */
  lemma {:induction false} KindAtLeastPosition(r: seq<Group>)
    requires Ascending(r)
    requires forall i :: 0 <= i < |r| ==> r[i].kind >= 1
    ensures forall i :: 0 <= i < |r| ==> r[i].kind >= i + 1
    ensures r != [] ==> r[|r| - 1].kind >= |r|
  {
    if r != [] {
      var p := r[..|r| - 1];
      KindAtLeastPosition(p);
      assert forall i :: 0 <= i < |p| ==> r[i] == p[i];
      if |r| >= 2 {
        assert r[|r| - 2].kind < r[|r| - 1].kind;
      }
    }
  }

  /** The breakdown shown for a calculator result: details of types 1, 2 and 3 only, grouped as above. */
  lemma BreakdownOfParts(parts: seq<Part>)
    ensures var r := DetailsDisplay(Some(ToDetails(parts))).value;
      && |r| <= 3
      && forall i :: 0 <= i < |r| ==> 1 <= r[i].kind <= 3
  {
    var details := ToDetails(parts);
    DetailsDisplayCorrect(details);
    var r := DetailsDisplay(Some(details)).value;
    assert KindsOf(details) <= {1, 2, 3};
    forall i | 0 <= i < |r| ensures 1 <= r[i].kind <= 3 {
      assert r[i].kind in Kinds(r);
    }
    KindAtLeastPosition(r);
  }
}
