/**
 * The CSS quantity-query demo: a list of boxes that turn orange when the chosen
 * query is satisfied, next to the CSS that would express the query. The colour
 * is computed by integer comparison; the CSS is the `:nth-last-child` /
 * `:first-child` selector of the `Selectors` module, and the lemmas here show
 * that the two agree whenever a box is shown.
 */
module QuantityQuery {
  import opened Text
  import opened Selectors

  /** The three entries of the query-type menu: "≥", "≤" and "Between". */
  datatype QueryType = AtLeast | AtMost | Between

  /** `var(--theme-orange)` (query satisfied) and `var(--theme-blue)`. */
  datatype Color = Orange | Blue

  /** `getBoxColor`: the colour every box is painted with. */
  function BoxColor(amount: int, amount2: int, queryType: QueryType, boxCount: int): Color {
    match queryType
    case AtLeast => if boxCount >= amount then Orange else Blue
    case AtMost => if boxCount <= amount then Orange else Blue
    case Between => if boxCount >= amount && boxCount <= amount2 then Orange else Blue
  }

  /** "Between" is satisfied exactly when "≥ amount" and "≤ amount2" both are. */
  lemma BetweenIsBoth(amount: int, amount2: int, boxCount: int, other: int)
    ensures BoxColor(amount, amount2, Between, boxCount) == Orange
      <==> BoxColor(amount, other, AtLeast, boxCount) == Orange
           && BoxColor(amount2, other, AtMost, boxCount) == Orange
  {
  }

  /** An empty range is never satisfied. */
  lemma EmptyRangeNeverOrange(amount: int, amount2: int, boxCount: int)
    requires amount > amount2
    ensures BoxColor(amount, amount2, Between, boxCount) == Blue
  {
  }

  // ---------------------------------------------------------------------------
  // The emitted CSS
  // ---------------------------------------------------------------------------

  /** The stylesheet around an item selector `x`: the element rule and the container rule. */
  function StyleSheet(x: string): string {
    "/* Elements */\nul li" + x + ",\nul li" + x + " ~ li {}\n\n/* Container */\nul:has(li" + x + ") {}"
  }

  /**
   * `getCode`: the CSS text shown under the form. Each template literal of the
   * source repeats one item selector in three places, which `StyleSheet` factors out.
   */
  function Code(queryType: QueryType, amount: int, amount2: int): string {
    var a := IntToString(amount);
    var b := IntToString(amount2);
    match queryType
    case AtLeast => StyleSheet(":nth-last-child(n + " + a + ")")
    case AtMost => StyleSheet(":nth-last-child(-n + " + a + ")" + ":first-child")
    case Between => StyleSheet(":nth-last-child(n + " + a + ")" + ":nth-last-child(-n + " + b + ")" + ":first-child")
  }

  /** The compound selector that follows `li` in each rule of `getCode`. */
  function ItemSelector(queryType: QueryType, amount: int, amount2: int): Compound {
    match queryType
    case AtLeast => [NthLastChild(1, amount)]
    case AtMost => [NthLastChild(-1, amount), FirstChild]
    case Between => [NthLastChild(1, amount), NthLastChild(-1, amount2), FirstChild]
  }

  /** CSS syntax of one pseudo-class, with the coefficients `n` / `-n` that `getCode` uses. */
  function RenderPseudo(p: PseudoClass): string {
    match p
    case NthLastChild(a, b) =>
      if a == 1 then ":nth-last-child(n + " + IntToString(b) + ")"
      else if a == -1 then ":nth-last-child(-n + " + IntToString(b) + ")"
      else ":nth-last-child(" + IntToString(a) + "n + " + IntToString(b) + ")"
    case FirstChild => ":first-child"
  }

  function RenderCompound(c: Compound): string {
    if c == [] then "" else RenderPseudo(c[0]) + RenderCompound(c[1..])
  }

  lemma RenderOne(p: PseudoClass)
    ensures RenderCompound([p]) == RenderPseudo(p)
  {
    assert [p][1..] == [];
    assert RenderPseudo(p) + "" == RenderPseudo(p);
  }

  lemma RenderCons(p: PseudoClass, c: Compound)
    ensures RenderCompound([p] + c) == RenderPseudo(p) + RenderCompound(c)
  {
    assert ([p] + c)[1..] == c;
  }

  /** The text `getCode` emits is the stylesheet of `ItemSelector`, so the semantics below apply to it. */
  lemma CodeIsStyleSheet(queryType: QueryType, amount: int, amount2: int)
    ensures Code(queryType, amount, amount2) == StyleSheet(RenderCompound(ItemSelector(queryType, amount, amount2)))
  {
    match queryType
    case AtLeast =>
      RenderOne(NthLastChild(1, amount));
    case AtMost =>
      RenderAtMost(amount);
    case Between =>
      RenderBetween(amount, amount2);
  }

  lemma RenderAtMost(amount: int)
    ensures RenderCompound(ItemSelector(AtMost, amount, 0)) == ":nth-last-child(-n + " + IntToString(amount) + ")" + ":first-child"
  {
    var minus := NthLastChild(-1, amount);
    RenderOne(FirstChild);
    RenderCons(minus, [FirstChild]);
    assert [minus] + [FirstChild] == ItemSelector(AtMost, amount, 0);
  }

  lemma RenderBetween(amount: int, amount2: int)
    ensures RenderCompound(ItemSelector(Between, amount, amount2))
      == ":nth-last-child(n + " + IntToString(amount) + ")" + ":nth-last-child(-n + " + IntToString(amount2) + ")" + ":first-child"
  {
    var plus, minus2 := NthLastChild(1, amount), NthLastChild(-1, amount2);
    RenderThree(plus, minus2, FirstChild);
    assert RenderPseudo(plus) == ":nth-last-child(n + " + IntToString(amount) + ")";
    assert RenderPseudo(minus2) == ":nth-last-child(-n + " + IntToString(amount2) + ")";
  }

  lemma RenderThree(p: PseudoClass, q: PseudoClass, r: PseudoClass)
    ensures RenderCompound([p, q, r]) == RenderPseudo(p) + RenderPseudo(q) + RenderPseudo(r)
  {
    RenderOne(r);
    RenderCons(q, [r]);
    RenderCons(p, [q, r]);
    assert [q] + [r] == [q, r];
    assert [p] + [q, r] == [p, q, r];
  }

  /** A stylesheet shows whatever its item selector shows. */
  lemma StyleSheetIncludes(x: string, y: string)
    requires Includes(x, y)
    ensures Includes(StyleSheet(x), y)
  {
    var h := "/* Elements */\nul li";
    IncludesRight(h, y, x);
    IncludesLeft(h + x, y, ",\nul li");
    IncludesLeft(h + x + ",\nul li", y, x);
    IncludesLeft(h + x + ",\nul li" + x, y, " ~ li {}\n\n/* Container */\nul:has(li");
    IncludesLeft(h + x + ",\nul li" + x + " ~ li {}\n\n/* Container */\nul:has(li", y, x);
    IncludesLeft(h + x + ",\nul li" + x + " ~ li {}\n\n/* Container */\nul:has(li" + x, y, ") {}");
  }

  /** `:nth-last-child(±n + B)` shows B. */
  lemma PseudoShowsOffset(p: string, b: string)
    ensures Includes(p + b + ")", b)
  {
    IncludesSelf(b);
    IncludesRight(p, b, b);
    IncludesLeft(p + b, b, ")");
  }

  /** Every variant shows `amount`. */
  lemma CodeShowsAmount(queryType: QueryType, amount: int, amount2: int)
    ensures Includes(Code(queryType, amount, amount2), IntToString(amount))
  {
    var a := IntToString(amount);
    var b := IntToString(amount2);
    match queryType
    case AtLeast =>
      PseudoShowsOffset(":nth-last-child(n + ", a);
      StyleSheetIncludes(":nth-last-child(n + " + a + ")", a);
    case AtMost =>
      PseudoShowsOffset(":nth-last-child(-n + ", a);
      IncludesLeft(":nth-last-child(-n + " + a + ")", a, ":first-child");
      StyleSheetIncludes(":nth-last-child(-n + " + a + ")" + ":first-child", a);
    case Between =>
      var x := ":nth-last-child(n + " + a + ")";
      PseudoShowsOffset(":nth-last-child(n + ", a);
      IncludesLeft(x, a, ":nth-last-child(-n + ");
      IncludesLeft(x + ":nth-last-child(-n + ", a, b);
      IncludesLeft(x + ":nth-last-child(-n + " + b, a, ")");
      IncludesLeft(x + ":nth-last-child(-n + " + b + ")", a, ":first-child");
      StyleSheetIncludes(x + ":nth-last-child(-n + " + b + ")" + ":first-child", a);
  }

  /** `amount2` is shown by "Between" and has no influence on the other variants. */
  lemma CodeShowsAmount2OnlyForBetween(queryType: QueryType, amount: int, amount2: int, other: int)
    ensures queryType == Between ==> Includes(Code(queryType, amount, amount2), IntToString(amount2))
    ensures queryType != Between ==> Code(queryType, amount, amount2) == Code(queryType, amount, other)
  {
    if queryType == Between {
      var b := IntToString(amount2);
      var x := ":nth-last-child(n + " + IntToString(amount) + ")" + ":nth-last-child(-n + ";
      PseudoShowsOffset(x, b);
      IncludesLeft(x + b + ")", b, ":first-child");
      StyleSheetIncludes(x + b + ")" + ":first-child", b);
    }
  }

  // ---------------------------------------------------------------------------
  // The CSS agrees with the colour
  // ---------------------------------------------------------------------------

  /** The first box matches the item selector exactly when the colour is orange. */
  lemma FirstBoxDecides(queryType: QueryType, amount: int, amount2: int, boxCount: int)
    requires boxCount >= 1
    ensures CompoundMatches(ItemSelector(queryType, amount, amount2), 1, boxCount)
        <==> BoxColor(amount, amount2, queryType, boxCount) == Orange
  {
    var c := ItemSelector(queryType, amount, amount2);
    assert IndexFromEnd(1, boxCount) == boxCount;
    PlusNMatches(amount, boxCount);
    MinusNMatches(amount, boxCount);
    MinusNMatches(amount2, boxCount);
    match queryType
    case AtLeast =>
      assert CompoundMatches(c, 1, boxCount) <==> PseudoMatches(c[0], 1, boxCount);
    case AtMost =>
      assert CompoundMatches(c, 1, boxCount) <==> PseudoMatches(c[0], 1, boxCount) && PseudoMatches(c[1], 1, boxCount);
    case Between =>
      assert CompoundMatches(c, 1, boxCount)
        <==> PseudoMatches(c[0], 1, boxCount) && PseudoMatches(c[1], 1, boxCount) && PseudoMatches(c[2], 1, boxCount);
  }

  /** Whenever some box matches the item selector, the first box does too. */
  lemma AnyMatchMeansFirstMatches(queryType: QueryType, amount: int, amount2: int, i: int, boxCount: int)
    requires 1 <= i <= boxCount
    requires CompoundMatches(ItemSelector(queryType, amount, amount2), i, boxCount)
    ensures CompoundMatches(ItemSelector(queryType, amount, amount2), 1, boxCount)
  {
    var c := ItemSelector(queryType, amount, amount2);
    assert PseudoMatches(c[0], i, boxCount);
    if queryType == AtLeast {
      PlusNMatches(amount, IndexFromEnd(i, boxCount));
      PlusNMatches(amount, IndexFromEnd(1, boxCount));
      assert PseudoMatches(c[0], 1, boxCount);
    } else {
      assert PseudoMatches(c[|c| - 1], i, boxCount);
      assert i == 1;
    }
  }

  /**
   * With at least one box, some child matches the item selector, read as the
   * `An+B` values it denotes, exactly when the boxes are orange.
   */
  lemma ContainerMatchesIffOrange(queryType: QueryType, amount: int, amount2: int, boxCount: int)
    requires boxCount >= 1
    ensures HasMatching(ItemSelector(queryType, amount, amount2), boxCount)
        <==> BoxColor(amount, amount2, queryType, boxCount) == Orange
  {
    var c := ItemSelector(queryType, amount, amount2);
    FirstBoxDecides(queryType, amount, amount2, boxCount);
    if HasMatching(c, boxCount) {
      var i :| 1 <= i <= boxCount && CompoundMatches(c, i, boxCount);
      AnyMatchMeansFirstMatches(queryType, amount, amount2, i, boxCount);
    }
  }

  /** Each box is selected by the element selector (`li X, li X ~ li`), read as the values it denotes, exactly when it is orange. */
  lemma ElementRuleMatchesIffOrange(queryType: QueryType, amount: int, amount2: int, i: int, boxCount: int)
    requires 1 <= i <= boxCount
    ensures MatchesOrFollows(ItemSelector(queryType, amount, amount2), i, boxCount)
        <==> BoxColor(amount, amount2, queryType, boxCount) == Orange
  {
    var c := ItemSelector(queryType, amount, amount2);
    FirstBoxDecides(queryType, amount, amount2, boxCount);
    if CompoundMatches(c, i, boxCount) {
      AnyMatchMeansFirstMatches(queryType, amount, amount2, i, boxCount);
    }
    if exists j :: 1 <= j < i && CompoundMatches(c, j, boxCount) {
      var j :| 1 <= j < i && CompoundMatches(c, j, boxCount);
      AnyMatchMeansFirstMatches(queryType, amount, amount2, j, boxCount);
    }
    if CompoundMatches(c, 1, boxCount) && i > 1 {
      assert 1 <= 1 < i && CompoundMatches(c, 1, boxCount);
    }
  }

  // ---------------------------------------------------------------------------
  // Whether the printed CSS takes effect
  // ---------------------------------------------------------------------------

  /**
   * The printed selector is valid CSS. In the `An+B` notation (section 6 of
   * CSS Syntax Level 3) the integer after a `+` sign is unsigned, so
   * `n + -3`, which `getCode` prints for a negative amount, is invalid, and a
   * browser drops the whole rule that holds it. The number inputs' `min="0"`
   * does not stop a negative value from being typed and stored.
   */
  predicate SignlessOffsets(c: Compound) {
    forall k :: 0 <= k < |c| ==> c[k].NthLastChild? ==> c[k].b >= 0
  }

  /** The `±n + B` text: B's sign comes right after the printed `+ `. */
  lemma SignShownAfterPlus(a: int, b: int)
    requires a == 1 || a == -1
    ensures var pre := if a == 1 then ":nth-last-child(n + " else ":nth-last-child(-n + ";
      var t := RenderPseudo(NthLastChild(a, b));
      && |pre| < |t| && t[..|pre|] == pre
      && (t[|pre|] == '-' <==> b < 0)
  {
    var pre := if a == 1 then ":nth-last-child(n + " else ":nth-last-child(-n + ";
    var t := RenderPseudo(NthLastChild(a, b));
    assert t == pre + IntToString(b) + ")";
    assert t[|pre|] == IntToString(b)[0];
  }

  /** The printed CSS is valid exactly when every amount it shows is non-negative. */
  lemma ValidIffNonNegative(queryType: QueryType, amount: int, amount2: int)
    ensures SignlessOffsets(ItemSelector(queryType, amount, amount2))
        <==> amount >= 0 && (queryType == Between ==> amount2 >= 0)
  {
    var c := ItemSelector(queryType, amount, amount2);
    assert c[0] == NthLastChild(if queryType == AtMost then -1 else 1, amount);
    if queryType == Between {
      assert c[1] == NthLastChild(-1, amount2);
    }
  }

  /** `ul:has(li X) {}` takes effect: it is valid and some child matches. */
  ghost predicate ContainerRuleApplies(c: Compound, count: int) {
    SignlessOffsets(c) && HasMatching(c, count)
  }

  /** `ul li X, ul li X ~ li {}` takes effect for the child at position `i`. */
  ghost predicate ElementRuleApplies(c: Compound, i: int, count: int) {
    SignlessOffsets(c) && MatchesOrFollows(c, i, count)
  }

  /**
   * With at least one box and valid CSS, the container rule takes effect
   * exactly when the boxes are orange; invalid CSS never takes effect.
   */
  lemma ContainerRuleIffOrange(queryType: QueryType, amount: int, amount2: int, boxCount: int)
    requires boxCount >= 1
    ensures SignlessOffsets(ItemSelector(queryType, amount, amount2)) ==>
      (ContainerRuleApplies(ItemSelector(queryType, amount, amount2), boxCount) <==>
       BoxColor(amount, amount2, queryType, boxCount) == Orange)
    ensures !SignlessOffsets(ItemSelector(queryType, amount, amount2)) ==>
      !ContainerRuleApplies(ItemSelector(queryType, amount, amount2), boxCount)
  {
    ContainerMatchesIffOrange(queryType, amount, amount2, boxCount);
  }

  /** The same for the element rule and each box. */
  lemma ElementRuleIffOrange(queryType: QueryType, amount: int, amount2: int, i: int, boxCount: int)
    requires 1 <= i <= boxCount
    ensures SignlessOffsets(ItemSelector(queryType, amount, amount2)) ==>
      (ElementRuleApplies(ItemSelector(queryType, amount, amount2), i, boxCount) <==>
       BoxColor(amount, amount2, queryType, boxCount) == Orange)
    ensures !SignlessOffsets(ItemSelector(queryType, amount, amount2)) ==>
      !ElementRuleApplies(ItemSelector(queryType, amount, amount2), i, boxCount)
  {
    ElementRuleMatchesIffOrange(queryType, amount, amount2, i, boxCount);
  }

  /**
   * A negative amount under "≥": every box is orange, yet the printed CSS is
   * invalid and neither rule takes effect, so the colour and the CSS disagree.
   */
  lemma NegativeAmountDisagrees(amount: int, amount2: int, i: int, boxCount: int)
    requires amount < 0 && 1 <= i <= boxCount
    ensures BoxColor(amount, amount2, AtLeast, boxCount) == Orange
    ensures !ContainerRuleApplies(ItemSelector(AtLeast, amount, amount2), boxCount)
    ensures !ElementRuleApplies(ItemSelector(AtLeast, amount, amount2), i, boxCount)
  {
    ValidIffNonNegative(AtLeast, amount, amount2);
  }

  // ---------------------------------------------------------------------------
  // The widget's state
  // ---------------------------------------------------------------------------

  /** `Array.from({ length: n })` has no element for a negative length. */
  function RenderedBoxCount(boxCount: int): (r: nat)
    ensures boxCount >= 0 ==> r == boxCount
    ensures boxCount < 0 ==> r == 0
  {
    if boxCount < 0 then 0 else boxCount
  }

  /** The demo component: the four state hooks and their setters. */
  class QuantityQueryDemo {
    var queryType: QueryType
    var amount: int
    var amount2: int
    var boxCount: int

    /** The component with explicit initial props. */
    constructor (initialQueryType: QueryType, initialAmount: int, initialAmount2: int, initialBoxCount: int)
      ensures queryType == initialQueryType && amount == initialAmount
      ensures amount2 == initialAmount2 && boxCount == initialBoxCount
    {
      queryType := initialQueryType;
      amount := initialAmount;
      amount2 := initialAmount2;
      boxCount := initialBoxCount;
    }

    /** The component with its default props: "≥", 3, 5 and two boxes. */
    constructor Default()
      ensures queryType == AtLeast && amount == 3 && amount2 == 5 && boxCount == 2
    {
      queryType := AtLeast;
      amount := 3;
      amount2 := 5;
      boxCount := 2;
    }

    method SetQueryType(t: QueryType)
      modifies this
      ensures queryType == t
      ensures amount == old(amount) && amount2 == old(amount2) && boxCount == old(boxCount)
    {
      queryType := t;
    }

    method SetAmount(n: int)
      modifies this
      ensures amount == n
      ensures queryType == old(queryType) && amount2 == old(amount2) && boxCount == old(boxCount)
    {
      amount := n;
    }

    method SetAmount2(n: int)
      modifies this
      ensures amount2 == n
      ensures queryType == old(queryType) && amount == old(amount) && boxCount == old(boxCount)
    {
      amount2 := n;
    }

    /** "Add Box". */
    method AddBox()
      modifies this
      ensures boxCount == old(boxCount) + 1
      ensures queryType == old(queryType) && amount == old(amount) && amount2 == old(amount2)
    {
      boxCount := boxCount + 1;
    }

    /** "Remove Box": there is no lower bound, so the count can go below zero. */
    method RemoveBox()
      modifies this
      ensures boxCount == old(boxCount) - 1
      ensures queryType == old(queryType) && amount == old(amount) && amount2 == old(amount2)
    {
      boxCount := boxCount - 1;
    }

    /** Adding a box and removing one restores the whole state. */
    method AddThenRemove()
      modifies this
      ensures boxCount == old(boxCount)
      ensures queryType == old(queryType) && amount == old(amount) && amount2 == old(amount2)
    {
      AddBox();
      RemoveBox();
    }

    /**
     * The colours of the rendered boxes: one box per unit of a non-negative
     * count, all of one colour, and that colour is orange exactly when the
     * container rule of the shown CSS applies to the list.
     */
    function BoxColors(): (r: seq<Color>)
      reads this
      ensures |r| == RenderedBoxCount(boxCount)
      ensures forall i, j :: 0 <= i < |r| && 0 <= j < |r| ==> r[i] == r[j]
      ensures forall i :: 0 <= i < |r| ==>
        (r[i] == Orange <==> HasMatching(ItemSelector(queryType, amount, amount2), boxCount))
      ensures forall i :: 0 <= i < |r| ==>
        (r[i] == Orange <==> MatchesOrFollows(ItemSelector(queryType, amount, amount2), i + 1, boxCount))
      ensures SignlessOffsets(ItemSelector(queryType, amount, amount2)) ==> forall i :: 0 <= i < |r| ==>
        && (r[i] == Orange <==> ContainerRuleApplies(ItemSelector(queryType, amount, amount2), boxCount))
        && (r[i] == Orange <==> ElementRuleApplies(ItemSelector(queryType, amount, amount2), i + 1, boxCount))
    {
      var color := BoxColor(amount, amount2, queryType, boxCount);
      if boxCount >= 1 then
        ContainerMatchesIffOrange(queryType, amount, amount2, boxCount);
        assert forall i :: 1 <= i <= boxCount ==>
          (MatchesOrFollows(ItemSelector(queryType, amount, amount2), i, boxCount) <==> color == Orange) by {
          forall i | 1 <= i <= boxCount {
            ElementRuleMatchesIffOrange(queryType, amount, amount2, i, boxCount);
          }
        }
        seq(RenderedBoxCount(boxCount), _ => color)
      else
        []
    }

    /** The label of the first number input. */
    function AmountLabel(): (r: string)
      reads this
      ensures r == "Min" <==> queryType == Between
      ensures r == "Amount" <==> queryType != Between
    {
      if queryType == Between then "Min" else "Amount"
    }

    /** The "Max" input is rendered only for "Between". */
    function ShowsMaxInput(): (r: bool)
      reads this
      ensures r <==> queryType == Between
    {
      queryType == Between
    }

    /** The CSS shown when `showQuery` is set. */
    function ShownCode(): (r: string)
      reads this
      ensures r == StyleSheet(RenderCompound(ItemSelector(queryType, amount, amount2)))
    {
      CodeIsStyleSheet(queryType, amount, amount2);
      Code(queryType, amount, amount2)
    }
  }
}
