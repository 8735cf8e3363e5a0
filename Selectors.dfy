/**
 * The child-indexed pseudo-classes of Selectors Level 4 that quantity queries
 * use, evaluated over a list of `count` sibling elements numbered 1..count
 * from the first child:
 *   - `:nth-last-child(An+B)` (section 14.4.2) matches an element whose index
 *     counted from the last sibling (the last one has index 1) is A*n+B for
 *     some non-negative integer n;
 *   - `:first-child` (section 14.4.3) matches the element with index 1;
 *   - a compound selector matches when all its pseudo-classes do;
 *   - `X ~ li` (the subsequent-sibling combinator, section 16.4) matches an
 *     element preceded by some sibling that matches X;
 *   - `ul:has(li X)` (section 4.5) matches the list when some child matches X.
 */
module Selectors {

  datatype PseudoClass = NthLastChild(a: int, b: int) | FirstChild

  type Compound = seq<PseudoClass>

  /** `A*n+B`. */
  function Nth(a: int, b: int, n: nat): int {
    a * n + b
  }

  /** The index `k` is of the form An+B for some non-negative n. */
  ghost predicate IsAnPlusB(a: int, b: int, k: int) {
    exists n: nat :: Nth(a, b, n) == k
  }

  /** The index of position `i` (1 = first child) counted from the last of `count` siblings. */
  function IndexFromEnd(i: int, count: int): int {
    count - i + 1
  }

  ghost predicate PseudoMatches(p: PseudoClass, i: int, count: int) {
    match p
    case NthLastChild(a, b) => IsAnPlusB(a, b, IndexFromEnd(i, count))
    case FirstChild => i == 1
  }

  ghost predicate CompoundMatches(c: Compound, i: int, count: int) {
    forall k :: 0 <= k < |c| ==> PseudoMatches(c[k], i, count)
  }

  /** `ul:has(li X)`: some child of the list matches X. */
  ghost predicate HasMatching(c: Compound, count: int) {
    exists i :: 1 <= i <= count && CompoundMatches(c, i, count)
  }

  /** `ul li X, ul li X ~ li`: the child at position `i` matches X or follows a sibling that does. */
  ghost predicate MatchesOrFollows(c: Compound, i: int, count: int) {
    CompoundMatches(c, i, count) || exists j :: 1 <= j < i && CompoundMatches(c, j, count)
  }

  /** `n + B` selects the indices from B upwards. */
  lemma PlusNMatches(b: int, k: int)
    requires k >= 1
    ensures IsAnPlusB(1, b, k) <==> k >= b
  {
    if k >= b {
      assert Nth(1, b, k - b) == k;
    }
  }

  /** `-n + B` selects the indices from 1 up to B. */
  lemma MinusNMatches(b: int, k: int)
    requires k >= 1
    ensures IsAnPlusB(-1, b, k) <==> k <= b
  {
    if k <= b {
      assert Nth(-1, b, b - k) == k;
    }
  }

  /** An empty list has no child, so `:has` never matches it. */
  lemma NoChildNoMatch(c: Compound, count: int)
    requires count <= 0
    ensures !HasMatching(c, count)
  {
  }
}
