/** Order-preserving selection from a sequence, as `Array.prototype.filter` performs it. */
module Sequences {

  /** `s` appears in `t` in order, possibly with elements of `t` left out. */
  predicate IsSubsequence<T(==)>(s: seq<T>, t: seq<T>) {
    if s == [] then true
    else if t == [] then false
    else if s[0] == t[0] then IsSubsequence(s[1..], t[1..])
    else IsSubsequence(s, t[1..])
  }

  lemma {:induction false} SubsequenceOfTail<T>(s: seq<T>, t: seq<T>)
    requires t != [] && IsSubsequence(s, t[1..])
    ensures IsSubsequence(s, t)
    decreases |t|, |s|
  {
    if s != [] && s[0] == t[0] {
      SubsequenceDropHead(s, t[1..]);
    }
  }

  lemma {:induction false} SubsequenceDropHead<T>(s: seq<T>, t: seq<T>)
    requires s != [] && IsSubsequence(s, t)
    ensures IsSubsequence(s[1..], t)
    decreases |t|, |s|
  {
    if s[0] == t[0] {
      if s[1..] != [] { SubsequenceOfTail(s[1..], t); }
    } else {
      SubsequenceDropHead(s, t[1..]);
      SubsequenceOfTail(s[1..], t);
    }
  }
}
