/**
 * String operations of the JavaScript runtime that the blog's logic relies on:
 * `toLowerCase`, `includes`, the rendering of an integer inside a template
 * literal, `Array.prototype.join`, and its inverse `split` on one character.
 */
module Text {

  // ---------------------------------------------------------------------------
  // Lower-casing (restricted to the ASCII letters)
  // ---------------------------------------------------------------------------

  predicate IsUpperAscii(c: char) {
    'A' <= c <= 'Z'
  }

  function LowerChar(c: char): (r: char)
    ensures !IsUpperAscii(r)
    ensures !IsUpperAscii(c) ==> r == c
    ensures IsUpperAscii(c) ==> r as int == c as int + 32
  {
    if IsUpperAscii(c) then (c as int + 32) as char else c
  }

  /** A string that `toLowerCase` leaves unchanged. */
  predicate IsLower(s: string) {
    forall i :: 0 <= i < |s| ==> !IsUpperAscii(s[i])
  }

  /** `s.toLowerCase()`. */
  function Lower(s: string): (r: string)
    ensures |r| == |s|
    ensures forall i :: 0 <= i < |s| ==> r[i] == LowerChar(s[i])
  {
    if s == [] then [] else [LowerChar(s[0])] + Lower(s[1..])
  }

  /** Lower-casing yields a lower-case string, so lower-casing twice is lower-casing once. */
  lemma LowerIsLower(s: string)
    ensures IsLower(Lower(s))
    ensures Lower(Lower(s)) == Lower(s)
  {
    var r := Lower(s);
    assert forall i :: 0 <= i < |r| ==> !IsUpperAscii(r[i]);
    LowerFixesLower(r);
  }

  lemma LowerFixesLower(s: string)
    requires IsLower(s)
    ensures Lower(s) == s
  {
    assert forall i :: 0 <= i < |s| ==> Lower(s)[i] == s[i];
  }

  // ---------------------------------------------------------------------------
  // Substring search: `haystack.includes(needle)`
  // ---------------------------------------------------------------------------

  /** `needle` occurs in `hay` starting at index `i`. */
  predicate OccursAt(hay: string, needle: string, i: int) {
    0 <= i && i + |needle| <= |hay| && hay[i..i + |needle|] == needle
  }

  /** `hay.includes(needle)`: some position of `hay` starts an occurrence of `needle`. */
  function Includes(hay: string, needle: string): (b: bool)
    ensures b <==> exists i :: OccursAt(hay, needle, i)
    decreases |hay|
  {
    if needle <= hay then
      assert OccursAt(hay, needle, 0);
      true
    else if |hay| == 0 then
      false
    else
      var b := Includes(hay[1..], needle);
      assert b ==> exists i :: OccursAt(hay, needle, i) by {
        if b {
          var j :| OccursAt(hay[1..], needle, j);
          assert hay[j + 1..j + 1 + |needle|] == hay[1..][j..j + |needle|];
          assert OccursAt(hay, needle, j + 1);
        }
      }
      assert (exists i :: OccursAt(hay, needle, i)) ==> b by {
        if exists i :: OccursAt(hay, needle, i) {
          var i :| OccursAt(hay, needle, i);
          if i == 0 {
            assert false;
          } else {
            assert hay[1..][i - 1..i - 1 + |needle|] == hay[i..i + |needle|];
            assert OccursAt(hay[1..], needle, i - 1);
          }
        }
      }
      b
  }

  lemma IncludesSelf(s: string)
    ensures Includes(s, s)
  {
    assert OccursAt(s, s, 0);
  }

  /** What a string includes, any extension of it on the right includes too. */
  lemma IncludesLeft(x: string, y: string, z: string)
    requires Includes(x, y)
    ensures Includes(x + z, y)
  {
    var i :| OccursAt(x, y, i);
    assert (x + z)[i..i + |y|] == x[i..i + |y|];
    assert OccursAt(x + z, y, i);
  }

  /** What a string includes, any extension of it on the left includes too. */
  lemma IncludesRight(x: string, y: string, z: string)
    requires Includes(z, y)
    ensures Includes(x + z, y)
  {
    var i :| OccursAt(z, y, i);
    assert (x + z)[|x| + i..|x| + i + |y|] == z[i..i + |y|];
    assert OccursAt(x + z, y, |x| + i);
  }

  /** The empty string is included in every string: an empty query matches everything. */
  lemma IncludesEmpty(hay: string)
    ensures Includes(hay, "")
  {
    assert OccursAt(hay, "", 0);
  }

  // ---------------------------------------------------------------------------
  // Decimal rendering of an integer inside a template literal (`${n}`)
  // ---------------------------------------------------------------------------

  predicate IsDigit(c: char) {
    '0' <= c <= '9'
  }

  function Digit(d: nat): (c: char)
    requires d < 10
    ensures IsDigit(c) && c as int - '0' as int == d
  {
    (d + '0' as int) as char
  }

  /** The decimal digits of `n`, most significant first, without leading zeros. */
  function NatToString(n: nat): (s: string)
    ensures |s| >= 1
    ensures forall i :: 0 <= i < |s| ==> IsDigit(s[i])
    ensures s[0] == '0' ==> n == 0
    decreases n
  {
    if n < 10 then [Digit(n)] else NatToString(n / 10) + [Digit(n % 10)]
  }

  /** The number a string of decimal digits denotes. */
  function DigitsValue(s: string): nat
    requires forall i :: 0 <= i < |s| ==> IsDigit(s[i])
  {
    if s == [] then 0
    else
      assert IsDigit(s[|s| - 1]);
      DigitsValue(s[..|s| - 1]) * 10 + (s[|s| - 1] as int - '0' as int)
  }

  /** Reading the digits back gives the number: the rendering is injective. */
  lemma {:induction false} NatToStringRoundTrip(n: nat)
    ensures DigitsValue(NatToString(n)) == n
    decreases n
  {
    if n >= 10 {
      NatToStringRoundTrip(n / 10);
      var s := NatToString(n);
      assert s[..|s| - 1] == NatToString(n / 10);
    }
  }

  /** `${n}` for an integer `n`: a minus sign before the digits of a negative number. */
  function IntToString(n: int): (s: string)
    ensures |s| >= 1
    ensures n < 0 <==> s[0] == '-'
    ensures forall i :: 0 < i < |s| ==> IsDigit(s[i])
  {
    if n < 0 then "-" + NatToString(-n) else NatToString(n)
  }

  lemma IntToStringInjective(m: int, n: int)
    requires IntToString(m) == IntToString(n)
    ensures m == n
  {
    if m < 0 {
      assert n < 0;
      assert IntToString(m)[1..] == NatToString(-m);
      assert IntToString(n)[1..] == NatToString(-n);
      NatToStringInjective(-m, -n);
    } else {
      assert n >= 0;
      NatToStringInjective(m, n);
    }
  }

  lemma NatToStringInjective(m: nat, n: nat)
    requires NatToString(m) == NatToString(n)
    ensures m == n
  {
    NatToStringRoundTrip(m);
    NatToStringRoundTrip(n);
  }

  // ---------------------------------------------------------------------------
  // `parts.join(sep)` and its inverse for a one-character separator
  // ---------------------------------------------------------------------------

  /** `parts.join(sep)`: the parts with `sep` between neighbours. */
  function Join(parts: seq<string>, sep: string): string {
    if |parts| == 0 then ""
    else if |parts| == 1 then parts[0]
    else parts[0] + sep + Join(parts[1..], sep)
  }

  /** Number of occurrences of the character `c` in `s`. */
  function CountChar(s: string, c: char): nat {
    if s == [] then 0 else (if s[0] == c then 1 else 0) + CountChar(s[1..], c)
  }

  lemma {:induction false} CountCharAppend(a: string, b: string, c: char)
    ensures CountChar(a + b, c) == CountChar(a, c) + CountChar(b, c)
  {
    if a != [] {
      assert (a + b)[0] == a[0];
      assert (a + b)[1..] == a[1..] + b;
      CountCharAppend(a[1..], b, c);
      assert CountChar(a + b, c) == (if a[0] == c then 1 else 0) + CountChar(a[1..] + b, c);
    } else {
      assert a + b == b;
    }
  }

  lemma {:induction false} CountCharAbsent(s: string, c: char)
    requires c !in s
    ensures CountChar(s, c) == 0
  {
    if s != [] {
      CountCharAbsent(s[1..], c);
    }
  }

  /**
   * When no part contains the one-character separator, the joined string holds
   * exactly one separator between each pair of neighbouring parts.
   */
  lemma {:induction false} JoinSeparatorCount(parts: seq<string>, c: char)
    requires forall k :: 0 <= k < |parts| ==> c !in parts[k]
    ensures CountChar(Join(parts, [c]), c) == if |parts| == 0 then 0 else |parts| - 1
  {
    if |parts| == 1 {
      CountCharAbsent(parts[0], c);
    } else if |parts| > 1 {
      JoinSeparatorCount(parts[1..], c);
      CountCharAbsent(parts[0], c);
      CountCharAppend(parts[0], [c], c);
      CountCharAppend(parts[0] + [c], Join(parts[1..], [c]), c);
    }
  }

  /** `s.split(c)`: the maximal pieces of `s` between occurrences of `c`. */
  function Split(s: string, c: char): (r: seq<string>)
    ensures |r| >= 1
  {
    if s == [] then [""]
    else if s[0] == c then [""] + Split(s[1..], c)
    else
      var rest := Split(s[1..], c);
      [[s[0]] + rest[0]] + rest[1..]
  }

  lemma {:induction false} SplitNoSeparator(s: string, c: char)
    requires c !in s
    ensures Split(s, c) == [s]
  {
    if s != [] {
      SplitNoSeparator(s[1..], c);
      assert [s[0]] + s[1..] == s;
    }
  }

  lemma {:induction false} SplitAtSeparator(a: string, b: string, c: char)
    requires c !in a
    ensures Split(a + [c] + b, c) == [a] + Split(b, c)
  {
    if a == [] {
      assert a + [c] + b == [c] + b;
      assert ([c] + b)[1..] == b;
    } else {
      assert (a + [c] + b)[1..] == a[1..] + [c] + b;
      SplitAtSeparator(a[1..], b, c);
      assert [a[0]] + a[1..] == a;
    }
  }

  /** Splitting a join on its separator gives the parts back, when no part contains it. */
  lemma {:induction false} SplitJoin(parts: seq<string>, c: char)
    requires |parts| >= 1
    requires forall k :: 0 <= k < |parts| ==> c !in parts[k]
    ensures Split(Join(parts, [c]), c) == parts
  {
    if |parts| == 1 {
      SplitNoSeparator(parts[0], c);
    } else {
      SplitJoin(parts[1..], c);
      SplitAtSeparator(parts[0], Join(parts[1..], [c]), c);
      assert [parts[0]] + parts[1..] == parts;
    }
  }

  /** A character found neither in the parts nor in the separator is not in their join. */
  lemma {:induction false} JoinAvoids(parts: seq<string>, sep: string, c: char)
    requires c !in sep
    requires forall k :: 0 <= k < |parts| ==> c !in parts[k]
    ensures c !in Join(parts, sep)
  {
    if |parts| > 1 {
      JoinAvoids(parts[1..], sep, c);
    }
  }

  /** Every part but the first with `pad` in front of it. */
  function PadTail(parts: seq<string>, pad: string): (r: seq<string>)
    ensures |r| == |parts|
    ensures |parts| > 0 ==> r[0] == parts[0]
    ensures forall i :: 0 < i < |parts| ==> r[i] == pad + parts[i]
  {
    seq(|parts|, i requires 0 <= i < |parts| => if i == 0 then parts[0] else pad + parts[i])
  }

  lemma JoinPadFirst(pad: string, parts: seq<string>, sep: string)
    requires |parts| >= 1
    ensures pad + Join(parts, sep) == Join([pad + parts[0]] + parts[1..], sep)
  {
    var q := [pad + parts[0]] + parts[1..];
    assert q[1..] == parts[1..];
  }

  /**
   * Joining on a separator `c` followed by `pad` is joining on `c` alone once
   * every part but the first carries the `pad`.
   */
  lemma {:induction false} JoinPadded(parts: seq<string>, c: char, pad: string)
    ensures Join(parts, [c] + pad) == Join(PadTail(parts, pad), [c])
  {
    if |parts| >= 2 {
      var tail := PadTail(parts[1..], pad);
      JoinPadded(parts[1..], c, pad);
      JoinPadFirst(pad, tail, [c]);
      assert [pad + tail[0]] + tail[1..] == PadTail(parts, pad)[1..];
      assert Join(parts, [c] + pad) == parts[0] + [c] + (pad + Join(tail, [c]));
    }
  }

  lemma JoinStartsWithFirst(parts: seq<string>, sep: string)
    requires |parts| >= 1
    ensures |Join(parts, sep)| >= |parts[0]|
    ensures Join(parts, sep)[..|parts[0]|] == parts[0]
  {
  }
}
