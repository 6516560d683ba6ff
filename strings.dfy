/**
 * The Python string operations kedro-diff relies on, over `seq<char>`:
 * `in`, `str.find`, `str.split` with an explicit separator, `str.replace` of
 * one character, `str.ljust` followed by a slice, `str.startswith`, `*`
 * repetition and `str()` of a non-negative `int`.
 */
module Strings {
  import opened Wrappers

  /** `sep` occurs in `s` starting at index `i`. */
  predicate OccursAt(s: string, sep: string, i: nat) {
    i + |sep| <= |s| && s[i..i + |sep|] == sep
  }

  /** Appending is associative; spelt out because the solver proves it slowly for sequences of strings. */
  lemma AppendAssociative<T>(a: seq<T>, b: seq<T>, c: seq<T>)
    ensures a + b + c == a + (b + c)
  {
  }

  /** An element of either part is an element of a concatenation. */
  lemma InConcat<T>(x: T, a: seq<T>, b: seq<T>)
    ensures x in a + b <==> x in a || x in b
  {
  }

  /** Python's `sep in s`. */
  predicate Contains(s: string, sep: string) {
    exists i: nat :: i <= |s| && OccursAt(s, sep, i)
  }

  /** Python's `s.startswith(prefix)`. */
  predicate StartsWith(s: string, prefix: string) {
    prefix <= s
  }

  /** Python's `s.find(sep, start)`, with `None` for Python's `-1`. */
  function Find(s: string, sep: string, start: nat): (r: Option<nat>)
    requires |sep| > 0 && start <= |s|
    ensures r.Some? ==> start <= r.value && OccursAt(s, sep, r.value)
    ensures r.Some? ==> forall j: nat :: start <= j < r.value ==> !OccursAt(s, sep, j)
    ensures r.None? ==> forall j: nat :: start <= j ==> !OccursAt(s, sep, j)
    decreases |s| - start
  {
    if start + |sep| > |s| then None
    else if s[start..start + |sep|] == sep then Some(start)
    else Find(s, sep, start + 1)
  }

  /** An occurrence inside a prefix of `s` is an occurrence in `s`. */
  lemma OccursInPrefix(s: string, sep: string, n: nat, j: nat)
    requires n <= |s| && OccursAt(s[..n], sep, j)
    ensures OccursAt(s, sep, j) && j + |sep| <= n
  {
    assert s[..n][j..j + |sep|] == s[j..j + |sep|];
  }

  /**
   * Python's `s.split(sep)` for a non-empty separator: the pieces between the
   * non-overlapping occurrences of `sep`, scanning from the left. No piece
   * contains the separator, and there is always at least one piece.
   */
  function Split(s: string, sep: string): (parts: seq<string>)
    requires |sep| > 0
    ensures |parts| >= 1
    ensures forall k :: 0 <= k < |parts| ==> !Contains(parts[k], sep)
    decreases |s|
  {
    match Find(s, sep, 0)
    case None => [s]
    case Some(i) =>
      assert !Contains(s[..i], sep) by {
        forall j: nat | OccursAt(s[..i], sep, j) ensures false {
          OccursInPrefix(s, sep, i, j);
        }
      }
      [s[..i]] + Split(s[i + |sep|..], sep)
  }

  /** Python's `sep.join(parts)`. */
  function Join(parts: seq<string>, sep: string): string
    decreases |parts|
  {
    if |parts| == 0 then ""
    else if |parts| == 1 then parts[0]
    else parts[0] + sep + Join(parts[1..], sep)
  }

  /** Joining the pieces of a split with the same separator gives back the string. */
  lemma {:induction false} JoinSplit(s: string, sep: string)
    requires |sep| > 0
    ensures Join(Split(s, sep), sep) == s
    decreases |s|
  {
    match Find(s, sep, 0)
    case None =>
    case Some(i) =>
      var rest := s[i + |sep|..];
      var tail := Split(rest, sep);
      JoinSplit(rest, sep);
      assert Split(s, sep) == [s[..i]] + tail;
      assert ([s[..i]] + tail)[1..] == tail;
      assert Join([s[..i]] + tail, sep) == s[..i] + sep + Join(tail, sep);
      assert s == s[..i] + s[i..i + |sep|] + rest;
  }

  /** A split yields more than one piece exactly when the separator occurs. */
  lemma SplitPieces(s: string, sep: string)
    requires |sep| > 0
    ensures |Split(s, sep)| >= 2 <==> Contains(s, sep)
    ensures !Contains(s, sep) ==> Split(s, sep) == [s]
  {
    match Find(s, sep, 0)
    case None =>
    case Some(i) =>
      assert |Split(s[i + |sep|..], sep)| >= 1;
  }

  /**
   * For a separator made of dots, when `a` does not hold `sep` and does not
   * end in a dot, the first occurrence of `sep` in `a + sep + b` is the one
   * right after `a`.
   */
  lemma SplitAroundDots(a: string, sep: string, b: string)
    requires |sep| > 0 && forall k :: 0 <= k < |sep| ==> sep[k] == '.'
    requires !Contains(a, sep) && (a == [] || a[|a| - 1] != '.')
    ensures Split(a + sep + b, sep) == [a] + Split(b, sep)
  {
    var s := a + sep + b;
    ContainsMiddle(a, sep, b);
    forall j: nat | j < |a| ensures !OccursAt(s, sep, j) {
      if j + |sep| <= |a| {
        assert s[j..j + |sep|] == a[j..j + |sep|];
        assert !OccursAt(a, sep, j);
      } else {
        assert s[j..j + |sep|][|a| - 1 - j] == s[|a| - 1] == a[|a| - 1] != '.';
      }
    }
    var r := Find(s, sep, 0);
    assert r == Some(|a|);
    assert s[..|a|] == a;
    assert s[|a| + |sep|..] == b;
  }

  /** The sum of the lengths of `parts`. */
  function TotalLength(parts: seq<string>): nat
    decreases |parts|
  {
    if parts == [] then 0 else |parts[0]| + TotalLength(parts[1..])
  }

  lemma {:induction false} TotalLengthAppend(a: seq<string>, b: seq<string>)
    ensures TotalLength(a + b) == TotalLength(a) + TotalLength(b)
    decreases |a|
  {
    if a != [] {
      assert (a + b)[0] == a[0];
      assert (a + b)[1..] == a[1..] + b;
      TotalLengthAppend(a[1..], b);
    } else {
      assert a + b == b;
    }
  }

  lemma {:induction false} JoinLength(parts: seq<string>, sep: string)
    requires |parts| >= 1
    ensures |Join(parts, sep)| == TotalLength(parts) + (|parts| - 1) * |sep|
    decreases |parts|
  {
    if |parts| > 1 {
      JoinLength(parts[1..], sep);
    } else {
      assert parts[1..] == [];
    }
  }

  /** Splitting never adds characters, and removes some when the separator occurs. */
  lemma SplitShrinks(s: string, sep: string)
    requires |sep| > 0
    ensures TotalLength(Split(s, sep)) <= |s|
    ensures Contains(s, sep) ==> TotalLength(Split(s, sep)) < |s|
  {
    var parts := Split(s, sep);
    JoinSplit(s, sep);
    JoinLength(parts, sep);
    SplitPieces(s, sep);
    assert (|parts| - 1) * |sep| >= 0;
    if Contains(s, sep) {
      assert (|parts| - 1) * |sep| >= |sep|;
    }
  }

  /** A string holding `sep` holds every prefix of `sep`. */
  lemma ContainsPrefix(s: string, sep: string, pre: string)
    requires pre <= sep && Contains(s, sep)
    ensures Contains(s, pre)
  {
    var i: nat :| i <= |s| && OccursAt(s, sep, i);
    assert s[i..i + |pre|] == sep[..|pre|];
    assert OccursAt(s, pre, i);
  }

  /** A string that lacks the first character of `sep` does not contain `sep`. */
  lemma NotContainsWithoutFirst(s: string, sep: string)
    requires |sep| > 0 && sep[0] !in s
    ensures !Contains(s, sep)
  {
  }

  /** A string with no two neighbouring `c`s does not contain `cc`. */
  lemma NoDoubledChar(s: string, c: char)
    requires forall i :: 0 <= i < |s| - 1 ==> s[i] != c || s[i + 1] != c
    ensures !Contains(s, [c, c])
  {
    forall i: nat | i + 2 <= |s| ensures !OccursAt(s, [c, c], i) {
      assert s[i..i + 2][0] == s[i] && s[i..i + 2][1] == s[i + 1];
    }
  }

  /** Python's `s.replace(from, to)` for one-character `from` and `to`. */
  function Replace(s: string, from: char, to: char): (r: string)
    ensures |r| == |s|
    ensures from != to ==> from !in r
    ensures forall k :: 0 <= k < |s| && s[k] != from ==> r[k] == s[k]
  {
    seq(|s|, k requires 0 <= k < |s| => if s[k] == from then to else s[k])
  }

  /** Python's `c * k` for a one-character string `c` (empty when `k <= 0`). */
  function Repeat(c: char, k: nat): (r: string)
    ensures |r| == k && forall i :: 0 <= i < k ==> r[i] == c
  {
    seq(k, _ => c)
  }

  /** Python's `s.ljust(width)[:width]`: exactly `width` characters, `s` cut or padded with spaces. */
  function LJustCut(s: string, width: nat): (r: string)
    ensures |r| == width
    ensures forall k :: 0 <= k < width && k < |s| ==> r[k] == s[k]
    ensures forall k :: |s| <= k < width ==> r[k] == ' '
  {
    var padded := if |s| < width then s + Repeat(' ', width - |s|) else s;
    padded[..width]
  }

  /** The number of occurrences of the character `c` in `s`. */
  function Count(c: char, s: string): nat
    decreases |s|
  {
    if s == [] then 0 else (if s[0] == c then 1 else 0) + Count(c, s[1..])
  }

  lemma {:induction false} CountAppend(c: char, a: string, b: string)
    ensures Count(c, a + b) == Count(c, a) + Count(c, b)
    decreases |a|
  {
    if a != [] {
      assert (a + b)[0] == a[0];
      assert (a + b)[1..] == a[1..] + b;
      CountAppend(c, a[1..], b);
    } else {
      assert a + b == b;
    }
  }

  /** `Count` over a concatenation of five pieces. */
  lemma CountFive(c: char, a: string, b: string, d: string, e: string, f: string)
    ensures Count(c, a + b + d + e + f) == Count(c, a) + Count(c, b) + Count(c, d) + Count(c, e) + Count(c, f)
  {
    CountAppend(c, a, b);
    CountAppend(c, a + b, d);
    CountAppend(c, a + b + d, e);
    CountAppend(c, a + b + d + e, f);
  }

  lemma {:induction false} CountAbsent(c: char, s: string)
    requires c !in s
    ensures Count(c, s) == 0
    decreases |s|
  {
    if s != [] {
      assert s[0] != c;
      CountAbsent(c, s[1..]);
    }
  }

  lemma {:induction false} CountRepeat(c: char, k: nat)
    ensures Count(c, Repeat(c, k)) == k
    decreases k
  {
    if k > 0 {
      assert Repeat(c, k)[1..] == Repeat(c, k - 1);
      CountRepeat(c, k - 1);
    }
  }

  /** `c` occurs in `s` exactly when it is counted at least once. */
  lemma {:induction false} CountPositive(c: char, s: string)
    ensures Count(c, s) > 0 <==> c in s
    decreases |s|
  {
    if s != [] {
      CountPositive(c, s[1..]);
      assert c in s <==> s[0] == c || c in s[1..];
    }
  }

  /** The middle part of a concatenation occurs in it. */
  lemma ContainsMiddle(a: string, b: string, c: string)
    ensures OccursAt(a + b + c, b, |a|) && Contains(a + b + c, b)
  {
    assert (a + b + c)[|a|..|a| + |b|] == b;
    assert OccursAt(a + b + c, b, |a|);
  }

  /** A string holding `c * k` as a substring holds at least `k` copies of `c`. */
  lemma ContainsRunCount(s: string, c: char, k: nat)
    requires k > 0 && Contains(s, Repeat(c, k))
    ensures Count(c, s) >= k
  {
    var i: nat :| i <= |s| && OccursAt(s, Repeat(c, k), i);
    assert s == s[..i] + Repeat(c, k) + s[i + k..];
    CountAppend(c, s[..i] + Repeat(c, k), s[i + k..]);
    CountAppend(c, s[..i], Repeat(c, k));
    CountRepeat(c, k);
  }

  /** A character that occurs in `s` makes `[c] in s` true. */
  lemma ContainsChar(s: string, c: char)
    ensures Contains(s, [c]) <==> c in s
  {
    if c in s {
      var i :| 0 <= i < |s| && s[i] == c;
      assert s[i..i + 1] == [c];
      assert OccursAt(s, [c], i);
    }
    if Contains(s, [c]) {
      var i: nat :| i <= |s| && OccursAt(s, [c], i);
      assert s[i..i + 1][0] == s[i];
    }
  }

  /** The decimal digit for `d`. */
  function Digit(d: nat): (c: char)
    requires d < 10
    ensures '0' <= c <= '9'
  {
    (('0' as int) + d) as char
  }

  /** Python's `str(n)` for a non-negative integer. */
  function NatToString(n: nat): (r: string)
    ensures |r| >= 1
    ensures forall k :: 0 <= k < |r| ==> '0' <= r[k] <= '9'
    decreases n
  {
    if n < 10 then [Digit(n)] else NatToString(n / 10) + [Digit(n % 10)]
  }

  /** The number a string of decimal digits stands for: the inverse of `NatToString`. */
  function DigitsValue(s: string): nat
    requires forall k :: 0 <= k < |s| ==> '0' <= s[k] <= '9'
    decreases |s|
  {
    if s == [] then 0
    else DigitsValue(s[..|s| - 1]) * 10 + (s[|s| - 1] as int - '0' as int)
  }

  lemma {:induction false} DigitsOfNatToString(n: nat)
    ensures DigitsValue(NatToString(n)) == n
    decreases n
  {
    var s := NatToString(n);
    if n < 10 {
      assert s[..|s| - 1] == [];
    } else {
      assert s[..|s| - 1] == NatToString(n / 10);
      DigitsOfNatToString(n / 10);
    }
  }

  /** Distinct numbers have distinct decimal renderings. */
  lemma NatToStringInjective(m: nat, n: nat)
    requires NatToString(m) == NatToString(n)
    ensures m == n
  {
    DigitsOfNatToString(m);
    DigitsOfNatToString(n);
  }
}
