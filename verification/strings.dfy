/**
 The string primitives the attendance tracker relies on, written out over
 `seq<char>`: whitespace as `str.isspace()` defines it, `strip()`, ASCII
 `lower()`, substring search (`sub in s`) and `split('\n')`.
 */
module Strings {

  type String = seq<char>

  /** The characters `str.isspace()` (and the regex class `\s`) accept. */
  predicate IsSpace(c: char) {
    var n := c as int;
    n == 0x20 || 0x09 <= n <= 0x0D || 0x1C <= n <= 0x1F || n == 0x85 || n == 0xA0
    || n == 0x1680 || 0x2000 <= n <= 0x200A || n == 0x2028 || n == 0x2029
    || n == 0x202F || n == 0x205F || n == 0x3000
  }

  predicate AllSpace(s: String) {
    forall k :: 0 <= k < |s| ==> IsSpace(s[k])
  }

  /** Index of the first non-space character (`|s|` when there is none). */
  function SpanStart(s: String): (i: nat)
    ensures i <= |s|
    ensures forall k :: 0 <= k < i ==> IsSpace(s[k])
    ensures i < |s| ==> !IsSpace(s[i])
  {
    if |s| == 0 || !IsSpace(s[0]) then 0 else 1 + SpanStart(s[1..])
  }

  /** One past the index of the last non-space character (0 when there is none). */
  function SpanEnd(s: String): (j: nat)
    ensures j <= |s|
    ensures forall k :: j <= k < |s| ==> IsSpace(s[k])
    ensures j > 0 ==> !IsSpace(s[j - 1])
  {
    if |s| == 0 || !IsSpace(s[|s| - 1]) then |s| else SpanEnd(s[..|s| - 1])
  }

  /** `s.strip()`: the slice of `s` between its first and last non-space characters. */
  function Strip(s: String): (r: String)
    ensures |r| <= |s|
    ensures |r| > 0 ==> !IsSpace(r[0]) && !IsSpace(r[|r| - 1])
    ensures r == [] <==> AllSpace(s)
  {
    var i := SpanStart(s);
    var j := SpanEnd(s);
    if i == |s| then []
    else
      assert i < j by { assert !IsSpace(s[i]); }
      assert !AllSpace(s) by { assert !IsSpace(s[i]); }
      s[i..j]
  }

  /** `strip()` removes only whitespace, and only at the two ends. */
  lemma StripSlice(s: String)
    ensures exists i :: OccursAt(s, Strip(s), i) && AllSpace(s[..i]) && AllSpace(s[i + |Strip(s)|..])
  {
    var i := SpanStart(s);
    if i == |s| {
      assert OccursAt(s, [], 0);
    } else {
      assert OccursAt(s, Strip(s), i);
    }
  }

  /** Stripping twice is stripping once. */
  lemma StripIdempotent(s: String)
    ensures Strip(Strip(s)) == Strip(s)
  {
    var t := Strip(s);
    if |t| > 0 {
      assert SpanStart(t) == 0;
      assert SpanEnd(t) == |t|;
    }
  }

  /** `sub` occurs in `s` starting at position `i`. */
  predicate OccursAt(s: String, sub: String, i: int) {
    0 <= i && i + |sub| <= |s| && s[i..i + |sub|] == sub
  }

  /** Python's `sub in s`. */
  function Contains(s: String, sub: String): (b: bool)
    ensures b <==> exists i :: OccursAt(s, sub, i)
  {
    if sub <= s then
      assert OccursAt(s, sub, 0);
      true
    else if |s| == 0 then
      false
    else
      var b := Contains(s[1..], sub);
      assert b ==> exists i :: OccursAt(s, sub, i) by {
        if b {
          var j :| OccursAt(s[1..], sub, j);
          assert s[j + 1..j + 1 + |sub|] == s[1..][j..j + |sub|];
          assert OccursAt(s, sub, j + 1);
        }
      }
      assert (exists i :: OccursAt(s, sub, i)) ==> b by {
        assert !OccursAt(s, sub, 0);
        if i :| OccursAt(s, sub, i) && i > 0 {
          assert s[1..][i - 1..i - 1 + |sub|] == s[i..i + |sub|];
          assert OccursAt(s[1..], sub, i - 1);
        }
      }
      b
  }

  /** Containment of substrings is transitive. */
  lemma ContainsTransitive(s: String, t: String, u: String)
    requires Contains(s, t) && Contains(t, u)
    ensures Contains(s, u)
  {
    var i :| OccursAt(s, t, i);
    var j :| OccursAt(t, u, j);
    forall k | 0 <= k < |u|
      ensures s[i + j + k] == u[k]
    {
      assert u[k] == t[j..j + |u|][k] == t[j + k];
      assert t[j + k] == s[i..i + |t|][j + k] == s[i + j + k];
    }
    assert s[i + j..i + j + |u|] == u;
    assert OccursAt(s, u, i + j);
  }

  /** A string's stripped form occurs inside it. */
  lemma StripIsInside(s: String)
    ensures Contains(s, Strip(s))
  {
    StripSlice(s);
  }

  /** ASCII `lower()` of one character. */
  function LowerChar(c: char): (r: char)
    ensures 'A' <= c <= 'Z' ==> r as int == c as int + 32
    ensures !('A' <= c <= 'Z') ==> r == c
    ensures !('A' <= r <= 'Z')
  {
    if 'A' <= c <= 'Z' then (c as int + 32) as char else c
  }

  /** ASCII `s.lower()`. */
  function Lower(s: String): (r: String)
    ensures |r| == |s|
    ensures forall k :: 0 <= k < |s| ==> r[k] == LowerChar(s[k])
  {
    seq(|s|, k requires 0 <= k < |s| => LowerChar(s[k]))
  }

  /** Lowering a lowered string changes nothing. */
  lemma LowerIdempotent(s: String)
    ensures Lower(Lower(s)) == Lower(s)
  {
    var t := Lower(s);
    forall k | 0 <= k < |s|
      ensures Lower(t)[k] == t[k]
    {
      assert !('A' <= t[k] <= 'Z');
    }
  }

  /** `s.split(d)`: the pieces between occurrences of `d`; never empty. */
  function SplitOn(s: String, d: char): (r: seq<String>)
    ensures |r| >= 1
    ensures forall k :: 0 <= k < |r| ==> d !in r[k]
  {
    if |s| == 0 then [[]]
    else
      var rest := SplitOn(s[1..], d);
      if s[0] == d then [[]] + rest
      else [[s[0]] + rest[0]] + rest[1..]
  }

  /** `d.join(parts)`, the inverse of `SplitOn`. */
  function JoinOn(parts: seq<String>, d: char): String
    requires |parts| >= 1
  {
    if |parts| == 1 then parts[0] else parts[0] + [d] + JoinOn(parts[1..], d)
  }

  /** Splitting then joining gives the original text back. */
  lemma {:induction false} JoinSplit(s: String, d: char)
    ensures JoinOn(SplitOn(s, d), d) == s
  {
    if |s| > 0 {
      JoinSplit(s[1..], d);
      var rest := SplitOn(s[1..], d);
      if s[0] != d && |rest| > 1 {
        assert JoinOn(rest, d) == rest[0] + [d] + JoinOn(rest[1..], d);
      }
    }
  }

  /** Joining pieces free of the separator and splitting again gives the pieces back. */
  lemma {:induction false} SplitJoin(parts: seq<String>, d: char)
    requires |parts| >= 1
    requires forall k :: 0 <= k < |parts| ==> d !in parts[k]
    ensures SplitOn(JoinOn(parts, d), d) == parts
  {
    if |parts| == 1 {
      SplitNoSeparator(parts[0], d);
    } else {
      SplitJoin(parts[1..], d);
      SplitPrefix(parts[0], JoinOn(parts[1..], d), d);
    }
  }

  lemma {:induction false} SplitNoSeparator(s: String, d: char)
    requires d !in s
    ensures SplitOn(s, d) == [s]
  {
    if |s| > 0 {
      SplitNoSeparator(s[1..], d);
      assert [s[0]] + s[1..] == s;
    }
  }

  lemma {:induction false} SplitPrefix(p: String, t: String, d: char)
    requires d !in p
    ensures SplitOn(p + [d] + t, d) == [p] + SplitOn(t, d)
  {
    if |p| == 0 {
      assert (p + [d] + t)[1..] == t;
    } else {
      assert (p + [d] + t)[1..] == p[1..] + [d] + t;
      SplitPrefix(p[1..], t, d);
      assert [p[0]] + p[1..] == p;
    }
  }

  /** A joined text starts with the first piece's first character. */
  lemma JoinOnFirst(parts: seq<String>, d: char)
    requires |parts| >= 1 && |parts[0]| > 0
    ensures |JoinOn(parts, d)| > 0 && JoinOn(parts, d)[0] == parts[0][0]
  {
  }

  /** A joined text ends with the last piece's last character. */
  lemma {:induction false} JoinOnLast(parts: seq<String>, d: char)
    requires |parts| >= 1 && |parts[|parts| - 1]| > 0
    ensures var t := JoinOn(parts, d);
            |t| > 0 && t[|t| - 1] == parts[|parts| - 1][|parts[|parts| - 1]| - 1]
  {
    if |parts| > 1 {
      JoinOnLast(parts[1..], d);
    }
  }

  /** A string with no whitespace at either end is its own `strip()`. */
  lemma StripTrimmed(s: String)
    requires |s| > 0 && !IsSpace(s[0]) && !IsSpace(s[|s| - 1])
    ensures Strip(s) == s
  {
    assert SpanStart(s) == 0;
    assert SpanEnd(s) == |s|;
  }

  /** A blank in front of a trimmed string is all `strip()` removes. */
  lemma StripIndented(c: char, s: String)
    requires IsSpace(c) && |s| > 0 && !IsSpace(s[0]) && !IsSpace(s[|s| - 1])
    ensures Strip([c] + s) == s
  {
    var t := [c] + s;
    assert t[1..] == s;
    assert SpanStart(s) == 0;
    assert SpanStart(t) == 1;
    assert SpanEnd(t) == |t|;
  }
}
