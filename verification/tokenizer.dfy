/**
 The field splitter both parsers apply to a line: `re.split(r'\t+|\s{2,}', line)`.
 The regex engine itself is not modelled; the split is written out by hand: at
 each position it tries `\t+` first (a run of tabs) and otherwise a run of two
 or more whitespace characters, and cuts the line at each match.
 */
module Tokenizer {
  import opened Strings

  /** Number of consecutive tabs starting at position `i`. */
  function TabRun(s: String, i: nat): (n: nat)
    requires i <= |s|
    ensures i + n <= |s|
    ensures forall k :: i <= k < i + n ==> s[k] == '\t'
    ensures i + n < |s| ==> s[i + n] != '\t'
    decreases |s| - i
  {
    if i < |s| && s[i] == '\t' then 1 + TabRun(s, i + 1) else 0
  }

  /** Number of consecutive whitespace characters starting at position `i`. */
  function SpaceRun(s: String, i: nat): (n: nat)
    requires i <= |s|
    ensures i + n <= |s|
    ensures forall k :: i <= k < i + n ==> IsSpace(s[k])
    ensures i + n < |s| ==> !IsSpace(s[i + n])
    decreases |s| - i
  {
    if i < |s| && IsSpace(s[i]) then 1 + SpaceRun(s, i + 1) else 0
  }

  /** Length of the match of `\t+|\s{2,}` that starts at position `i`, 0 when none does. */
  function MatchLen(s: String, i: nat): (m: nat)
    requires i < |s|
    ensures i + m <= |s|
    ensures m > 0 <==> s[i] == '\t' || (i + 1 < |s| && IsSpace(s[i]) && IsSpace(s[i + 1]))
    ensures forall k :: i <= k < i + m ==> IsSpace(s[k])
    ensures s[i] == '\t' ==> forall k :: i <= k < i + m ==> s[k] == '\t'
    ensures s[i] == '\t' && i + m < |s| ==> s[i + m] != '\t'
    ensures s[i] != '\t' && m > 0 && i + m < |s| ==> !IsSpace(s[i + m])
  {
    if s[i] == '\t' then TabRun(s, i)
    else if SpaceRun(s, i) >= 2 then SpaceRun(s, i)
    else 0
  }

  /** A field the split can return: no tab and no two adjacent whitespace characters. */
  predicate Clean(t: String) {
    && (forall k :: 0 <= k < |t| ==> t[k] != '\t')
    && (forall k :: 0 <= k < |t| - 1 ==> !(IsSpace(t[k]) && IsSpace(t[k + 1])))
  }

  /** `re.split(r'\t+|\s{2,}', s)`: the pattern is tried at each position from the left,
      and a match cuts a field. A match at the front ends an empty first field;
      otherwise the first character belongs to the first field of the rest, since a
      match only looks forward. Every field is clean, occurs in `s`, and the first
      is a prefix of `s`. */
  function Split(s: String): (fields: seq<String>)
    ensures |fields| >= 1
    ensures fields[0] <= s
    ensures forall f :: f in fields ==> Clean(f) && Contains(s, f)
    decreases |s|
  {
    if |s| == 0 then
      assert OccursAt(s, [], 0);
      [[]]
    else if MatchLen(s, 0) > 0 then
      var m := MatchLen(s, 0);
      var rest := Split(s[m..]);
      assert OccursAt(s, [], 0);
      InSuffix(s, m, rest);
      [[]] + rest
    else
      var rest := Split(s[1..]);
      var first := [s[0]] + rest[0];
      assert first <= s by {
        assert s == [s[0]] + s[1..];
      }
      assert Clean(first) by {
        FirstCharClean(s, rest[0]);
      }
      assert OccursAt(s, first, 0);
      InSuffix(s, 1, rest[1..]);
      [first] + rest[1..]
  }

  /** Fields found in a suffix of `s` occur in `s`. */
  lemma InSuffix(s: String, k: nat, fields: seq<String>)
    requires k <= |s|
    requires forall f :: f in fields ==> Clean(f) && Contains(s[k..], f)
    ensures forall f :: f in fields ==> Clean(f) && Contains(s, f)
  {
    forall f | f in fields
      ensures Contains(s, f)
    {
      var j :| OccursAt(s[k..], f, j);
      assert s[k + j..k + j + |f|] == s[k..][j..j + |f|];
      assert OccursAt(s, f, k + j);
    }
  }

  /** Where no match begins at the front, the first character joins a clean first field
      of the rest without making it unclean. */
  lemma FirstCharClean(s: String, f: String)
    requires |s| > 0 && MatchLen(s, 0) == 0
    requires Clean(f) && f <= s[1..]
    ensures Clean([s[0]] + f)
  {
    var t := [s[0]] + f;
    forall k | 0 <= k < |t| - 1
      ensures !(IsSpace(t[k]) && IsSpace(t[k + 1]))
    {
      if k == 0 {
        assert t[1] == f[0] == s[1];
      } else {
        assert t[k] == f[k - 1] && t[k + 1] == f[k];
      }
    }
    forall k | 0 <= k < |t|
      ensures t[k] != '\t'
    {
      if k > 0 {
        assert t[k] == f[k - 1];
      }
    }
  }

  /** No match begins anywhere in a clean string. */
  lemma NoMatchInClean(s: String)
    requires Clean(s)
    ensures forall k :: 0 <= k < |s| ==> MatchLen(s, k) == 0
  {
    forall k | 0 <= k < |s|
      ensures MatchLen(s, k) == 0
    {
      if k + 1 < |s| {
        assert !(IsSpace(s[k]) && IsSpace(s[k + 1]));
      }
    }
  }

  /** A line with no tab and no two adjacent whitespace characters is one field. */
  lemma {:induction false} SplitCleanLine(s: String)
    requires Clean(s)
    ensures Split(s) == [s]
    decreases |s|
  {
    if |s| > 0 {
      NoMatchInClean(s);
      assert Clean(s[1..]) by {
        forall k | 0 <= k < |s[1..]| - 1
          ensures !(IsSpace(s[1..][k]) && IsSpace(s[1..][k + 1]))
        {
          assert s[1..][k] == s[k + 1] && s[1..][k + 1] == s[k + 2];
        }
      }
      SplitCleanLine(s[1..]);
      assert [s[0]] + s[1..] == s;
    }
  }

  /** A separator the split consumes whole: a run of tabs, or two or more
      whitespace characters that do not start with a tab. */
  predicate Separator(sep: String) {
    || (|sep| >= 1 && forall k :: 0 <= k < |sep| ==> sep[k] == '\t')
    || (|sep| >= 2 && sep[0] != '\t' && forall k :: 0 <= k < |sep| ==> IsSpace(sep[k]))
  }

  /** Matching looks only forward, so a prefix does not change the runs after it. */
  lemma {:induction false} RunsShift(p: String, r: String, k: nat)
    requires k <= |r|
    ensures TabRun(p + r, |p| + k) == TabRun(r, k)
    ensures SpaceRun(p + r, |p| + k) == SpaceRun(r, k)
    decreases |r| - k
  {
    if k < |r| {
      assert (p + r)[|p| + k] == r[k];
      RunsShift(p, r, k + 1);
    }
  }

  lemma MatchShift(p: String, r: String, k: nat)
    requires k < |r|
    ensures MatchLen(p + r, |p| + k) == MatchLen(r, k)
  {
    RunsShift(p, r, k);
    assert (p + r)[|p| + k] == r[k];
    if k + 1 < |r| {
      assert (p + r)[|p| + k + 1] == r[k + 1];
    }
  }

  /** A stretch in which no match begins is glued onto the first field of what follows. */
  lemma {:induction false} SplitGlue(a: String, t: String)
    requires forall k :: 0 <= k < |a| ==> MatchLen(a + t, k) == 0
    ensures Split(a + t) == [a + Split(t)[0]] + Split(t)[1..]
    decreases |a|
  {
    var fs := Split(t);
    if |a| == 0 {
      assert a + t == t;
      assert a + fs[0] == fs[0];
      assert [fs[0]] + fs[1..] == fs;
    } else {
      var s := a + t;
      var r := a[1..] + t;
      assert s[1..] == r;
      forall k | 0 <= k < |a[1..]|
        ensures MatchLen(r, k) == 0
      {
        assert s == [a[0]] + r;
        MatchShift([a[0]], r, k);
      }
      SplitGlue(a[1..], t);
      SplitCons(s);
      var rs := Split(r);
      assert rs[0] == a[1..] + fs[0];
      assert rs[1..] == fs[1..];
      assert [s[0]] + rs[0] == a + fs[0] by {
        assert s[0] == a[0];
        assert [a[0]] + a[1..] == a;
      }
    }
  }

  /** Where no match begins at the front, the first character opens the first field. */
  lemma SplitCons(s: String)
    requires |s| > 0 && MatchLen(s, 0) == 0
    ensures Split(s) == [[s[0]] + Split(s[1..])[0]] + Split(s[1..])[1..]
  {
  }

  /** A whole separator at the front ends an empty first field. */
  lemma SplitAfterSeparator(sep: String, rest: String)
    requires Separator(sep)
    requires |rest| > 0 && !IsSpace(rest[0])
    ensures Split(sep + rest) == [[]] + Split(rest)
  {
    SeparatorMatch([], sep, rest);
    assert [] + sep + rest == sep + rest;
    assert (sep + rest)[|sep|..] == rest;
  }

  /** A clean field followed by a whole separator is cut off as the first field. */
  lemma SplitFirstField(a: String, sep: String, rest: String)
    requires |a| > 0 && Clean(a) && !IsSpace(a[|a| - 1])
    requires Separator(sep)
    requires |rest| > 0 && !IsSpace(rest[0])
    ensures Split(a + sep + rest) == [a] + Split(rest)
  {
    var t := sep + rest;
    assert a + sep + rest == a + t;
    NoMatchInField(a, sep, rest);
    SplitAfterSeparator(sep, rest);
    SplitGlue(a, t);
    assert a + [] == a;
  }

  lemma NoMatchInField(a: String, sep: String, rest: String)
    requires |a| > 0 && Clean(a) && !IsSpace(a[|a| - 1])
    ensures forall k :: 0 <= k < |a| ==> MatchLen(a + sep + rest, k) == 0
  {
    var s := a + sep + rest;
    forall k | 0 <= k < |a|
      ensures MatchLen(s, k) == 0
    {
      assert s[k] == a[k];
      if k + 1 < |a| {
        assert s[k + 1] == a[k + 1];
      }
    }
  }

  lemma SeparatorMatch(a: String, sep: String, rest: String)
    requires Separator(sep)
    requires |rest| > 0 && !IsSpace(rest[0])
    ensures |a| < |a + sep + rest| && MatchLen(a + sep + rest, |a|) == |sep|
  {
    var s := a + sep + rest;
    forall k | |a| <= k < |a| + |sep|
      ensures s[k] == sep[k - |a|]
    {
    }
    assert s[|a| + |sep|] == rest[0];
    if sep[0] == '\t' {
      TabRunExact(s, |a|, |sep|);
    } else {
      SpaceRunExact(s, |a|, |sep|);
    }
  }

  lemma {:induction false} TabRunExact(s: String, i: nat, n: nat)
    requires i + n < |s|
    requires forall k :: i <= k < i + n ==> s[k] == '\t'
    requires !IsSpace(s[i + n])
    ensures TabRun(s, i) == n
    decreases n
  {
    if n > 0 {
      TabRunExact(s, i + 1, n - 1);
    }
  }

  lemma {:induction false} SpaceRunExact(s: String, i: nat, n: nat)
    requires i + n < |s|
    requires forall k :: i <= k < i + n ==> IsSpace(s[k])
    requires !IsSpace(s[i + n])
    ensures SpaceRun(s, i) == n
    decreases n
  {
    if n > 0 {
      SpaceRunExact(s, i + 1, n - 1);
    }
  }

  /** The separators `Split` cuts `s` at, left to right: the text between consecutive fields. */
  function Separators(s: String): (seps: seq<String>)
    ensures |seps| == |Split(s)| - 1
    ensures forall sep :: sep in seps ==> Separator(sep)
    decreases |s|
  {
    if |s| == 0 then []
    else if MatchLen(s, 0) > 0 then
      var m := MatchLen(s, 0);
      MatchIsSeparator(s);
      [s[..m]] + Separators(s[m..])
    else
      Separators(s[1..])
  }

  /** The match at the front of a line is a whole separator. */
  lemma MatchIsSeparator(s: String)
    requires |s| > 0 && MatchLen(s, 0) > 0
    ensures Separator(s[..MatchLen(s, 0)])
  {
    var m := MatchLen(s, 0);
    if s[0] == '\t' {
      assert forall k :: 0 <= k < m ==> s[..m][k] == s[k];
    } else {
      assert m == SpaceRun(s, 0);
      assert forall k :: 0 <= k < m ==> s[..m][k] == s[k];
    }
  }

  /** `fields[0] + seps[0] + fields[1] + ... + fields[n]`: the fields put back between
      the separators. */
  function Interleave(fields: seq<String>, seps: seq<String>): String
    requires |fields| == |seps| + 1
    decreases |seps|
  {
    if |seps| == 0 then fields[0]
    else fields[0] + seps[0] + Interleave(fields[1..], seps[1..])
  }

  /** The split loses nothing: its fields, put back between its separators, give the line. */
  lemma {:induction false} SplitRoundTrip(s: String)
    ensures Interleave(Split(s), Separators(s)) == s
    decreases |s|
  {
    if |s| == 0 {
    } else if MatchLen(s, 0) > 0 {
      SplitRoundTrip(s[MatchLen(s, 0)..]);
      RoundTripAtMatch(s);
    } else {
      SplitRoundTrip(s[1..]);
      RoundTripPastChar(s);
    }
  }

  lemma RoundTripAtMatch(s: String)
    requires |s| > 0 && MatchLen(s, 0) > 0
    requires Interleave(Split(s[MatchLen(s, 0)..]), Separators(s[MatchLen(s, 0)..])) == s[MatchLen(s, 0)..]
    ensures Interleave(Split(s), Separators(s)) == s
  {
    var m := MatchLen(s, 0);
    CutAtMatch(s);
    Reassemble(s, m, Split(s[m..]), Separators(s[m..]));
  }

  /** A separator taken off the front, put back in front of the rest's interleaving. */
  lemma Reassemble(s: String, m: nat, fields: seq<String>, seps: seq<String>)
    requires m <= |s| && |fields| == |seps| + 1
    requires Interleave(fields, seps) == s[m..]
    ensures Interleave([[]] + fields, [s[..m]] + seps) == s
  {
    InterleaveEmptyFirst(s[..m], fields, seps);
    assert s[..m] + s[m..] == s;
  }

  lemma RoundTripPastChar(s: String)
    requires |s| > 0 && MatchLen(s, 0) == 0
    requires Interleave(Split(s[1..]), Separators(s[1..])) == s[1..]
    ensures Interleave(Split(s), Separators(s)) == s
  {
    CutPastChar(s);
    InterleaveCons(s[0], Split(s[1..]), Separators(s[1..]));
    assert [s[0]] + s[1..] == s;
  }

  /** A match at the front gives an empty first field and the match as first separator. */
  lemma CutAtMatch(s: String)
    requires |s| > 0 && MatchLen(s, 0) > 0
    ensures Split(s) == [[]] + Split(s[MatchLen(s, 0)..])
    ensures Separators(s) == [s[..MatchLen(s, 0)]] + Separators(s[MatchLen(s, 0)..])
  {
  }

  /** Without a match at the front, the first character joins the first field of the rest. */
  lemma CutPastChar(s: String)
    requires |s| > 0 && MatchLen(s, 0) == 0
    ensures Split(s) == [[s[0]] + Split(s[1..])[0]] + Split(s[1..])[1..]
    ensures Separators(s) == Separators(s[1..])
  {
  }

  /** An empty first field and a separator in front give the separator in front. */
  lemma InterleaveEmptyFirst(sep: String, fields: seq<String>, seps: seq<String>)
    requires |fields| == |seps| + 1
    ensures Interleave([[]] + fields, [sep] + seps) == sep + Interleave(fields, seps)
  {
    var fs := [[]] + fields;
    var ss := [sep] + seps;
    assert fs[0] == [] && ss[0] == sep;
    assert fs[1..] == fields && ss[1..] == seps;
    assert Interleave(fs, ss) == fs[0] + ss[0] + Interleave(fs[1..], ss[1..]);
    assert [] + sep == sep;
  }

  /** `fields` and `seps` are what scanning `t` cuts it into, leftmost match first: the
      first field runs from the front to the first offset where a match begins, so no match
      begins inside it; that match, taken whole, is the first separator; and the scan
      resumes right after it. With no match left, the first field is all of `t`. */
  predicate Scanned(t: String, fields: seq<String>, seps: seq<String>)
    decreases |seps|
  {
    && ScanHead(t, fields, seps)
    && (|seps| > 0 ==> Scanned(t[|fields[0]| + |seps[0]|..], fields[1..], seps[1..]))
  }

  /** The first field and the first cut of a scan. */
  predicate ScanHead(t: String, fields: seq<String>, seps: seq<String>) {
    && |fields| == |seps| + 1
    && Leads(t, fields[0])
    && (|seps| == 0 ==> |fields[0]| == |t|)
    && (|seps| > 0 ==> CutAt(t, |fields[0]|, seps[0]))
  }

  /** `f` is a prefix of `t` and no match begins inside it. */
  predicate Leads(t: String, f: String) {
    && f <= t
    && forall k :: 0 <= k < |f| ==> MatchLen(t, k) == 0
  }

  /** A match begins at offset `q` of `t` and `sep` is the whole of it. */
  predicate CutAt(t: String, q: nat, sep: String) {
    && q < |t| && MatchLen(t, q) > 0
    && sep == t[q..q + MatchLen(t, q)]
  }

  /** A scan is its first field, its first cut, and the scan of what follows the cut. */
  lemma ScanStep(t: String, fields: seq<String>, seps: seq<String>)
    requires |fields| == |seps| + 1 && |seps| > 0
    requires Leads(t, fields[0]) && CutAt(t, |fields[0]|, seps[0])
    requires Scanned(t[|fields[0]| + |seps[0]|..], fields[1..], seps[1..])
    ensures Scanned(t, fields, seps)
  {
  }

  /** The scan is determined by the line: two cuttings that both follow it are the same. */
  lemma {:induction false} ScanUnique(t: String, fields: seq<String>, seps: seq<String>,
                                      fields': seq<String>, seps': seq<String>)
    requires Scanned(t, fields, seps) && Scanned(t, fields', seps')
    ensures fields == fields' && seps == seps'
    decreases |seps|
  {
    FirstFieldUnique(t, fields, seps, fields', seps');
    ScanHeadOf(t, fields, seps);
    ScanHeadOf(t, fields', seps');
    if |seps| == 0 {
      Recons(fields, fields');
    } else {
      var r := t[|fields[0]| + |seps[0]|..];
      ScanTail(t, fields, seps);
      ScanTail(t, fields', seps');
      assert t[|fields'[0]| + |seps'[0]|..] == r;
      ScanUnique(r, fields[1..], seps[1..], fields'[1..], seps'[1..]);
      Recons(fields, fields');
      Recons(seps, seps');
    }
  }

  lemma ScanHeadOf(t: String, fields: seq<String>, seps: seq<String>)
    requires Scanned(t, fields, seps)
    ensures ScanHead(t, fields, seps)
  {
  }

  /** What follows a scan's first cut is scanned in turn. */
  lemma ScanTail(t: String, fields: seq<String>, seps: seq<String>)
    requires Scanned(t, fields, seps) && |seps| > 0
    ensures |fields[0]| + |seps[0]| <= |t|
    ensures Scanned(t[|fields[0]| + |seps[0]|..], fields[1..], seps[1..])
  {
  }

  /** Both cuttings end their first field at the same place and cut the same separator there. */
  lemma FirstFieldUnique(t: String, fields: seq<String>, seps: seq<String>,
                         fields': seq<String>, seps': seq<String>)
    requires ScanHead(t, fields, seps) && ScanHead(t, fields', seps')
    ensures fields[0] == fields'[0] && (|seps| == 0 <==> |seps'| == 0)
    ensures |seps| > 0 ==> seps[0] == seps'[0]
  {
    LongestLead(t, fields, seps, fields'[0]);
    LongestLead(t, fields', seps', fields[0]);
    SamePrefix(fields[0], fields'[0], t);
  }

  /** No prefix free of matches reaches past the scan's first field. */
  lemma LongestLead(t: String, fields: seq<String>, seps: seq<String>, f: String)
    requires ScanHead(t, fields, seps) && Leads(t, f)
    ensures |f| <= |fields[0]|
  {
  }

  lemma SamePrefix<T>(a: seq<T>, b: seq<T>, t: seq<T>)
    requires a <= t && b <= t && |a| == |b|
    ensures a == b
  {
    assert a == t[..|a|] && b == t[..|b|];
  }

  /** Two non-empty sequences with the same head and tail are equal. */
  lemma Recons<T>(a: seq<T>, b: seq<T>)
    requires |a| > 0 && |b| > 0 && a[0] == b[0] && a[1..] == b[1..]
    ensures a == b
  {
    assert a == [a[0]] + a[1..];
    assert b == [b[0]] + b[1..];
  }

  /** `Split` and `Separators` cut the line exactly as the leftmost-first scan does: every
      separator is the whole match at its offset, and no match begins inside a field. */
  lemma {:induction false} SplitScans(s: String)
    ensures Scanned(s, Split(s), Separators(s))
    decreases |s|
  {
    if |s| == 0 {
      assert Leads(s, []);
    } else if MatchLen(s, 0) > 0 {
      var m := MatchLen(s, 0);
      SplitScans(s[m..]);
      CutAtMatch(s);
      ScanMatch(s, Split(s[m..]), Separators(s[m..]));
    } else {
      SplitScans(s[1..]);
      CutPastChar(s);
      ScanCons(s, Split(s[1..]), Separators(s[1..]));
    }
  }

  /** A cutting of `s` into fields and separators follows the leftmost-first scan exactly
      when it is the one `Split` and `Separators` give. */
  lemma ScanIsSplit(s: String, fields: seq<String>, seps: seq<String>)
    ensures Scanned(s, fields, seps) <==> fields == Split(s) && seps == Separators(s)
  {
    SplitScans(s);
    if Scanned(s, fields, seps) {
      ScanUnique(s, fields, seps, Split(s), Separators(s));
    }
  }

  /** Two tabs in a row are one separator: `a<TAB><TAB>b` is cut into `a` and `b` around
      `<TAB><TAB>`, and the cutting into `a`, an empty field and `b` around two single
      tabs does not follow the scan. */
  lemma DoubleTab()
    ensures Split("a\t\tb") == ["a", "b"] && Separators("a\t\tb") == ["\t\t"]
    ensures !Scanned("a\t\tb", ["a", "", "b"], ["\t", "\t"])
  {
    var s := "a\t\tb";
    assert s == "a" + "\t\t" + "b";
    assert Word("a") && Word("b");
    assert Separator("\t\t");
    SplitTwo("a", "\t\t", "b");
    SeparatorsDoubleTab(s);
    ScanIsSplit(s, ["a", "", "b"], ["\t", "\t"]);
  }

  lemma SeparatorsDoubleTab(s: String)
    requires s == "a\t\tb"
    ensures Separators(s) == ["\t\t"]
  {
    assert MatchLen(s, 0) == 0;
    assert s[1..] == "\t\tb";
    TabRunExact(s[1..], 0, 2);
    assert MatchLen(s[1..], 0) == 2;
    assert s[1..][2..] == "b";
    assert s[1..][..2] == "\t\t";
    assert MatchLen("b", 0) == 0;
    assert "b"[1..] == [];
  }

  /** A match at the front opens the scan with an empty field and the match as separator. */
  lemma ScanMatch(t: String, fields: seq<String>, seps: seq<String>)
    requires |t| > 0 && MatchLen(t, 0) > 0
    requires Scanned(t[MatchLen(t, 0)..], fields, seps)
    ensures Scanned(t, [[]] + fields, [t[..MatchLen(t, 0)]] + seps)
  {
    var fs, ss := [[]] + fields, [t[..MatchLen(t, 0)]] + seps;
    assert fs[1..] == fields && ss[1..] == seps;
    assert Leads(t, fs[0]);
    ScanStep(t, fs, ss);
  }

  /** A first character where no match begins opens the first field of the scan that follows. */
  lemma ScanCons(t: String, fields: seq<String>, seps: seq<String>)
    requires |t| > 0 && MatchLen(t, 0) == 0
    requires Scanned(t[1..], fields, seps)
    ensures Scanned(t, [[t[0]] + fields[0]] + fields[1..], seps)
  {
    var fs := [[t[0]] + fields[0]] + fields[1..];
    HeadCons(t, fields, seps);
    if |seps| > 0 {
      ConsRest(t, fields, seps, fs);
      ScanFromHead(t, fs, seps);
    }
  }

  lemma ConsRest(t: String, fields: seq<String>, seps: seq<String>, fs: seq<String>)
    requires |fields| == |seps| + 1 && |seps| > 0 && |fields[0]| + |seps[0]| < |t|
    requires fs == [[t[0]] + fields[0]] + fields[1..]
    requires Scanned(t[1..][|fields[0]| + |seps[0]|..], fields[1..], seps[1..])
    ensures Scanned(t[|fs[0]| + |seps[0]|..], fs[1..], seps[1..])
  {
    DropTail(t, |fields[0]| + |seps[0]|);
    assert fs[1..] == fields[1..];
  }

  lemma ScanFromHead(t: String, fields: seq<String>, seps: seq<String>)
    requires ScanHead(t, fields, seps) && |seps| > 0
    requires Scanned(t[|fields[0]| + |seps[0]|..], fields[1..], seps[1..])
    ensures Scanned(t, fields, seps)
  {
  }

  lemma HeadCons(t: String, fields: seq<String>, seps: seq<String>)
    requires |t| > 0 && MatchLen(t, 0) == 0
    requires ScanHead(t[1..], fields, seps)
    ensures ScanHead(t, [[t[0]] + fields[0]] + fields[1..], seps)
  {
    var fs := [[t[0]] + fields[0]] + fields[1..];
    assert fs[0] == [t[0]] + fields[0];
    LeadsCons(t, fields[0]);
    if |seps| > 0 {
      CutTail(t, |fields[0]|, seps[0]);
    }
  }

  lemma CutTail(t: String, q: nat, sep: String)
    requires |t| > 0 && CutAt(t[1..], q, sep)
    ensures CutAt(t, q + 1, sep)
  {
    MatchTail(t, q + 1);
    assert t[q + 1..q + 1 + MatchLen(t, q + 1)] == t[1..][q..q + MatchLen(t[1..], q)];
  }

  lemma DropTail<T>(t: seq<T>, n: nat)
    requires n < |t|
    ensures t[n + 1..] == t[1..][n..]
  {
  }

  lemma LeadsCons(t: String, f: String)
    requires |t| > 0 && MatchLen(t, 0) == 0
    requires Leads(t[1..], f)
    ensures Leads(t, [t[0]] + f)
  {
    assert t == [t[0]] + t[1..];
    forall k | 0 < k < |f| + 1
      ensures MatchLen(t, k) == 0
    {
      MatchTail(t, k);
    }
  }

  /** Matching looks only forward: dropping the first character shifts every match by one. */
  lemma MatchTail(t: String, k: nat)
    requires 0 < k < |t|
    ensures MatchLen(t, k) == MatchLen(t[1..], k - 1)
  {
    assert t == [t[0]] + t[1..];
    MatchShift([t[0]], t[1..], k - 1);
  }

  /** A character put in front of the first field is put in front of the whole text. */
  lemma InterleaveCons(c: char, fields: seq<String>, seps: seq<String>)
    requires |fields| == |seps| + 1
    ensures Interleave([[c] + fields[0]] + fields[1..], seps) == [c] + Interleave(fields, seps)
  {
    var glued := [[c] + fields[0]] + fields[1..];
    if |seps| > 0 {
      assert glued[1..] == fields[1..];
      Regroup3([c], fields[0], seps[0], Interleave(fields[1..], seps[1..]));
    }
  }

  lemma Regroup3(a: String, b: String, c: String, d: String)
    ensures (a + b) + c + d == a + (b + c + d)
  {
  }

  /** A single field on one line: not empty, clean, no blank at either end, no newline. */
  predicate Word(s: String) {
    && |s| > 0 && Clean(s) && !IsSpace(s[0]) && !IsSpace(s[|s| - 1])
    && '\n' !in s
  }

  /** Words joined by single blanks still form one field. */
  lemma WordsJoin(a: String, b: String, s: String)
    requires Word(a) && Word(b) && s == a + " " + b
    ensures Word(s)
  {
    var n := |a|;
    assert forall k :: 0 <= k < n ==> s[k] == a[k];
    assert s[n] == ' ';
    assert forall k :: n < k < |s| ==> s[k] == b[k - n - 1];
    forall k | 0 <= k < |s| - 1
      ensures !(IsSpace(s[k]) && IsSpace(s[k + 1]))
    {
      if k + 1 < n {
      } else if k + 1 == n {
        assert !IsSpace(a[n - 1]);
      } else if k == n {
        assert !IsSpace(b[0]);
      } else {
        assert s[k] == b[k - n - 1] && s[k + 1] == b[k - n];
      }
    }
  }

  /** Two words around a separator split into exactly those two fields. */
  lemma SplitTwo(a: String, sep: String, b: String)
    requires Word(a) && Word(b) && Separator(sep)
    ensures Split(a + sep + b) == [a, b]
  {
    SplitCleanLine(b);
    SplitFirstField(a, sep, b);
  }

  /** Three words around two separators split into exactly those three fields. */
  lemma SplitThree(a: String, sep: String, b: String, sep': String, c: String)
    requires Word(a) && Word(b) && Word(c) && Separator(sep) && Separator(sep')
    ensures Split(a + sep + b + sep' + c) == [a, b, c]
  {
    var rest := b + sep' + c;
    TwoWordTail(b, sep', c);
    SplitFirstField(a, sep, rest);
    Regroup(a, sep, b, sep', c);
  }

  /** The last two words and their separator: they split in two and start with a non-blank. */
  lemma TwoWordTail(b: String, sep: String, c: String)
    requires Word(b) && Word(c) && Separator(sep)
    ensures |b + sep + c| > 0 && !IsSpace((b + sep + c)[0])
    ensures Split(b + sep + c) == [b, c]
  {
    assert (b + sep + c)[0] == b[0];
    SplitTwo(b, sep, c);
  }

  lemma Regroup(a: String, sep: String, b: String, sep': String, c: String)
    ensures a + sep + b + sep' + c == a + sep + (b + sep' + c)
  {
  }

  /** The separators of the sample rows: a tab, and a blank followed by a tab. */
  lemma TabSeparator()
    ensures Separator("\t") && Separator(" \t")
  {
    assert " \t"[0] == ' ' && " \t"[1] == '\t';
  }
}
