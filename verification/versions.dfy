/**
 The two parsers side by side: on the lines the application's own sample
 shows (one code field, at most one status field, no surrounding blanks) they
 agree; on lines with two code fields, or a header preceded by a blank, they
 do not.
 */
module Versions {
  import opened Strings
  import opened Wrappers
  import opened Tokenizer
  import opened Courses
  import D = DesktopParser
  import R = RootParser

  /** A stripped line with exactly one code field, whose text is not empty and is not a
      status word, and with at most one status field. */
  ghost predicate Unambiguous(raw: String, table: CourseTable, k: int) {
    var fields := R.Fields(raw);
    && raw == Strip(raw)
    && R.LastCodeAt(fields, table, k)
    && (forall j :: 0 <= j < k ==> !R.IsCode(fields[j], table))
    && Strip(fields[k]) != []
    && StatusWord(Strip(fields[k])).None?
    && (forall i, j :: 0 <= i < j < |fields| ==> !(R.IsStatus(fields[i], table) && R.IsStatus(fields[j], table)))
  }

  /** On an unambiguous line both parsers produce the same entry, or both skip it. */
  lemma VersionsAgree(raw: String, table: CourseTable, order: seq<String>, k: int)
    requires D.SameCodes(order, table)
    requires Unambiguous(raw, table, k)
    ensures D.ParseLine(raw, table, order) == R.ParseLine(raw, table)
  {
    if !R.Skipped(raw) {
      var fields := R.Fields(raw);
      assert D.SkippedLine(raw) == R.Skipped(raw);
      var code := Strip(fields[k]);
      SameCode(raw, table, order, k);
      R.LastCodeWins(raw, table, k);
      var entry := R.ParseLine(raw, table).value;
      assert entry.code == code;
      var dst := D.ExtractAttendanceStatus(fields, raw);
      assert D.ParseLine(raw, table, order) == Some(Entry(code, Lookup(table, code).value, dst));
      SameStatus(raw, table, k);
    }
  }

  /** Both parsers pick field `k` as the code of an unambiguous line. */
  lemma SameCode(raw: String, table: CourseTable, order: seq<String>, k: int)
    requires D.SameCodes(order, table)
    requires Unambiguous(raw, table, k)
    ensures D.ExtractCourseCode(R.Fields(raw), raw, order) == Some(Strip(R.Fields(raw)[k]))
  {
    OnlyCodeField(R.Fields(raw), table, order, k);
  }

  /** The only code field is the first exact field in any listing of the codes. */
  lemma OnlyCodeField(fields: seq<String>, table: CourseTable, order: seq<String>, k: int)
    requires D.SameCodes(order, table)
    requires R.LastCodeAt(fields, table, k)
    requires forall j :: 0 <= j < k ==> !R.IsCode(fields[j], table)
    ensures D.FirstExactCode(fields, order) == Some(Strip(fields[k]))
  {
    var code := Strip(fields[k]);
    assert code in order;
    assert D.HasExactField(fields, order);
    var r := D.FirstExactCode(fields, order);
    var k0 :| D.FirstExactAt(fields, order, k0) && r.value == Strip(fields[k0]);
    assert R.IsCode(fields[k0], table);
    assert k0 == k;
  }

  /** Both parsers pick the same status on an unambiguous line. */
  lemma SameStatus(raw: String, table: CourseTable, k: int)
    requires Unambiguous(raw, table, k)
    requires R.ParseLine(raw, table).Some?
    ensures D.ExtractAttendanceStatus(R.Fields(raw), raw) == R.ParseLine(raw, table).value.status
  {
    var fields := R.Fields(raw);
    if i :| 0 <= i < |fields| && R.IsStatus(fields[i], table) {
      OnlyStatusField(fields, table, k, i, raw);
      R.LastStatusWins(raw, table, i);
    } else {
      NoStatusField(fields, table, k);
      R.FallbackStatus(raw, table);
    }
  }

  /** The one status field of a line whose only code field is not a status word is the
      first status field for the Desktop parser and the last for the root parser. */
  lemma OnlyStatusField(fields: seq<String>, table: CourseTable, k: int, i: int, line: String)
    requires R.LastCodeAt(fields, table, k) && (forall j :: 0 <= j < k ==> !R.IsCode(fields[j], table))
    requires StatusWord(Strip(fields[k])).None?
    requires forall a, b :: 0 <= a < b < |fields| ==> !(R.IsStatus(fields[a], table) && R.IsStatus(fields[b], table))
    requires 0 <= i < |fields| && R.IsStatus(fields[i], table)
    ensures Some(D.ExtractAttendanceStatus(fields, line)) == StatusWord(Strip(fields[i]))
    ensures R.LastStatusAt(fields, table, i)
  {
    FirstOfOne(fields, table, k, i);
    D.FirstStatusUnique(fields, i);
    assert D.HasStatusField(fields);
  }

  /** Before the one status field, no field spells a status. */
  lemma FirstOfOne(fields: seq<String>, table: CourseTable, k: int, i: int)
    requires R.LastCodeAt(fields, table, k) && (forall j :: 0 <= j < k ==> !R.IsCode(fields[j], table))
    requires StatusWord(Strip(fields[k])).None?
    requires forall a, b :: 0 <= a < b < |fields| ==> !(R.IsStatus(fields[a], table) && R.IsStatus(fields[b], table))
    requires 0 <= i < |fields| && R.IsStatus(fields[i], table)
    ensures D.FirstStatusAt(fields, i)
  {
    forall j | 0 <= j < i
      ensures StatusWord(Strip(fields[j])).None?
    {
      if j != k {
        assert !R.IsCode(fields[j], table);
        assert !R.IsStatus(fields[j], table);
      }
    }
  }

  /** With no status field for the root parser, no field spells a status at all. */
  lemma NoStatusField(fields: seq<String>, table: CourseTable, k: int)
    requires R.LastCodeAt(fields, table, k) && (forall j :: 0 <= j < k ==> !R.IsCode(fields[j], table))
    requires StatusWord(Strip(fields[k])).None?
    requires forall i :: 0 <= i < |fields| ==> !R.IsStatus(fields[i], table)
    ensures !D.HasStatusField(fields)
  {
    forall j | 0 <= j < |fields|
      ensures StatusWord(Strip(fields[j])).None?
    {
      if j != k {
        assert !R.IsCode(fields[j], table);
      }
    }
  }

  /** Two code fields: the Desktop parser keeps the first, the root parser the last. */
  lemma FirstVersusLastCode(a: String, b: String, table: CourseTable, order: seq<String>)
    requires D.SameCodes(order, table)
    requires Word(a) && Word(b) && a[0] != 'S'
    requires a in Codes(table) && b in Codes(table)
    ensures D.ParseLine(a + "\t" + b, table, order).Some?
    ensures D.ParseLine(a + "\t" + b, table, order).value.code == a
    ensures R.ParseLine(a + "\t" + b, table).Some?
    ensures R.ParseLine(a + "\t" + b, table).value.code == b
  {
    var raw := a + "\t" + b;
    TwoFields(a, b);
    var fields := [a, b];
    assert D.FirstExactAt(fields, order, 0);
    assert D.FirstExactCode(fields, order) == Some(a);
    assert D.ExtractCourseCode(fields, raw, order) == Some(a);
    assert R.LastCodeAt(fields, table, 1);
    R.LastCodeWins(raw, table, 1);
  }

  /** The line `a<TAB>b` is trimmed, is no header, and has the fields `a` and `b`. */
  lemma TwoFields(a: String, b: String)
    requires Word(a) && Word(b) && a[0] != 'S'
    ensures Strip(a + "\t" + b) == a + "\t" + b && !("S.No" <= a + "\t" + b)
    ensures Strip(a) == a && Strip(b) == b
    ensures Split(a + "\t" + b) == [a, b]
  {
    var raw := a + "\t" + b;
    assert raw[0] == a[0] && raw[|raw| - 1] == b[|b| - 1];
    StripTrimmed(raw);
    StripTrimmed(a);
    StripTrimmed(b);
    TabSeparator();
    SplitTwo(a, "\t", b);
  }

  /** A header behind a blank: the Desktop parser strips the line and skips it as a
      header; the root parser tests the unstripped line and reads its code. */
  lemma IndentedHeader(c: char, h: String, code: String, table: CourseTable, order: seq<String>)
    requires IsSpace(c) && Word(h) && "S.No" <= h
    requires Word(code) && code in Codes(table)
    ensures D.ParseLine([c] + h + "\t" + code, table, order).None?
    ensures R.ParseLine([c] + h + "\t" + code, table).Some?
    ensures R.ParseLine([c] + h + "\t" + code, table).value.code == code
  {
    var raw := [c] + h + "\t" + code;
    IndentedHeaderLine(c, h, code);
    StripTrimmed(code);
    assert R.LastCodeAt([h, code], table, 1);
    R.LastCodeWins(raw, table, 1);
  }

  /** The indented header line strips to a header, is not one itself, and has two fields. */
  lemma IndentedHeaderLine(c: char, h: String, code: String)
    requires IsSpace(c) && Word(h) && "S.No" <= h && Word(code)
    ensures var raw := [c] + h + "\t" + code;
            D.SkippedLine(raw) && !R.Skipped(raw) && R.Fields(raw) == [h, code]
  {
    var line := h + "\t" + code;
    var raw := [c] + h + "\t" + code;
    IndentedRegroup(c, h, code);
    assert line[0] == h[0] && line[|line| - 1] == code[|code| - 1];
    StripIndented(c, line);
    assert line[..4] == h[..4];
    assert raw[0] == c;
    TabSeparator();
    SplitTwo(h, "\t", code);
  }

  lemma IndentedRegroup(c: char, h: String, code: String)
    ensures [c] + h + "\t" + code == [c] + (h + "\t" + code)
  {
  }

  /** Two status fields: the Desktop parser takes the first, the root parser the last. */
  lemma FirstVersusLastStatus(code: String, s1: String, s2: String, table: CourseTable, order: seq<String>)
    requires D.SameCodes(order, table)
    requires Word(code) && code[0] != 'S' && code in Codes(table)
    requires Word(s1) && Word(s2) && s1 !in Codes(table) && s2 !in Codes(table)
    requires StatusWord(code).None? && StatusWord(s1).Some? && StatusWord(s2).Some?
    ensures D.ParseLine(code + "\t" + s1 + "\t" + s2, table, order).Some?
    ensures D.ParseLine(code + "\t" + s1 + "\t" + s2, table, order).value.status == StatusWord(s1).value
    ensures R.ParseLine(code + "\t" + s1 + "\t" + s2, table).Some?
    ensures R.ParseLine(code + "\t" + s1 + "\t" + s2, table).value.status == StatusWord(s2).value
  {
    ThreeFields(code, s1, s2);
    DesktopFirstStatus(code, s1, s2, table, order);
    RootLastStatus(code, s1, s2, table);
  }

  lemma DesktopFirstStatus(code: String, s1: String, s2: String, table: CourseTable, order: seq<String>)
    requires D.SameCodes(order, table) && code in Codes(table)
    requires StatusWord(Strip(code)).None? && StatusWord(Strip(s1)).Some?
    requires Strip(code) == code
    ensures D.ExtractCourseCode([code, s1, s2], code + "\t" + s1 + "\t" + s2, order) == Some(code)
    ensures D.ExtractAttendanceStatus([code, s1, s2], code + "\t" + s1 + "\t" + s2) == StatusWord(Strip(s1)).value
  {
    var fields := [code, s1, s2];
    var raw := code + "\t" + s1 + "\t" + s2;
    assert D.FirstExactAt(fields, order, 0);
    assert D.FirstStatusAt(fields, 1);
    var r := D.FirstStatusWord(fields);
    var k :| D.FirstStatusAt(fields, k) && r == StatusWord(Strip(fields[k]));
    assert k == 1;
  }

  lemma RootLastStatus(code: String, s1: String, s2: String, table: CourseTable)
    requires Split(Strip(code + "\t" + s1 + "\t" + s2)) == [code, s1, s2]
    requires !R.Skipped(code + "\t" + s1 + "\t" + s2)
    requires Strip(code) == code && Strip(s1) == s1 && Strip(s2) == s2
    requires code in Codes(table) && code != [] && s1 !in Codes(table) && s2 !in Codes(table)
    requires StatusWord(s2).Some?
    ensures R.ParseLine(code + "\t" + s1 + "\t" + s2, table).Some?
    ensures R.ParseLine(code + "\t" + s1 + "\t" + s2, table).value.status == StatusWord(s2).value
  {
    var raw := code + "\t" + s1 + "\t" + s2;
    CodeThenStatuses(code, s1, s2, table);
    R.LastCodeWins(raw, table, 0);
    R.LastStatusWins(raw, table, 2);
  }

  lemma CodeThenStatuses(code: String, s1: String, s2: String, table: CourseTable)
    requires Strip(code) == code && Strip(s1) == s1 && Strip(s2) == s2
    requires code in Codes(table) && s1 !in Codes(table) && s2 !in Codes(table)
    requires StatusWord(s2).Some?
    ensures R.LastCodeAt([code, s1, s2], table, 0)
    ensures R.LastStatusAt([code, s1, s2], table, 2)
  {
    var fields := [code, s1, s2];
    forall j | 0 < j < |fields|
      ensures !R.IsCode(fields[j], table)
    {
      if j == 1 {
      } else {
        assert j == 2;
      }
    }
  }

  /** The line `code<TAB>s1<TAB>s2` is trimmed, is no header, and has those three fields. */
  lemma ThreeFields(code: String, s1: String, s2: String)
    requires Word(code) && Word(s1) && Word(s2) && code[0] != 'S'
    ensures var raw := code + "\t" + s1 + "\t" + s2;
            Strip(raw) == raw && !("S.No" <= raw) && Split(raw) == [code, s1, s2]
    ensures Strip(code) == code && Strip(s1) == s1 && Strip(s2) == s2
  {
    var raw := code + "\t" + s1 + "\t" + s2;
    assert raw[0] == code[0] && raw[|raw| - 1] == s2[|s2| - 1];
    StripTrimmed(raw);
    StripTrimmed(code);
    StripTrimmed(s1);
    StripTrimmed(s2);
    TabSeparator();
    SplitThree(code, "\t", s1, "\t", s2);
  }
}
