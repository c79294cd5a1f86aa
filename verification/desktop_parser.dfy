/**
 The attendance parser of the Desktop application (`extract_course_code`,
 `extract_attendance_status`, `parse_attendance_data`, `validate_data`).

 The application keeps the known codes twice: as the `courses` dictionary and
 as the set `course_codes` built from its keys. The set's iteration order is
 not specified by the language, so it is a parameter here, `order`: any
 listing of the set. `SameCodes(order, table)` says that `order` lists
 exactly the table's codes.
 */
module DesktopParser {
  import opened Strings
  import opened Wrappers
  import opened Tokenizer
  import opened Courses
  import opened Collect

  /** `order` lists exactly the codes of `table` (it is `set(courses.keys())` in some order). */
  predicate SameCodes(order: seq<String>, table: CourseTable) {
    && (forall c :: c in order ==> c in Codes(table))
    && (forall c :: c in Codes(table) ==> c in order)
  }

  /** Field `k` is the first whose stripped text is one of `codes`. */
  predicate FirstExactAt(fields: seq<String>, codes: seq<String>, k: int) {
    && 0 <= k < |fields|
    && Strip(fields[k]) in codes
    && forall j :: 0 <= j < k ==> Strip(fields[j]) !in codes
  }

  /** Some field's stripped text is one of `codes`. */
  predicate HasExactField(fields: seq<String>, codes: seq<String>) {
    exists k :: 0 <= k < |fields| && Strip(fields[k]) in codes
  }

  /** The first field, left to right, whose stripped text is a known code. */
  function FirstExactCode(fields: seq<String>, codes: seq<String>): (r: Option<String>)
    ensures r.Some? ==> exists k :: FirstExactAt(fields, codes, k) && r.value == Strip(fields[k])
    ensures r.None? <==> !HasExactField(fields, codes)
  {
    if |fields| == 0 then None
    else if Strip(fields[0]) in codes then
      assert FirstExactAt(fields, codes, 0);
      Some(Strip(fields[0]))
    else
      var r := FirstExactCode(fields[1..], codes);
      if r.Some? then
        var k :| FirstExactAt(fields[1..], codes, k) && r.value == Strip(fields[1..][k]);
        forall j | 0 <= j < k + 1
          ensures Strip(fields[j]) !in codes
        {
          if j > 0 {
            assert fields[j] == fields[1..][j - 1];
          }
        }
        assert FirstExactAt(fields, codes, k + 1);
        r
      else
        assert !HasExactField(fields, codes) by {
          forall k | 0 <= k < |fields|
            ensures Strip(fields[k]) !in codes
          {
            if k > 0 {
              assert fields[k] == fields[1..][k - 1];
            }
          }
        }
        r
  }

  /** `extract_course_code`: the first field that is exactly a known code; failing that,
      some known code occurring anywhere in the line; failing that, none. */
  function ExtractCourseCode(fields: seq<String>, line: String, order: seq<String>): (r: Option<String>)
    ensures r.Some? ==> r.value in order
    ensures HasExactField(fields, order) ==>
              exists k :: FirstExactAt(fields, order, k) && r == Some(Strip(fields[k]))
    ensures !HasExactField(fields, order) ==>
              && (r.Some? ==> Contains(line, r.value))
              && (r.None? <==> forall c :: c in order ==> !Contains(line, c))
  {
    var exact := FirstExactCode(fields, order);
    if exact.Some? then exact else FirstContained(order, line)
  }

  /** Field `k` is the first whose stripped text is a status word. */
  predicate FirstStatusAt(fields: seq<String>, k: int) {
    && 0 <= k < |fields|
    && StatusWord(Strip(fields[k])).Some?
    && forall j :: 0 <= j < k ==> StatusWord(Strip(fields[j])).None?
  }

  predicate HasStatusField(fields: seq<String>) {
    exists k :: 0 <= k < |fields| && StatusWord(Strip(fields[k])).Some?
  }

  /** The status a field spells, if any. */
  function FieldStatus(field: String): Option<Status> {
    StatusWord(Strip(field))
  }

  /** The status spelled by the first field that is `present` or `absent` in any case. */
  function FirstStatusWord(fields: seq<String>): (r: Option<Status>)
    ensures r.Some? ==> exists k :: FirstStatusAt(fields, k) && r == StatusWord(Strip(fields[k]))
    ensures r.None? <==> !HasStatusField(fields)
  {
    var r := FirstSome(fields, FieldStatus);
    if r.Some? then
      var k :| FirstSomeAt(fields, FieldStatus, k) && r == FieldStatus(fields[k]);
      assert FirstStatusAt(fields, k);
      r
    else
      assert !HasStatusField(fields) by {
        forall k | 0 <= k < |fields|
          ensures StatusWord(Strip(fields[k])).None?
        {
          assert FieldStatus(fields[k]).None?;
        }
      }
      r
  }

  /** The first status field decides what the status search returns. */
  lemma FirstStatusUnique(fields: seq<String>, i: int)
    requires FirstStatusAt(fields, i)
    ensures FirstStatusWord(fields) == StatusWord(Strip(fields[i]))
  {
    var r := FirstStatusWord(fields);
    assert HasStatusField(fields);
    var i0 :| FirstStatusAt(fields, i0) && r == StatusWord(Strip(fields[i0]));
    assert i0 == i;
  }

  /** `extract_attendance_status`: the first status field wins; otherwise the line's text decides. */
  function ExtractAttendanceStatus(fields: seq<String>, line: String): (st: Status)
    ensures HasStatusField(fields) ==>
              exists k :: FirstStatusAt(fields, k) && Some(st) == StatusWord(Strip(fields[k]))
    ensures !HasStatusField(fields) ==> st == LineStatus(line)
  {
    var word := FirstStatusWord(fields);
    if word.Some? then word.value else LineStatus(line)
  }

  /** A line the parser skips: blank once stripped, or a header starting with `S.No`. */
  predicate SkippedLine(raw: String) {
    var line := Strip(raw);
    line == [] || "S.No" <= line
  }

  /** One pass of the loop body of `parse_attendance_data`. */
  function ParseLine(raw: String, table: CourseTable, order: seq<String>): (r: Option<Entry>)
    ensures SkippedLine(raw) ==> r.None?
    ensures r.Some? ==> r.value.code != [] && Lookup(table, r.value.code) == Some(r.value.name)
    ensures r.Some? ==> Contains(Strip(raw), r.value.code)
  {
    var line := Strip(raw);
    if line == [] || "S.No" <= line then None
    else
      var fields := Split(line);
      var code := ExtractCourseCode(fields, line, order);
      var status := ExtractAttendanceStatus(fields, line);
      if code.Some? && code.value != [] && code.value in Codes(table) then
        assert Contains(line, code.value) by { CodeOccursInLine(fields, line, order); }
        Some(Entry(code.value, Lookup(table, code.value).value, status))
      else
        None
  }

  /** Whatever code extraction finds occurs in the line. */
  lemma CodeOccursInLine(fields: seq<String>, line: String, order: seq<String>)
    requires fields == Split(line)
    ensures var r := ExtractCourseCode(fields, line, order); r.Some? ==> Contains(line, r.value)
  {
    var r := ExtractCourseCode(fields, line, order);
    if HasExactField(fields, order) {
      var k :| FirstExactAt(fields, order, k) && r == Some(Strip(fields[k]));
      assert fields[k] in fields;
      StripIsInside(fields[k]);
      ContainsTransitive(line, fields[k], Strip(fields[k]));
    }
  }

  /** `parse_attendance_data`: one entry per resolvable line, in line order. */
  function ParseAttendanceData(text: String, table: CourseTable, order: seq<String>): (data: seq<Entry>)
    ensures AllSpace(text) ==> data == []
    ensures |data| <= |Lines(text)|
    ensures forall e :: e in data ==> e.code in Codes(table) && Lookup(table, e.code) == Some(e.name)
  {
    if Strip(text) == [] then []
    else FilterMap(Lines(text), LineParser(table, order))
  }

  /** The loop body of `parse_attendance_data` as a function of the line. */
  function LineParser(table: CourseTable, order: seq<String>): String -> Option<Entry> {
    raw => ParseLine(raw, table, order)
  }

  /** The first status field decides the entry's status. */
  lemma FirstStatusWins(raw: String, table: CourseTable, order: seq<String>, k: int)
    requires FirstStatusAt(Split(Strip(raw)), k)
    ensures ParseLine(raw, table, order).Some? ==>
              Some(ParseLine(raw, table, order).value.status) == StatusWord(Strip(Split(Strip(raw))[k]))
  {
    var fields := Split(Strip(raw));
    FirstStatusUnique(fields, k);
  }

  /** With no status field, the status comes from the stripped line's text. */
  lemma FallbackStatus(raw: String, table: CourseTable, order: seq<String>)
    requires !HasStatusField(Split(Strip(raw)))
    ensures ParseLine(raw, table, order).Some? ==>
              ParseLine(raw, table, order).value.status == LineStatus(Strip(raw))
  {
  }

  /** With no exact code field, the entry's code is the first code, in set order, that
      occurs in the stripped line; and such a code does produce an entry. */
  lemma FallbackCode(raw: String, table: CourseTable, order: seq<String>, j: int)
    requires SameCodes(order, table)
    requires !SkippedLine(raw) && !HasExactField(Split(Strip(raw)), order)
    requires FirstContainedAt(order, Strip(raw), j) && order[j] != []
    ensures ParseLine(raw, table, order).Some?
    ensures ParseLine(raw, table, order).value.code == order[j]
  {
    var line := Strip(raw);
    var fields := Split(line);
    assert FirstExactCode(fields, order).None?;
    var r := FirstContained(order, line);
    assert r.Some? by {
      assert order[j] in order;
    }
    var k :| FirstContainedAt(order, line, k) && order[k] == r.value;
    FirstContainedUnique(order, line, j, k);
    assert ExtractCourseCode(fields, line, order) == Some(order[j]);
    assert order[j] in Codes(table) by {
      assert order[j] in order;
    }
  }

  /** The verdict of `validate_data`. */
  datatype Verdict = Valid | NoData | InvalidCodes(codes: seq<String>)

  /** The message `validate_data` returns with its verdict: the success text only for a
      valid verdict, and every unknown code named in the failure text. */
  function VerdictMessage(v: Verdict): (msg: String)
    ensures msg == "Data is valid" <==> v.Valid?
    ensures v.InvalidCodes? ==> "Invalid course codes: " <= msg
    ensures v.InvalidCodes? ==> forall c :: c in v.codes ==> Contains(msg, c)
  {
    var msg := VerdictText(v);
    assert v.InvalidCodes? ==> forall c :: c in v.codes ==> Contains(msg, c) by {
      if v.InvalidCodes? {
        var prefix := "Invalid course codes: ";
        assert msg == prefix + JoinComma(v.codes);
        forall c | c in v.codes
          ensures Contains(msg, c)
        {
          InsideSuffix(prefix, JoinComma(v.codes), c);
        }
      }
    }
    msg
  }

  function VerdictText(v: Verdict): String {
    match v
    case Valid => "Data is valid"
    case NoData => "No valid data found. Please check the format."
    case InvalidCodes(cs) => "Invalid course codes: " + JoinComma(cs)
  }

  /** `', '.join(codes)`: every code occurs in the joined text. */
  function JoinComma(cs: seq<String>): (r: String)
    ensures forall c :: c in cs ==> Contains(r, c)
  {
    if |cs| == 0 then []
    else if |cs| == 1 then
      assert OccursAt(cs[0], cs[0], 0);
      cs[0]
    else
      var rest := JoinComma(cs[1..]);
      var r := cs[0] + ", " + rest;
      assert forall c :: c in cs ==> Contains(r, c) by {
        forall c | c in cs
          ensures Contains(r, c)
        {
          if c == cs[0] {
            assert OccursAt(r, c, 0);
          } else {
            assert c in cs[1..];
            InsideSuffix(cs[0] + ", ", rest, c);
          }
        }
      }
      r
  }

  /** What occurs in a suffix occurs in the whole. */
  lemma InsideSuffix(p: String, s: String, c: String)
    requires Contains(s, c)
    ensures Contains(p + s, c)
  {
    assert OccursAt(p + s, s, |p|);
    ContainsTransitive(p + s, s, c);
  }

  /** The code of an entry whose code is not in the table. */
  function UnknownCode(table: CourseTable): Entry -> Option<String> {
    (e: Entry) => if e.code in Codes(table) then None else Some(e.code)
  }

  /** The codes of `data` that are not in the table: one per offending entry, in entry
      order (the list comprehension of `validate_data`). */
  function UnknownCodes(data: seq<Entry>, table: CourseTable): (cs: seq<String>)
    ensures forall c :: c in cs <==> exists e :: e in data && e.code == c && c !in Codes(table)
    ensures cs == FilterMap(data, UnknownCode(table))
  {
    if |data| == 0 then []
    else
      var rest := UnknownCodes(data[1..], table);
      assert forall e :: e in data <==> e == data[0] || e in data[1..];
      FilterMapCons(data[0], data[1..], UnknownCode(table));
      assert [data[0]] + data[1..] == data;
      if data[0].code in Codes(table) then rest else [data[0].code] + rest
  }

  /** `validate_data`: fails on no data, then on any unknown code, else passes. */
  function ValidateData(data: seq<Entry>, table: CourseTable): (v: Verdict)
    ensures v == NoData <==> data == []
    ensures v == Valid <==> data != [] && forall e :: e in data ==> e.code in Codes(table)
    ensures v.InvalidCodes? ==> |v.codes| > 0 && v.codes == UnknownCodes(data, table)
  {
    if |data| == 0 then NoData
    else
      var bad := UnknownCodes(data, table);
      if |bad| > 0 then
        assert bad[0] in bad;
        InvalidCodes(bad)
      else
        Valid
  }

  /** A line with a field that is exactly a known code yields an entry for the first such
      field, whatever order the code set is walked in. */
  lemma ExactFieldWins(raw: String, table: CourseTable, order: seq<String>, k: int)
    requires SameCodes(order, table) && !SkippedLine(raw)
    requires FirstExactAt(Split(Strip(raw)), Codes(table), k) && Strip(Split(Strip(raw))[k]) != []
    ensures ParseLine(raw, table, order).Some?
    ensures ParseLine(raw, table, order).value.code == Strip(Split(Strip(raw))[k])
  {
    var fields := Split(Strip(raw));
    SameFirstExact(fields, table, order, k);
  }

  /** The first exact field is the same whether codes are listed by `order` or by the table. */
  lemma SameFirstExact(fields: seq<String>, table: CourseTable, order: seq<String>, k: int)
    requires SameCodes(order, table)
    requires FirstExactAt(fields, Codes(table), k)
    ensures FirstExactCode(fields, order) == Some(Strip(fields[k]))
  {
    assert FirstExactAt(fields, order, k);
    var r := FirstExactCode(fields, order);
    var k' :| FirstExactAt(fields, order, k') && r.value == Strip(fields[k']);
    assert k' == k;
  }

  /** Only the substring fallback depends on the order of the code set: with an exact
      field, any two listings give the same result. */
  lemma OrderIrrelevantWithExactField(raw: String, table: CourseTable, o1: seq<String>, o2: seq<String>, k: int)
    requires SameCodes(o1, table) && SameCodes(o2, table)
    requires FirstExactAt(Split(Strip(raw)), Codes(table), k)
    ensures ParseLine(raw, table, o1) == ParseLine(raw, table, o2)
  {
    var fields := Split(Strip(raw));
    SameFirstExact(fields, table, o1, k);
    SameFirstExact(fields, table, o2, k);
  }

  /** Every entry comes from its own line, entries keep line order, and every line
      without an entry is one the loop body drops. */
  lemma EntriesFollowLines(text: String, table: CourseTable, order: seq<String>)
    requires Strip(text) != []
    ensures exists idx :: Origins(Lines(text), LineParser(table, order), ParseAttendanceData(text, table, order), idx)
  {
    var f := LineParser(table, order);
    FilterMapOrigins(Lines(text), f);
    var idx :| Origins(Lines(text), f, FilterMap(Lines(text), f), idx);
    assert ParseAttendanceData(text, table, order) == FilterMap(Lines(text), f);
    assert Origins(Lines(text), f, ParseAttendanceData(text, table, order), idx);
  }

  /** What the parser returns never fails validation on its codes: it is valid, or empty. */
  lemma ParsedDataValidates(text: String, table: CourseTable, order: seq<String>)
    ensures var data := ParseAttendanceData(text, table, order);
            ValidateData(data, table) == if data == [] then NoData else Valid
  {
  }
}
