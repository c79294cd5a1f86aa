/**
 The root parser: the attendance parser of the top-level application
 (`parse_attendance_data` in `attendance_tracker.py`). It reads the same pasted
 text as the Desktop parser but resolves each line differently:
 - the field loop keeps the LAST field that is exactly a known code;
 - a field that is a known code is never read as a status (`elif`), and the
   LAST remaining status field wins;
 - the header test `startswith('S.No')` looks at the unstripped line;
 - the substring fallback searches the unstripped line, in table order, and
   runs only when the loop found no code or an empty one.
 */
module RootParser {
  import opened Strings
  import opened Wrappers
  import opened Tokenizer
  import opened Courses
  import opened Collect

  /** What the field loop has found so far: `course_code` and `attendance_status`. */
  datatype Found = Found(code: Option<String>, status: Option<Status>)

  /** The stripped field is a known code. */
  predicate IsCode(field: String, table: CourseTable) {
    Strip(field) in Codes(table)
  }

  /** The stripped field is a status word and not a known code (the `elif` branch). */
  predicate IsStatus(field: String, table: CourseTable) {
    !IsCode(field, table) && StatusWord(Strip(field)).Some?
  }

  /** One pass of the field loop body. */
  function Step(found: Found, field: String, table: CourseTable): Found {
    if IsCode(field, table) then found.(code := Some(Strip(field)))
    else if IsStatus(field, table) then found.(status := StatusWord(Strip(field)))
    else found
  }

  /** The field loop, left to right. */
  function Fold(found: Found, fields: seq<String>, table: CourseTable): Found
    decreases |fields|
  {
    if |fields| == 0 then found else Fold(Step(found, fields[0], table), fields[1..], table)
  }

  /** Running the loop over one more field is one more step. */
  lemma {:induction false} FoldSnoc(found: Found, fields: seq<String>, x: String, table: CourseTable)
    ensures Fold(found, fields + [x], table) == Step(Fold(found, fields, table), x, table)
    decreases |fields|
  {
    if |fields| > 0 {
      assert (fields + [x])[1..] == fields[1..] + [x];
      FoldSnoc(Step(found, fields[0], table), fields[1..], x, table);
    }
  }

  /** Field `k` is a code field and no later field is. */
  predicate LastCodeAt(fields: seq<String>, table: CourseTable, k: int) {
    && 0 <= k < |fields|
    && IsCode(fields[k], table)
    && forall j :: k < j < |fields| ==> !IsCode(fields[j], table)
  }

  /** Field `k` is a status field and no later field is. */
  predicate LastStatusAt(fields: seq<String>, table: CourseTable, k: int) {
    && 0 <= k < |fields|
    && IsStatus(fields[k], table)
    && forall j :: k < j < |fields| ==> !IsStatus(fields[j], table)
  }

  /** `code` is the text of the last code field of `fields`, if there is one. */
  ghost predicate LastCode(code: Option<String>, fields: seq<String>, table: CourseTable) {
    && (code.None? <==> forall k :: 0 <= k < |fields| ==> !IsCode(fields[k], table))
    && (code.Some? ==> exists k :: LastCodeAt(fields, table, k) && code.value == Strip(fields[k]))
  }

  /** `status` is spelled by the last status field of `fields`, if there is one. */
  ghost predicate LastStatus(status: Option<Status>, fields: seq<String>, table: CourseTable) {
    && (status.None? <==> forall k :: 0 <= k < |fields| ==> !IsStatus(fields[k], table))
    && (status.Some? ==> exists k :: LastStatusAt(fields, table, k) && status == StatusWord(Strip(fields[k])))
  }

  /** `found` holds the last code field and the last status field of `fields`, if any. */
  ghost predicate Summarises(found: Found, fields: seq<String>, table: CourseTable) {
    LastCode(found.code, fields, table) && LastStatus(found.status, fields, table)
  }

  /** The field loop of `parse_attendance_data`: the last code field and the last status field win. */
  function FieldLoop(fields: seq<String>, table: CourseTable): (found: Found)
    ensures Summarises(found, fields, table)
  {
    FoldLast(fields, table);
    Fold(Found(None, None), fields, table)
  }

  lemma {:induction false} FoldLast(fields: seq<String>, table: CourseTable)
    ensures Summarises(Fold(Found(None, None), fields, table), fields, table)
    decreases |fields|
  {
    if |fields| > 0 {
      var n := |fields| - 1;
      var init := fields[..n];
      var x := fields[n];
      assert fields == init + [x];
      FoldSnoc(Found(None, None), init, x, table);
      FoldLast(init, table);
      SummarisesSnoc(Fold(Found(None, None), init, table), init, x, table);
    }
  }

  /** One step keeps the summary true of the longer field list. */
  lemma SummarisesSnoc(found: Found, init: seq<String>, x: String, table: CourseTable)
    requires Summarises(found, init, table)
    ensures Summarises(Step(found, x, table), init + [x], table)
  {
    var after := Step(found, x, table);
    CodeSnoc(found.code, after.code, init, x, table);
    StatusSnoc(found.status, after.status, init, x, table);
  }

  lemma CodeSnoc(code: Option<String>, after: Option<String>, init: seq<String>, x: String, table: CourseTable)
    requires LastCode(code, init, table)
    requires after == if IsCode(x, table) then Some(Strip(x)) else code
    ensures LastCode(after, init + [x], table)
  {
    var fields := init + [x];
    var n := |init|;
    assert fields[n] == x;
    if IsCode(x, table) {
      assert LastCodeAt(fields, table, n);
    } else if code.Some? {
      var k :| LastCodeAt(init, table, k) && code.value == Strip(init[k]);
      assert fields[k] == init[k];
      forall j | k < j < n + 1
        ensures !IsCode(fields[j], table)
      {
        if j < n {
          assert fields[j] == init[j];
        }
      }
      assert LastCodeAt(fields, table, k);
    } else {
      forall j | 0 <= j < n + 1
        ensures !IsCode(fields[j], table)
      {
        if j < n {
          assert fields[j] == init[j];
        }
      }
    }
  }

  lemma StatusSnoc(status: Option<Status>, after: Option<Status>, init: seq<String>, x: String, table: CourseTable)
    requires LastStatus(status, init, table)
    requires after == if IsStatus(x, table) then StatusWord(Strip(x)) else status
    ensures LastStatus(after, init + [x], table)
  {
    var fields := init + [x];
    var n := |init|;
    assert fields[n] == x;
    if IsStatus(x, table) {
      assert LastStatusAt(fields, table, n);
    } else if status.Some? {
      var k :| LastStatusAt(init, table, k) && status == StatusWord(Strip(init[k]));
      assert fields[k] == init[k];
      forall j | k < j < n + 1
        ensures !IsStatus(fields[j], table)
      {
        if j < n {
          assert fields[j] == init[j];
        }
      }
      assert LastStatusAt(fields, table, k);
    } else {
      forall j | 0 <= j < n + 1
        ensures !IsStatus(fields[j], table)
      {
        if j < n {
          assert fields[j] == init[j];
        }
      }
    }
  }

  /** A line the parser skips: blank once stripped, or starting with `S.No` before stripping. */
  predicate Skipped(raw: String) {
    Strip(raw) == [] || "S.No" <= raw
  }

  /** The code a line resolves to: the loop's code when it is a non-empty string,
      otherwise the first known code, in table order, occurring in the raw line. */
  function ResolveCode(found: Found, raw: String, table: CourseTable): (r: Option<String>)
    ensures found.code.Some? && found.code.value != [] ==> r == found.code
    ensures !(found.code.Some? && found.code.value != []) ==>
              && (r.Some? ==> exists j :: FirstContainedAt(Codes(table), raw, j) && r.value == table[j].code)
              && (r.None? <==> forall c :: c in Codes(table) ==> !Contains(raw, c))
  {
    if found.code.Some? && found.code.value != [] then found.code
    else FirstContained(Codes(table), raw)
  }

  /** The status a line resolves to: the word of the last status field the loop saw,
      otherwise what the raw line's text implies. */
  function ResolveStatus(fields: seq<String>, raw: String, table: CourseTable): (st: Status)
    ensures forall k :: LastStatusAt(fields, table, k) ==> Some(st) == StatusWord(Strip(fields[k]))
    ensures (forall k :: 0 <= k < |fields| ==> !IsStatus(fields[k], table)) ==> st == LineStatus(raw)
  {
    var found := FieldLoop(fields, table);
    assert forall k :: LastStatusAt(fields, table, k) ==> found.status == StatusWord(Strip(fields[k])) by {
      forall k | LastStatusAt(fields, table, k)
        ensures found.status == StatusWord(Strip(fields[k]))
      {
        var k' :| LastStatusAt(fields, table, k') && found.status == StatusWord(Strip(fields[k']));
        LastStatusUnique(fields, table, k, k');
      }
    }
    if found.status.Some? then found.status.value else LineStatus(raw)
  }

  /** One pass of the line loop of `parse_attendance_data`. */
  function ParseLine(raw: String, table: CourseTable): (r: Option<Entry>)
    ensures Skipped(raw) ==> r.None?
    ensures r.Some? ==> r.value.code != [] && Lookup(table, r.value.code) == Some(r.value.name)
    ensures r.Some? ==> Contains(raw, r.value.code)
  {
    if Skipped(raw) then None
    else
      var fields := Split(Strip(raw));
      var found := FieldLoop(fields, table);
      var code := ResolveCode(found, raw, table);
      if code.Some? && code.value != [] then
        assert code.value in Codes(table) && Contains(raw, code.value) by {
          LoopCodeInLine(raw, table);
        }
        Some(Entry(code.value, Lookup(table, code.value).value, ResolveStatus(fields, raw, table)))
      else
        None
  }

  /** A code the field loop finds is a known code occurring in the raw line. */
  lemma LoopCodeInLine(raw: String, table: CourseTable)
    ensures var code := ResolveCode(FieldLoop(Split(Strip(raw)), table), raw, table);
            code.Some? ==> code.value in Codes(table) && Contains(raw, code.value)
  {
    var fields := Split(Strip(raw));
    var found := FieldLoop(fields, table);
    if found.code.Some? && found.code.value != [] {
      var k :| LastCodeAt(fields, table, k) && found.code.value == Strip(fields[k]);
      assert fields[k] in fields;
      StripIsInside(fields[k]);
      ContainsTransitive(Strip(raw), fields[k], Strip(fields[k]));
      StripIsInside(raw);
      ContainsTransitive(raw, Strip(raw), Strip(fields[k]));
    }
  }

  /** The loop body as a function of the line. */
  function LineParser(table: CourseTable): String -> Option<Entry> {
    raw => ParseLine(raw, table)
  }

  /** `parse_attendance_data`: one entry per resolvable line, in line order. */
  function ParseAttendanceData(text: String, table: CourseTable): (data: seq<Entry>)
    ensures |data| <= |Lines(text)|
    ensures forall e :: e in data ==> e.code in Codes(table) && Lookup(table, e.code) == Some(e.name)
  {
    FilterMap(Lines(text), LineParser(table))
  }

  /** The fields the loop walks. */
  function Fields(raw: String): seq<String> {
    Split(Strip(raw))
  }

  /** The last code field decides the entry's code, whatever codes come before it. */
  lemma LastCodeWins(raw: String, table: CourseTable, k: int)
    requires !Skipped(raw)
    requires LastCodeAt(Fields(raw), table, k) && Strip(Fields(raw)[k]) != []
    ensures ParseLine(raw, table).Some?
    ensures ParseLine(raw, table).value.code == Strip(Fields(raw)[k])
  {
    var fields := Fields(raw);
    var found := FieldLoop(fields, table);
    var k' :| LastCodeAt(fields, table, k') && found.code.value == Strip(fields[k']);
    LastCodeUnique(fields, table, k, k');
  }

  lemma LastCodeUnique(fields: seq<String>, table: CourseTable, k: int, k': int)
    requires LastCodeAt(fields, table, k) && LastCodeAt(fields, table, k')
    ensures k == k'
  {
  }

  /** With no code field, the entry's code is the first known code, in table order,
      occurring anywhere in the unstripped line; with none occurring, the line is dropped. */
  lemma FallbackCode(raw: String, table: CourseTable)
    requires forall k :: 0 <= k < |Fields(raw)| ==> !IsCode(Fields(raw)[k], table)
    ensures var r := ParseLine(raw, table);
            r.Some? ==> exists j :: FirstContainedAt(Codes(table), raw, j) && r.value.code == table[j].code
    ensures (forall c :: c in Codes(table) ==> !Contains(raw, c)) ==> ParseLine(raw, table).None?
  {
    var found := FieldLoop(Fields(raw), table);
    assert found.code.None?;
    var code := ResolveCode(found, raw, table);
    assert !Skipped(raw) ==> ParseLine(raw, table) == if code.Some? && code.value != [] then
      Some(Entry(code.value, Lookup(table, code.value).value, ResolveStatus(Fields(raw), raw, table))) else None;
  }

  /** With no code field, a known non-empty code occurring in the raw line does produce an
      entry: for the first such code in table order. */
  lemma FallbackCodeFound(raw: String, table: CourseTable, j: int)
    requires !Skipped(raw)
    requires forall k :: 0 <= k < |Fields(raw)| ==> !IsCode(Fields(raw)[k], table)
    requires FirstContainedAt(Codes(table), raw, j) && table[j].code != []
    ensures ParseLine(raw, table).Some?
    ensures ParseLine(raw, table).value.code == table[j].code
  {
    var found := FieldLoop(Fields(raw), table);
    assert found.code.None?;
    var r := FirstContained(Codes(table), raw);
    assert r.Some? by {
      assert Codes(table)[j] in Codes(table);
    }
    var k :| FirstContainedAt(Codes(table), raw, k) && Codes(table)[k] == r.value;
    FirstContainedUnique(Codes(table), raw, j, k);
  }

  /** The last status field, among the fields that are not codes, decides the status. */
  lemma LastStatusWins(raw: String, table: CourseTable, k: int)
    requires LastStatusAt(Fields(raw), table, k)
    ensures ParseLine(raw, table).Some? ==>
              Some(ParseLine(raw, table).value.status) == StatusWord(Strip(Fields(raw)[k]))
  {
    if ParseLine(raw, table).Some? {
      assert ParseLine(raw, table).value.status == ResolveStatus(Fields(raw), raw, table);
    }
  }

  lemma LastStatusUnique(fields: seq<String>, table: CourseTable, k: int, k': int)
    requires LastStatusAt(fields, table, k) && LastStatusAt(fields, table, k')
    ensures k == k'
  {
  }

  /** With no status field, the status comes from the unstripped line's text. */
  lemma FallbackStatus(raw: String, table: CourseTable)
    requires forall k :: 0 <= k < |Fields(raw)| ==> !IsStatus(Fields(raw)[k], table)
    ensures ParseLine(raw, table).Some? ==> ParseLine(raw, table).value.status == LineStatus(raw)
  {
    if ParseLine(raw, table).Some? {
      assert ParseLine(raw, table).value.status == ResolveStatus(Fields(raw), raw, table);
    }
  }

  /** Every entry comes from its own line, entries keep line order, and every line
      without an entry is one the loop body drops. */
  lemma EntriesFollowLines(text: String, table: CourseTable)
    ensures exists idx :: Origins(Lines(text), LineParser(table), ParseAttendanceData(text, table), idx)
  {
    var f := LineParser(table);
    FilterMapOrigins(Lines(text), f);
    var idx :| Origins(Lines(text), f, FilterMap(Lines(text), f), idx);
    assert ParseAttendanceData(text, table) == FilterMap(Lines(text), f);
    assert Origins(Lines(text), f, ParseAttendanceData(text, table), idx);
  }
}
