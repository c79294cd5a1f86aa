/**
 The data both parsers share: the known-course table (code -> name, kept in
 the insertion order of the dictionary it comes from), attendance statuses and
 the entries a parse produces.
 */
module Courses {
  import opened Strings
  import opened Wrappers

  /** One row of the known-course table. */
  datatype Course = Course(code: String, name: String)

  /** The course table in dictionary order; a dictionary never repeats a key. */
  type CourseTable = seq<Course>

  /** The two statuses a parse can produce; `StatusText` is their title-cased spelling. */
  datatype Status = Present | Absent

  /** One parsed line: course code, course name, status. */
  datatype Entry = Entry(code: String, name: String, status: Status)

  function StatusText(st: Status): String {
    match st
    case Present => "Present"
    case Absent => "Absent"
  }

  /** The table's codes, in table order (`courses.keys()`). */
  function Codes(table: CourseTable): (cs: seq<String>)
    ensures |cs| == |table|
    ensures forall k :: 0 <= k < |table| ==> cs[k] == table[k].code
  {
    seq(|table|, k requires 0 <= k < |table| => table[k].code)
  }

  /** `courses.get(code)`: the name stored under `code`, taking the first row with that code. */
  function Lookup(table: CourseTable, code: String): (r: Option<String>)
    ensures r.Some? <==> code in Codes(table)
    ensures r.Some? ==> exists k :: 0 <= k < |table| && table[k] == Course(code, r.value)
  {
    if |table| == 0 then None
    else if table[0].code == code then
      assert table[0] == Course(code, table[0].name);
      Some(table[0].name)
    else
      var r := Lookup(table[1..], code);
      assert Codes(table) == [table[0].code] + Codes(table[1..]);
      if r.Some? then
        var k :| 0 <= k < |table| - 1 && table[1..][k] == Course(code, r.value);
        assert table[k + 1] == Course(code, r.value);
        r
      else
        r
  }

  /** A lookup finds the first row carrying the code. */
  lemma {:induction false} LookupFirst(table: CourseTable, k: int)
    requires 0 <= k < |table|
    requires forall j :: 0 <= j < k ==> table[j].code != table[k].code
    ensures Lookup(table, table[k].code) == Some(table[k].name)
  {
    if k > 0 {
      assert table[1..][k - 1] == table[k];
      LookupFirst(table[1..], k - 1);
    }
  }

  /** `order[k]` occurs in `line` and no earlier string of `order` does. */
  predicate FirstContainedAt(order: seq<String>, line: String, k: int) {
    && 0 <= k < |order|
    && Contains(line, order[k])
    && forall j :: 0 <= j < k ==> !Contains(line, order[j])
  }

  /** The first string of `order` that occurs in `line` (a `for code in ...: if code in line` loop). */
  function FirstContained(order: seq<String>, line: String): (r: Option<String>)
    ensures r.Some? ==> r.value in order && Contains(line, r.value)
    ensures r.None? <==> forall c :: c in order ==> !Contains(line, c)
    ensures r.Some? ==> exists k :: FirstContainedAt(order, line, k) && order[k] == r.value
  {
    if |order| == 0 then None
    else if Contains(line, order[0]) then Some(order[0])
    else
      var r := FirstContained(order[1..], line);
      if r.Some? then
        var k :| FirstContainedAt(order[1..], line, k) && order[1..][k] == r.value;
        forall j | 0 <= j < k + 1
          ensures !Contains(line, order[j])
        {
          if j > 0 {
            assert order[j] == order[1..][j - 1];
          }
        }
        assert FirstContainedAt(order, line, k + 1);
        r
      else
        r
  }

  /** The first position of `order` whose string occurs in `line` is unique. */
  lemma FirstContainedUnique(order: seq<String>, line: String, j: int, k: int)
    requires FirstContainedAt(order, line, j) && FirstContainedAt(order, line, k)
    ensures j == k
  {
  }

  /** The status word a field spells, ignoring case: `field.lower() in ['present', 'absent']`. */
  function StatusWord(field: String): (r: Option<Status>)
    ensures r == Some(Present) <==> Lower(field) == "present"
    ensures r == Some(Absent) <==> Lower(field) == "absent"
  {
    var w := Lower(field);
    if w == "present" then Some(Present)
    else if w == "absent" then Some(Absent)
    else None
  }
  /** The title-cased spelling of a status reads back as that status (`.title()` then
      `.lower()`). */
  lemma StatusTextRoundTrip(st: Status)
    ensures StatusWord(StatusText(st)) == Some(st)
  {
    if st == Present {
      assert Lower("Present") == "present";
    } else {
      assert Lower("Absent") == "absent";
    }
  }

  /** Case does not matter: a field and its lowered form spell the same status. */
  lemma StatusWordIgnoresCase(field: String)
    ensures StatusWord(Lower(field)) == StatusWord(field)
  {
    LowerIdempotent(field);
  }


  /** The status a line's text implies when no field spells one: `present` anywhere
      (any case) wins over `absent`, and the default is `Present`. */
  function LineStatus(line: String): (st: Status)
    ensures st == Absent <==> !Contains(Lower(line), "present") && Contains(Lower(line), "absent")
  {
    var low := Lower(line);
    if Contains(low, "present") then Present
    else if Contains(low, "absent") then Absent
    else Present
  }
}
