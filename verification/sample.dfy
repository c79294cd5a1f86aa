/**
 The default course table both applications install, and the sample the
 upload tab pre-fills: a header row and five rows of the shape
 `<n> <TAB><code><TAB><name><TAB>Present`. Both parsers turn the sample into
 five `Present` entries and skip the header.
 */
module Sample {
  import opened Strings
  import opened Wrappers
  import opened Tokenizer
  import opened Courses
  import opened Collect
  import D = DesktopParser
  import R = RootParser
  import V = Versions

  /** The default course table, in insertion order. */
  const DefaultTable: CourseTable := [
    Course("16242101", "Transforms and Vector Calculus"),
    Course("16242102", "Design and Analysis of Algorithms"),
    Course("16242103", "Database Management System"),
    Course("16242104", "Operating Systems"),
    Course("16242105", "Computer Networks"),
    Course("16242106", "Design and Analysis of Algorithms Lab"),
    Course("16242107", "Database Management System Lab"),
    Course("16242108", "Problem Solving Through Python Programming"),
    Course("16242109", "Semester Proficiency"),
    Course("16242110", "Macro Project-I"),
    Course("16242111", "Self-learning/Presentation"),
    Course("16242112", "Cyber Security"),
    Course("NEC00076", "LT Spice Tutorial for Circuit Simulation")
  ]

  /** One row of the sample: number, a blank and a tab, code, tab, name, tab, `Present`. */
  function Row(n: String, code: String, name: String): String {
    n + " \t" + (code + "\t" + (name + "\t" + "Present"))
  }

  /** A sample row splits into its four fields. */
  lemma RowFields(n: String, code: String, name: String)
    requires Word(n) && Word(code) && Word(name)
    ensures Split(Row(n, code, name)) == [n, code, name, "Present"]
  {
    var r3 := name + "\t" + "Present";
    var r2 := code + "\t" + r3;
    LastTwo(name);
    Prepend(code, "\t", r3, [name, "Present"]);
    Prepend(n, " \t", r2, [code] + [name, "Present"]);
    FourFields(n, code, name);
  }

  lemma FourFields(n: String, code: String, name: String)
    ensures [n] + ([code] + [name, "Present"]) == [n, code, name, "Present"]
  {
  }

  lemma LastTwo(name: String)
    requires Word(name)
    ensures Split(name + "\t" + "Present") == [name, "Present"]
  {
    assert Clean("Present");
    SplitCleanLine("Present");
    TabSeparator();
    SplitFirstField(name, "\t", "Present");
  }

  lemma Prepend(a: String, sep: String, rest: String, fields: seq<String>)
    requires Word(a) && (sep == "\t" || sep == " \t")
    requires |rest| > 0 && !IsSpace(rest[0]) && Split(rest) == fields
    ensures Split(a + sep + rest) == [a] + fields
  {
    TabSeparator();
    SplitFirstField(a, sep, rest);
  }

  /** The sample row facts both parsers rely on. */
  ghost predicate SampleRow(n: String, code: String, name: String, table: CourseTable) {
    && Word(n) && Word(code) && Word(name)
    && n[0] != 'S'
    && n !in Codes(table) && code in Codes(table) && name !in Codes(table) && "Present" !in Codes(table)
    && StatusWord(n).None? && StatusWord(code).None? && StatusWord(name).None?
  }

  lemma RowTrimmed(n: String, code: String, name: String)
    requires Word(n) && Word(code) && Word(name)
    ensures Strip(Row(n, code, name)) == Row(n, code, name)
    ensures Strip(n) == n && Strip(code) == code && Strip(name) == name && Strip("Present") == "Present"
    ensures !("S.No" <= Row(n, code, name)) <== n[0] != 'S'
  {
    var row := Row(n, code, name);
    assert row[0] == n[0];
    assert row[|row| - 1] == 't';
    StripTrimmed(row);
    StripTrimmed(n);
    StripTrimmed(code);
    StripTrimmed(name);
    StripTrimmed("Present");
  }

  /** The Desktop parser reads a sample row as its code, the table's name for it, and `Present`. */
  lemma DesktopRow(n: String, code: String, name: String, table: CourseTable, order: seq<String>)
    requires D.SameCodes(order, table)
    requires SampleRow(n, code, name, table)
    ensures D.ParseLine(Row(n, code, name), table, order) == Some(Entry(code, Lookup(table, code).value, Present))
  {
    var row := Row(n, code, name);
    RowTrimmed(n, code, name);
    RowFields(n, code, name);
    DesktopRowCode(n, code, name, table, order, row);
    DesktopRowStatus(n, code, name, row);
  }

  lemma DesktopRowCode(n: String, code: String, name: String, table: CourseTable, order: seq<String>, line: String)
    requires D.SameCodes(order, table)
    requires SampleRow(n, code, name, table)
    ensures D.ExtractCourseCode([n, code, name, "Present"], line, order) == Some(code)
  {
    RowTrimmed(n, code, name);
    var fields := [n, code, name, "Present"];
    assert D.FirstExactAt(fields, order, 1);
    var r := D.FirstExactCode(fields, order);
    var k :| D.FirstExactAt(fields, order, k) && r.value == Strip(fields[k]);
    assert k == 1;
  }

  lemma DesktopRowStatus(n: String, code: String, name: String, line: String)
    requires StatusWord(Strip(n)).None? && StatusWord(Strip(code)).None? && StatusWord(Strip(name)).None?
    ensures D.ExtractAttendanceStatus([n, code, name, "Present"], line) == Present
  {
    var fields := [n, code, name, "Present"];
    PresentWord();
    FourthIsFirst(n, code, name, "Present");
    D.FirstStatusUnique(fields, 3);
    StatusFromFirst(fields, line);
  }

  lemma FourthIsFirst(n: String, code: String, name: String, p: String)
    requires StatusWord(Strip(n)).None? && StatusWord(Strip(code)).None? && StatusWord(Strip(name)).None?
    requires StatusWord(Strip(p)).Some?
    ensures D.FirstStatusAt([n, code, name, p], 3)
  {
    var fields := [n, code, name, p];
    LastOfFour(fields);
  }

  lemma LastOfFour(fields: seq<String>)
    requires |fields| == 4
    requires D.FieldStatus(fields[0]).None? && D.FieldStatus(fields[1]).None? && D.FieldStatus(fields[2]).None?
    requires D.FieldStatus(fields[3]).Some?
    ensures D.FirstStatusAt(fields, 3)
  {
    forall j | 0 <= j < 3
      ensures D.FieldStatus(fields[j]).None?
    {
      if j == 0 {
      } else if j == 1 {
      } else {
        assert j == 2;
      }
    }
  }

  lemma StatusFromFirst(fields: seq<String>, line: String)
    requires D.FirstStatusWord(fields).Some?
    ensures D.ExtractAttendanceStatus(fields, line) == D.FirstStatusWord(fields).value
  {
  }

  lemma PresentWord()
    ensures StatusWord(Strip("Present")) == Some(Present)
  {
    StatusTextRoundTrip(Present);
    StripTrimmed(StatusText(Present));
  }

  /** The root parser reads a sample row the same way. */
  lemma RootRow(n: String, code: String, name: String, table: CourseTable)
    requires SampleRow(n, code, name, table)
    ensures R.ParseLine(Row(n, code, name), table) == Some(Entry(code, Lookup(table, code).value, Present))
  {
    RowUnambiguous(n, code, name, table);
    DesktopRow(n, code, name, table, Codes(table));
    V.VersionsAgree(Row(n, code, name), table, Codes(table), 1);
  }

  lemma RowUnambiguous(n: String, code: String, name: String, table: CourseTable)
    requires SampleRow(n, code, name, table)
    ensures V.Unambiguous(Row(n, code, name), table, 1)
  {
    RowTrimmed(n, code, name);
    RowFields(n, code, name);
    var fields := [n, code, name, "Present"];
    assert R.Fields(Row(n, code, name)) == fields;
    FieldsUnambiguous(n, code, name, "Present", table);
  }

  lemma FieldsUnambiguous(n: String, code: String, name: String, p: String, table: CourseTable)
    requires Strip(n) == n && Strip(code) == code && Strip(name) == name && Strip(p) == p
    requires n !in Codes(table) && code in Codes(table) && name !in Codes(table) && p !in Codes(table)
    requires code != [] && StatusWord(n).None? && StatusWord(code).None? && StatusWord(name).None?
    ensures var fields := [n, code, name, p];
            && R.LastCodeAt(fields, table, 1)
            && (forall j :: 0 <= j < 1 ==> !R.IsCode(fields[j], table))
            && Strip(fields[1]) != []
            && StatusWord(Strip(fields[1])).None?
            && (forall i, j :: 0 <= i < j < |fields| ==> !(R.IsStatus(fields[i], table) && R.IsStatus(fields[j], table)))
  {
    var fields := [n, code, name, p];
    forall j | 1 < j < |fields|
      ensures !R.IsCode(fields[j], table)
    {
      if j == 2 {
      } else {
        assert j == 3;
      }
    }
    forall i | 0 <= i < 3
      ensures !R.IsStatus(fields[i], table)
    {
      if i == 0 {
      } else if i == 1 {
      } else {
        assert i == 2;
      }
    }
    forall i, j | 0 <= i < j < |fields|
      ensures !(R.IsStatus(fields[i], table) && R.IsStatus(fields[j], table))
    {
      assert !R.IsStatus(fields[i], table);
    }
  }

  /** The header row of the sample. */
  const Header: String := "S.No.\tCourse Code\tCourse Name\tattendance"

  const Row1: String := Row("1", "16242101", "Transforms and Vector Calculus")
  const Row2: String := Row("2", "16242103", "Database Management System")
  const Row3: String := Row("3", "16242104", "Operating Systems")
  const Row4: String := Row("4", "16242105", "Computer Networks")
  const Row5: String := Row("5", "16242108", "Problem Solving Through Python Programming")

  /** The sample text, one row per line. */
  const SampleText: String := JoinOn([Header, Row1, Row2, Row3, Row4, Row5], '\n')

  /** What parsing the sample gives: five `Present` entries, in row order. */
  const SampleEntries: seq<Entry> := [
    Entry("16242101", "Transforms and Vector Calculus", Present),
    Entry("16242103", "Database Management System", Present),
    Entry("16242104", "Operating Systems", Present),
    Entry("16242105", "Computer Networks", Present),
    Entry("16242108", "Problem Solving Through Python Programming", Present)
  ]

  /* The course names of the sample are words joined by single blanks, built up
     one word at a time from the right. Each join's text equality is stated on its
     own, away from the `Word` facts, which keeps the literal comparisons small. */

  lemma Spelled1a() ensures "Vector Calculus" == "Vector" + " " + "Calculus" {}

  lemma Words1a() ensures Word("Vector Calculus") {
    Spelled1a();
    WordsJoin("Vector", "Calculus", "Vector Calculus");
  }

  lemma Spelled1b() ensures "and Vector Calculus" == "and" + " " + "Vector Calculus" {}

  lemma Words1b() ensures Word("and Vector Calculus") {
    Words1a();
    Spelled1b();
    WordsJoin("and", "Vector Calculus", "and Vector Calculus");
  }

  lemma Spelled1c() ensures "Transforms and Vector Calculus" == "Transforms" + " " + "and Vector Calculus" {}

  lemma Name1() ensures Word("Transforms and Vector Calculus") {
    Words1b();
    Spelled1c();
    WordsJoin("Transforms", "and Vector Calculus", "Transforms and Vector Calculus");
  }

  lemma Spelled2a() ensures "Management System" == "Management" + " " + "System" {}

  lemma Words2a() ensures Word("Management System") {
    Spelled2a();
    WordsJoin("Management", "System", "Management System");
  }

  lemma Spelled2b() ensures "Database Management System" == "Database" + " " + "Management System" {}

  lemma Name2() ensures Word("Database Management System") {
    Words2a();
    Spelled2b();
    WordsJoin("Database", "Management System", "Database Management System");
  }

  lemma Spelled3a() ensures "Operating Systems" == "Operating" + " " + "Systems" {}

  lemma Name3() ensures Word("Operating Systems") {
    Spelled3a();
    WordsJoin("Operating", "Systems", "Operating Systems");
  }

  lemma Spelled4a() ensures "Computer Networks" == "Computer" + " " + "Networks" {}

  lemma Name4() ensures Word("Computer Networks") {
    Spelled4a();
    WordsJoin("Computer", "Networks", "Computer Networks");
  }

  lemma Spelled5a() ensures "Python Programming" == "Python" + " " + "Programming" {}

  lemma Words5a() ensures Word("Python Programming") {
    Spelled5a();
    WordsJoin("Python", "Programming", "Python Programming");
  }

  lemma Spelled5b() ensures "Through Python Programming" == "Through" + " " + "Python Programming" {}

  lemma Words5b() ensures Word("Through Python Programming") {
    Words5a();
    Spelled5b();
    WordsJoin("Through", "Python Programming", "Through Python Programming");
  }

  lemma Spelled5c() ensures "Solving Through Python Programming" == "Solving" + " " + "Through Python Programming" {}

  lemma Words5c() ensures Word("Solving Through Python Programming") {
    Words5b();
    Spelled5c();
    WordsJoin("Solving", "Through Python Programming", "Solving Through Python Programming");
  }

  lemma Spelled5d() ensures "Problem Solving Through Python Programming" == "Problem" + " " + "Solving Through Python Programming" {}

  lemma Name5() ensures Word("Problem Solving Through Python Programming") {
    Words5c();
    Spelled5d();
    WordsJoin("Problem", "Solving Through Python Programming", "Problem Solving Through Python Programming");
  }

  /* Each sample row against the default table. */

  /** Every default code has eight characters, so no string of another length is a code. */
  lemma NotACode(x: String)
    requires |x| != 8
    ensures x !in Codes(DefaultTable)
  {
    assert forall k :: 0 <= k < |DefaultTable| ==> |DefaultTable[k].code| == 8;
  }

  lemma Known1()
    ensures "16242101" in Codes(DefaultTable) && Lookup(DefaultTable, "16242101") == Some("Transforms and Vector Calculus")
  {
    assert DefaultTable[0] == Course("16242101", "Transforms and Vector Calculus");
    assert Codes(DefaultTable)[0] == "16242101";
    LookupFirst(DefaultTable, 0);
  }

  lemma Plain1()
    ensures Word("1") && Word("16242101") && "1"[0] != 'S'
  {
  }

  lemma NoStatus1()
    ensures StatusWord("1").None? && StatusWord("16242101").None? && StatusWord("Transforms and Vector Calculus").None?
  {
  }

  lemma Facts1()
    ensures SampleRow("1", "16242101", "Transforms and Vector Calculus", DefaultTable)
  {
    Plain1();
    NoStatus1();
    Name1();
    Known1();
    NotACode("1");
    NotACode("Transforms and Vector Calculus");
    NotACode("Present");
  }

  /** Both parsers read row 1 as a `Present` entry for 16242101. */
  lemma ParseRow1(order: seq<String>)
    requires D.SameCodes(order, DefaultTable)
    ensures D.ParseLine(Row1, DefaultTable, order) == Some(SampleEntries[0])
    ensures R.ParseLine(Row1, DefaultTable) == Some(SampleEntries[0])
  {
    var entry := Entry("16242101", "Transforms and Vector Calculus", Present);
    assert SampleEntries[0] == entry;
    RowEntry1();
    DesktopRow("1", "16242101", "Transforms and Vector Calculus", DefaultTable, order);
    RootRow("1", "16242101", "Transforms and Vector Calculus", DefaultTable);
  }

  lemma RowEntry1()
    ensures SampleRow("1", "16242101", "Transforms and Vector Calculus", DefaultTable)
    ensures Entry("16242101", Lookup(DefaultTable, "16242101").value, Present) == Entry("16242101", "Transforms and Vector Calculus", Present)
  {
    Facts1();
    Known1();
  }

  lemma Known2()
    ensures "16242103" in Codes(DefaultTable) && Lookup(DefaultTable, "16242103") == Some("Database Management System")
  {
    assert DefaultTable[2] == Course("16242103", "Database Management System");
    assert Codes(DefaultTable)[2] == "16242103";
    LookupFirst(DefaultTable, 2);
  }

  lemma Plain2()
    ensures Word("2") && Word("16242103") && "2"[0] != 'S'
  {
  }

  lemma NoStatus2()
    ensures StatusWord("2").None? && StatusWord("16242103").None? && StatusWord("Database Management System").None?
  {
  }

  lemma Facts2()
    ensures SampleRow("2", "16242103", "Database Management System", DefaultTable)
  {
    Plain2();
    NoStatus2();
    Name2();
    Known2();
    NotACode("2");
    NotACode("Database Management System");
    NotACode("Present");
  }

  /** Both parsers read row 2 as a `Present` entry for 16242103. */
  lemma ParseRow2(order: seq<String>)
    requires D.SameCodes(order, DefaultTable)
    ensures D.ParseLine(Row2, DefaultTable, order) == Some(SampleEntries[1])
    ensures R.ParseLine(Row2, DefaultTable) == Some(SampleEntries[1])
  {
    var entry := Entry("16242103", "Database Management System", Present);
    assert SampleEntries[1] == entry;
    RowEntry2();
    DesktopRow("2", "16242103", "Database Management System", DefaultTable, order);
    RootRow("2", "16242103", "Database Management System", DefaultTable);
  }

  lemma RowEntry2()
    ensures SampleRow("2", "16242103", "Database Management System", DefaultTable)
    ensures Entry("16242103", Lookup(DefaultTable, "16242103").value, Present) == Entry("16242103", "Database Management System", Present)
  {
    Facts2();
    Known2();
  }

  lemma Known3()
    ensures "16242104" in Codes(DefaultTable) && Lookup(DefaultTable, "16242104") == Some("Operating Systems")
  {
    assert DefaultTable[3] == Course("16242104", "Operating Systems");
    assert Codes(DefaultTable)[3] == "16242104";
    LookupFirst(DefaultTable, 3);
  }

  lemma Plain3()
    ensures Word("3") && Word("16242104") && "3"[0] != 'S'
  {
  }

  lemma NoStatus3()
    ensures StatusWord("3").None? && StatusWord("16242104").None? && StatusWord("Operating Systems").None?
  {
  }

  lemma Facts3()
    ensures SampleRow("3", "16242104", "Operating Systems", DefaultTable)
  {
    Plain3();
    NoStatus3();
    Name3();
    Known3();
    NotACode("3");
    NotACode("Operating Systems");
    NotACode("Present");
  }

  /** Both parsers read row 3 as a `Present` entry for 16242104. */
  lemma ParseRow3(order: seq<String>)
    requires D.SameCodes(order, DefaultTable)
    ensures D.ParseLine(Row3, DefaultTable, order) == Some(SampleEntries[2])
    ensures R.ParseLine(Row3, DefaultTable) == Some(SampleEntries[2])
  {
    var entry := Entry("16242104", "Operating Systems", Present);
    assert SampleEntries[2] == entry;
    RowEntry3();
    DesktopRow("3", "16242104", "Operating Systems", DefaultTable, order);
    RootRow("3", "16242104", "Operating Systems", DefaultTable);
  }

  lemma RowEntry3()
    ensures SampleRow("3", "16242104", "Operating Systems", DefaultTable)
    ensures Entry("16242104", Lookup(DefaultTable, "16242104").value, Present) == Entry("16242104", "Operating Systems", Present)
  {
    Facts3();
    Known3();
  }

  lemma Known4()
    ensures "16242105" in Codes(DefaultTable) && Lookup(DefaultTable, "16242105") == Some("Computer Networks")
  {
    assert DefaultTable[4] == Course("16242105", "Computer Networks");
    assert Codes(DefaultTable)[4] == "16242105";
    LookupFirst(DefaultTable, 4);
  }

  lemma Plain4()
    ensures Word("4") && Word("16242105") && "4"[0] != 'S'
  {
  }

  lemma NoStatus4()
    ensures StatusWord("4").None? && StatusWord("16242105").None? && StatusWord("Computer Networks").None?
  {
  }

  lemma Facts4()
    ensures SampleRow("4", "16242105", "Computer Networks", DefaultTable)
  {
    Plain4();
    NoStatus4();
    Name4();
    Known4();
    NotACode("4");
    NotACode("Computer Networks");
    NotACode("Present");
  }

  /** Both parsers read row 4 as a `Present` entry for 16242105. */
  lemma ParseRow4(order: seq<String>)
    requires D.SameCodes(order, DefaultTable)
    ensures D.ParseLine(Row4, DefaultTable, order) == Some(SampleEntries[3])
    ensures R.ParseLine(Row4, DefaultTable) == Some(SampleEntries[3])
  {
    var entry := Entry("16242105", "Computer Networks", Present);
    assert SampleEntries[3] == entry;
    RowEntry4();
    DesktopRow("4", "16242105", "Computer Networks", DefaultTable, order);
    RootRow("4", "16242105", "Computer Networks", DefaultTable);
  }

  lemma RowEntry4()
    ensures SampleRow("4", "16242105", "Computer Networks", DefaultTable)
    ensures Entry("16242105", Lookup(DefaultTable, "16242105").value, Present) == Entry("16242105", "Computer Networks", Present)
  {
    Facts4();
    Known4();
  }

  lemma Known5()
    ensures "16242108" in Codes(DefaultTable) && Lookup(DefaultTable, "16242108") == Some("Problem Solving Through Python Programming")
  {
    assert DefaultTable[7] == Course("16242108", "Problem Solving Through Python Programming");
    assert Codes(DefaultTable)[7] == "16242108";
    LookupFirst(DefaultTable, 7);
  }

  lemma Plain5()
    ensures Word("5") && Word("16242108") && "5"[0] != 'S'
  {
  }

  lemma NoStatus5()
    ensures StatusWord("5").None? && StatusWord("16242108").None? && StatusWord("Problem Solving Through Python Programming").None?
  {
  }

  lemma Facts5()
    ensures SampleRow("5", "16242108", "Problem Solving Through Python Programming", DefaultTable)
  {
    Plain5();
    NoStatus5();
    Name5();
    Known5();
    NotACode("5");
    NotACode("Problem Solving Through Python Programming");
    NotACode("Present");
  }

  /** Both parsers read row 5 as a `Present` entry for 16242108. */
  lemma ParseRow5(order: seq<String>)
    requires D.SameCodes(order, DefaultTable)
    ensures D.ParseLine(Row5, DefaultTable, order) == Some(SampleEntries[4])
    ensures R.ParseLine(Row5, DefaultTable) == Some(SampleEntries[4])
  {
    var entry := Entry("16242108", "Problem Solving Through Python Programming", Present);
    assert SampleEntries[4] == entry;
    RowEntry5();
    DesktopRow("5", "16242108", "Problem Solving Through Python Programming", DefaultTable, order);
    RootRow("5", "16242108", "Problem Solving Through Python Programming", DefaultTable);
  }

  lemma RowEntry5()
    ensures SampleRow("5", "16242108", "Problem Solving Through Python Programming", DefaultTable)
    ensures Entry("16242108", Lookup(DefaultTable, "16242108").value, Present) == Entry("16242108", "Problem Solving Through Python Programming", Present)
  {
    Facts5();
    Known5();
  }

  /* The whole sample. */

  lemma RowOneLine(n: String, code: String, name: String)
    requires Word(n) && Word(code) && Word(name)
    ensures '\n' !in Row(n, code, name)
  {
    assert '\n' !in " \t" && '\n' !in "\t" && '\n' !in "Present";
  }

  lemma HeaderFacts()
    ensures '\n' !in Header && |Header| > 0 && Header[0] == 'S' && !IsSpace(Header[|Header| - 1])
    ensures "S.No" <= Header
  {
  }

  lemma RowsOneLine()
    ensures '\n' !in Row1 && '\n' !in Row2 && '\n' !in Row3 && '\n' !in Row4 && '\n' !in Row5
  {
    RowEntry1(); RowOneLine("1", "16242101", "Transforms and Vector Calculus");
    RowEntry2(); RowOneLine("2", "16242103", "Database Management System");
    RowEntry3(); RowOneLine("3", "16242104", "Operating Systems");
    RowEntry4(); RowOneLine("4", "16242105", "Computer Networks");
    RowEntry5(); RowOneLine("5", "16242108", "Problem Solving Through Python Programming");
  }

  /** The sample's lines are its header and its five rows. */
  lemma SampleLines()
    ensures Lines(SampleText) == [Header, Row1, Row2, Row3, Row4, Row5]
  {
    var lines := [Header, Row1, Row2, Row3, Row4, Row5];
    HeaderFacts();
    RowsOneLine();
    assert Row5[|Row5| - 1] == 't';
    JoinOnFirst(lines, '\n');
    JoinOnLast(lines, '\n');
    StripTrimmed(SampleText);
    SplitJoin(lines, '\n');
  }

  /** Both parsers skip the header: it starts with `S.No`. */
  lemma HeaderSkipped(order: seq<String>)
    ensures D.ParseLine(Header, DefaultTable, order).None?
    ensures R.ParseLine(Header, DefaultTable).None?
  {
    HeaderFacts();
    StripTrimmed(Header);
  }

  /** Both parsers turn the sample into five `Present` entries, in row order, and skip the header. */
  lemma SampleParses(order: seq<String>)
    requires D.SameCodes(order, DefaultTable)
    ensures D.ParseAttendanceData(SampleText, DefaultTable, order) == SampleEntries
    ensures R.ParseAttendanceData(SampleText, DefaultTable) == SampleEntries
  {
    SampleLines();
    HeaderSkipped(order);
    ParseRow1(order);
    ParseRow2(order);
    ParseRow3(order);
    ParseRow4(order);
    ParseRow5(order);
    var lines := [Header, Row1, Row2, Row3, Row4, Row5];
    assert Strip(SampleText) != [] by {
      HeaderFacts();
      JoinOnFirst(lines, '\n');
    }
    CollectSix(Header, Row1, Row2, Row3, Row4, Row5, D.LineParser(DefaultTable, order), SampleEntries);
    CollectSix(Header, Row1, Row2, Row3, Row4, Row5, R.LineParser(DefaultTable), SampleEntries);
  }

  /** Collecting over a skipped line followed by five read lines. */
  lemma CollectSix<T, U>(h: T, r1: T, r2: T, r3: T, r4: T, r5: T, f: T -> Option<U>, ys: seq<U>)
    requires |ys| == 5 && f(h).None?
    requires f(r1) == Some(ys[0]) && f(r2) == Some(ys[1]) && f(r3) == Some(ys[2])
    requires f(r4) == Some(ys[3]) && f(r5) == Some(ys[4])
    ensures FilterMap([h, r1, r2, r3, r4, r5], f) == ys
  {
    SkipFirst(h, r1, r2, r3, r4, r5, f);
    ReadFive(r1, r2, r3, r4, r5, f, ys);
  }

  lemma SkipFirst<T, U>(h: T, r1: T, r2: T, r3: T, r4: T, r5: T, f: T -> Option<U>)
    requires f(h).None?
    ensures FilterMap([h, r1, r2, r3, r4, r5], f) == FilterMap([r1, r2, r3, r4, r5], f)
  {
    var rows := [r1, r2, r3, r4, r5];
    FilterMapCons(h, rows, f);
    assert [h] + rows == [h, r1, r2, r3, r4, r5];
  }

  lemma ReadFive<T, U>(r1: T, r2: T, r3: T, r4: T, r5: T, f: T -> Option<U>, ys: seq<U>)
    requires |ys| == 5
    requires f(r1) == Some(ys[0]) && f(r2) == Some(ys[1]) && f(r3) == Some(ys[2])
    requires f(r4) == Some(ys[3]) && f(r5) == Some(ys[4])
    ensures FilterMap([r1, r2, r3, r4, r5], f) == ys
  {
    FilterMapAll([r1, r2, r3, r4, r5], f, ys);
  }

  /* Where the two parsers part ways, on lines built from the default table. */

  lemma CodeWords()
    ensures Word("16242101") && Word("16242102") && "16242101"[0] != 'S'
    ensures "16242101" in Codes(DefaultTable) && "16242102" in Codes(DefaultTable)
  {
    Plain1();
    Known1();
    Plain102();
    Known102();
  }

  lemma Plain102()
    ensures Word("16242102")
  {
  }

  lemma Known102()
    ensures "16242102" in Codes(DefaultTable)
  {
    assert Codes(DefaultTable)[1] == "16242102";
  }

  lemma SpelledTwoCodes() ensures "16242101\t16242102" == "16242101" + "\t" + "16242102" {}

  /** `16242101<TAB>16242102`: the Desktop parser reads 16242101, the root parser 16242102. */
  lemma TwoCodesExample(order: seq<String>)
    requires D.SameCodes(order, DefaultTable)
    ensures D.ParseLine("16242101\t16242102", DefaultTable, order).Some?
    ensures D.ParseLine("16242101\t16242102", DefaultTable, order).value.code == "16242101"
    ensures R.ParseLine("16242101\t16242102", DefaultTable).Some?
    ensures R.ParseLine("16242101\t16242102", DefaultTable).value.code == "16242102"
  {
    CodeWords();
    SpelledTwoCodes();
    V.FirstVersusLastCode("16242101", "16242102", DefaultTable, order);
  }

  lemma HeaderWords()
    ensures Word("S.No.") && "S.No" <= "S.No." && IsSpace(' ')
  {
  }

  lemma SpelledIndented() ensures " S.No.\t16242101" == [' '] + "S.No." + "\t" + "16242101" {}

  /** ` S.No.<TAB>16242101`: the Desktop parser skips it as a header, the root parser
      reads an entry for 16242101 from it. */
  lemma IndentedHeaderExample(order: seq<String>)
    ensures D.ParseLine(" S.No.\t16242101", DefaultTable, order).None?
    ensures R.ParseLine(" S.No.\t16242101", DefaultTable).Some?
    ensures R.ParseLine(" S.No.\t16242101", DefaultTable).value.code == "16242101"
  {
    CodeWords();
    HeaderWords();
    SpelledIndented();
    V.IndentedHeader(' ', "S.No.", "16242101", DefaultTable, order);
  }

  lemma StatusWords()
    ensures Word("Absent") && Word("Present")
    ensures StatusWord("Absent") == Some(Absent) && StatusWord("Present") == Some(Present)
    ensures StatusWord("16242101").None?
  {
    StatusTextRoundTrip(Present);
    StatusTextRoundTrip(Absent);
    StatusWordsPlain();
    CodeNoStatus();
  }

  lemma StatusWordsPlain()
    ensures Word("Absent") && Word("Present")
  {
  }

  lemma CodeNoStatus()
    ensures StatusWord("16242101").None?
  {
    assert |Lower("16242101")| == 8;
  }

  lemma SpelledTwoStatuses()
    ensures "16242101\tAbsent\tPresent" == "16242101" + "\t" + "Absent" + "\t" + "Present"
  {
  }

  /** `16242101<TAB>Absent<TAB>Present`: the Desktop parser records Absent, the root parser Present. */
  lemma TwoStatusesExample(order: seq<String>)
    requires D.SameCodes(order, DefaultTable)
    ensures D.ParseLine("16242101\tAbsent\tPresent", DefaultTable, order).Some?
    ensures D.ParseLine("16242101\tAbsent\tPresent", DefaultTable, order).value.status == Absent
    ensures R.ParseLine("16242101\tAbsent\tPresent", DefaultTable).Some?
    ensures R.ParseLine("16242101\tAbsent\tPresent", DefaultTable).value.status == Present
  {
    CodeWords();
    StatusWords();
    NotACode("Absent");
    NotACode("Present");
    SpelledTwoStatuses();
    V.FirstVersusLastStatus("16242101", "Absent", "Present", DefaultTable, order);
  }

}
