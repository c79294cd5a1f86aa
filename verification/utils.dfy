/**
 The helpers of `utils.py` the application validates and formats with:
 course-code and status validation, the safe percentage and file-name
 sanitising. Percentages are computed over exact reals; the rounding of
 `safe_percentage`'s floating-point division is not modelled.
 */
module Utils {
  import opened Strings
  import opened Wrappers
  import opened Courses

  /** `[A-Za-z0-9]`: an ASCII letter or digit. */
  predicate IsAlnum(c: char) {
    'A' <= c <= 'Z' || 'a' <= c <= 'z' || '0' <= c <= '9'
  }

  predicate AllAlnum(s: String) {
    forall k :: 0 <= k < |s| ==> IsAlnum(s[k])
  }

  /** Number of letters and digits at the front of `s[i..]`. */
  function AlnumRun(s: String, i: nat): (n: nat)
    requires i <= |s|
    ensures i + n <= |s|
    ensures AllAlnum(s[i..i + n])
    ensures i + n < |s| ==> !IsAlnum(s[i + n])
    decreases |s| - i
  {
    if i < |s| && IsAlnum(s[i]) then
      var n := AlnumRun(s, i + 1);
      assert s[i..i + 1 + n] == [s[i]] + s[i + 1..i + 1 + n];
      1 + n
    else 0
  }

  /** `re.match(r'^[A-Za-z0-9]{6,10}$', code)`, after the empty-string check. The class
      takes at most ten characters; `$` then matches at the end of the string or just
      before a final newline. */
  function ValidateCourseCode(code: String): (ok: bool)
    ensures ok <==> || (6 <= |code| <= 10 && AllAlnum(code))
                    || (7 <= |code| <= 11 && code[|code| - 1] == '\n' && AllAlnum(code[..|code| - 1]))
  {
    var run := AlnumRun(code, 0);
    var m := if run < 10 then run else 10;
    assert code[..m] == code[0..m];
    assert AllAlnum(code[..m]) by {
      assert code[0..m] == code[0..run][..m];
    }
    6 <= m && (m == |code| || (m + 1 == |code| && code[m] == '\n'))
  }

  /** The intended rule for a course code: six to ten letters or digits, nothing else. */
  function ValidateCourseCodeStrict(code: String): (ok: bool)
    ensures ok <==> 6 <= |code| <= 10 && AllAlnum(code)
  {
    var run := AlnumRun(code, 0);
    assert code[0..run] == code[..run];
    6 <= run <= 10 && run == |code|
  }

  /** `validate_attendance_status`: the stripped text is `present` or `absent` in any case. */
  function ValidateAttendanceStatus(status: String): (ok: bool)
    ensures ok <==> Lower(Strip(status)) == "present" || Lower(Strip(status)) == "absent"
  {
    status != [] && StatusWord(Strip(status)).Some?
  }

  /** `safe_percentage`: `numerator / denominator * 100`, and 0 for a zero denominator. */
  function SafePercentage(numerator: real, denominator: real): (p: real)
    ensures denominator == 0.0 ==> p == 0.0
    ensures denominator != 0.0 ==> p * denominator == numerator * 100.0
  {
    if denominator == 0.0 then 0.0 else numerator / denominator * 100.0
  }

  /** The characters `sanitize_filename` replaces. */
  const InvalidChars: String := "<>:\"/\\|?*"

  /** `s.replace(c, r)` for single characters. */
  function ReplaceChar(s: String, c: char, r: char): (t: String)
    ensures |t| == |s|
    ensures forall k :: 0 <= k < |s| ==> t[k] == if s[k] == c then r else s[k]
  {
    seq(|s|, k requires 0 <= k < |s| => if s[k] == c then r else s[k])
  }

  /** The loop of `sanitize_filename`: replace each character of `cs` in turn. */
  function ReplaceEach(s: String, cs: String): String
    decreases |cs|
  {
    if |cs| == 0 then s else ReplaceEach(ReplaceChar(s, cs[0], '_'), cs[1..])
  }

  /** `sanitize_filename`. */
  function SanitizeFilename(filename: String): (clean: String)
    ensures |clean| == |filename|
    ensures forall k :: 0 <= k < |filename| ==>
              clean[k] == if filename[k] in InvalidChars then '_' else filename[k]
  {
    ReplaceEachAt(filename, InvalidChars);
    ReplaceEach(filename, InvalidChars)
  }

  /** Replacing by `_` character after character replaces every one of them, and only them. */
  lemma {:induction false} ReplaceEachAt(s: String, cs: String)
    requires '_' !in cs
    ensures |ReplaceEach(s, cs)| == |s|
    ensures forall k :: 0 <= k < |s| ==> ReplaceEach(s, cs)[k] == if s[k] in cs then '_' else s[k]
    decreases |cs|
  {
    if |cs| > 0 {
      var t := ReplaceChar(s, cs[0], '_');
      ReplaceEachAt(t, cs[1..]);
      forall k | 0 <= k < |s|
        ensures ReplaceEach(s, cs)[k] == if s[k] in cs then '_' else s[k]
      {
        assert s[k] in cs <==> s[k] == cs[0] || s[k] in cs[1..] by {
          assert cs == [cs[0]] + cs[1..];
        }
      }
    }
  }

  /** A sanitised name holds none of the replaced characters. */
  lemma SanitizedIsClean(filename: String)
    ensures forall c :: c in SanitizeFilename(filename) ==> c !in InvalidChars
  {
    var clean := SanitizeFilename(filename);
    forall c | c in clean
      ensures c !in InvalidChars
    {
      var k :| 0 <= k < |clean| && clean[k] == c;
    }
  }

  /** Sanitising twice is sanitising once. */
  lemma SanitizeIdempotent(filename: String)
    ensures SanitizeFilename(SanitizeFilename(filename)) == SanitizeFilename(filename)
  {
    var once := SanitizeFilename(filename);
    var twice := SanitizeFilename(once);
    forall k | 0 <= k < |once|
      ensures twice[k] == once[k]
    {
    }
  }

  /** A name free of the replaced characters comes back unchanged. */
  lemma SanitizeKeepsCleanNames(filename: String)
    requires forall c :: c in filename ==> c !in InvalidChars
    ensures SanitizeFilename(filename) == filename
  {
    var clean := SanitizeFilename(filename);
    forall k | 0 <= k < |filename|
      ensures clean[k] == filename[k]
    {
      assert filename[k] in filename;
    }
  }

  /** The course-code cases of the utility tests. */
  lemma CourseCodeExamples()
    ensures ValidateCourseCode("16242101") && ValidateCourseCode("NEC00076")
    ensures !ValidateCourseCode("short") && !ValidateCourseCode("")
  {
    ValidCode("16242101");
    ValidCode("NEC00076");
  }

  lemma ValidCode(code: String)
    requires code == "16242101" || code == "NEC00076"
    ensures ValidateCourseCode(code)
  {
    assert |code| == 8 && AllAlnum(code);
  }

  /** Python's `$` also matches before a final newline, so a code followed by one passes,
      while the intended rule rejects it. */
  lemma TrailingNewlineAccepted()
    ensures ValidateCourseCode("16242101" + "\n")
    ensures !ValidateCourseCodeStrict("16242101" + "\n")
  {
    StrictCode();
    NewlineAppended("16242101");
  }

  lemma StrictCode()
    ensures ValidateCourseCodeStrict("16242101")
  {
    assert AllAlnum("16242101");
  }

  /** Any code the intended rule accepts, with a newline appended, passes the check as
      written and fails the intended rule. */
  lemma NewlineAppended(code: String)
    requires ValidateCourseCodeStrict(code)
    ensures ValidateCourseCode(code + "\n")
    ensures !ValidateCourseCodeStrict(code + "\n")
  {
    var c := code + "\n";
    assert c[..|code|] == code;
    assert c[|code|] == '\n';
    assert !IsAlnum(c[|code|]);
  }

  /** Without a final newline the check as written and the intended rule agree. */
  lemma StrictAgrees(code: String)
    requires |code| == 0 || code[|code| - 1] != '\n'
    ensures ValidateCourseCode(code) == ValidateCourseCodeStrict(code)
  {
  }

  /** The status cases of the utility tests. */
  lemma StatusExamples()
    ensures ValidateAttendanceStatus("Present") && ValidateAttendanceStatus("Absent")
    ensures !ValidateAttendanceStatus("invalid")
  {
    StripTrimmed("Present");
    StripTrimmed("Absent");
    StripTrimmed("invalid");
  }

  /** Every status a parser produces, written out, passes the status check. */
  lemma ParsedStatusesValid(st: Status)
    ensures ValidateAttendanceStatus(StatusText(st))
  {
    StatusExamples();
  }

  /** The percentage cases of the utility tests. */
  lemma PercentageExamples()
    ensures SafePercentage(50.0, 100.0) == 50.0
    ensures SafePercentage(0.0, 0.0) == 0.0
    ensures SafePercentage(3.0, 4.0) == 75.0
  {
  }

  /** A part of a positive whole is between 0 and 100 percent of it. */
  lemma PercentageBounds(numerator: real, denominator: real)
    requires 0.0 <= numerator <= denominator && denominator > 0.0
    ensures 0.0 <= SafePercentage(numerator, denominator) <= 100.0
  {
    var p := SafePercentage(numerator, denominator);
    assert p * denominator == numerator * 100.0;
    assert p * denominator <= denominator * 100.0;
  }
}
