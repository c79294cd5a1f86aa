/**
 The attendance endpoints of the web application: marking attendance (an
 upsert keyed on student, course and date) and listing a course's records.
 The table is a sequence of rows in storage order; `.first()` without an
 ordering is taken to return the earliest stored match. The id the database
 assigns to a new row is a parameter.
 */
module WebStore {
  import opened Strings
  import opened Wrappers
  import opened Courses

  /** A calendar date as the request carries it. */
  datatype Date = Date(year: int, month: int, day: int)

  /** One row of the `attendance` table. */
  datatype Record = Record(id: int, studentId: int, courseId: int, date: Date, status: String)

  /** The body of a mark-attendance request. */
  datatype AttendanceCreate = AttendanceCreate(studentId: int, courseId: int, date: Date, status: String)

  type Store = seq<Record>

  /** The row is about the same student, course and date as the request. */
  predicate SameKey(r: Record, req: AttendanceCreate) {
    r.studentId == req.studentId && r.courseId == req.courseId && r.date == req.date
  }

  /** Some stored row has the request's key. */
  predicate Existing(store: Store, req: AttendanceCreate) {
    exists k :: 0 <= k < |store| && SameKey(store[k], req)
  }

  /** Row `k` is the first with the request's key. */
  predicate FirstMatchAt(store: Store, req: AttendanceCreate, k: int) {
    && 0 <= k < |store|
    && SameKey(store[k], req)
    && forall j :: 0 <= j < k ==> !SameKey(store[j], req)
  }

  /** The query `filter(student, course, date).first()`: the index of the first match. */
  function FindFirst(store: Store, req: AttendanceCreate): (r: Option<nat>)
    ensures r.Some? ==> FirstMatchAt(store, req, r.value)
    ensures r.None? <==> !Existing(store, req)
  {
    if |store| == 0 then None
    else if SameKey(store[0], req) then Some(0)
    else
      var r := FindFirst(store[1..], req);
      if r.Some? then
        forall j | 0 <= j < r.value + 1
          ensures !SameKey(store[j], req)
        {
          if j > 0 {
            assert store[j] == store[1..][j - 1];
          }
        }
        Some(r.value + 1)
      else
        assert !Existing(store, req) by {
          forall k | 0 <= k < |store|
            ensures !SameKey(store[k], req)
          {
            if k > 0 {
              assert store[k] == store[1..][k - 1];
            }
          }
        }
        None
  }

  /** The table after the request, and the row the endpoint returns. */
  datatype Marked = Marked(store: Store, record: Record)

  /** `mark_attendance`: overwrite the status of the first row with the request's key,
      or append a new row with id `newId` when there is none. */
  function MarkAttendance(store: Store, req: AttendanceCreate, newId: int): (m: Marked)
    ensures SameKey(m.record, req) && m.record.status == req.status
    ensures Existing(store, req) ==>
              exists k :: && FirstMatchAt(store, req, k)
                          && m.record == store[k].(status := req.status)
                          && m.store == store[k := m.record]
    ensures !Existing(store, req) ==>
              m.record.id == newId && m.store == store + [m.record]
  {
    match FindFirst(store, req)
    case Some(k) =>
      var updated := store[k].(status := req.status);
      Marked(store[k := updated], updated)
    case None =>
      var created := Record(newId, req.studentId, req.courseId, req.date, req.status);
      Marked(store + [created], created)
  }

  /** `get_attendance`: the rows of one course, in storage order. */
  function GetAttendance(store: Store, courseId: int): (rows: Store)
    ensures forall r :: r in rows <==> r in store && r.courseId == courseId
    ensures |rows| <= |store|
  {
    if |store| == 0 then []
    else
      var rest := GetAttendance(store[1..], courseId);
      assert forall r :: r in store <==> r == store[0] || r in store[1..] by {
        assert store == [store[0]] + store[1..];
      }
      if store[0].courseId == courseId then [store[0]] + rest else rest
  }

  /** After marking, the row the same query finds carries the new status. */
  lemma MarkThenFind(store: Store, req: AttendanceCreate, newId: int)
    ensures var after := MarkAttendance(store, req, newId).store;
            && FindFirst(after, req).Some?
            && after[FindFirst(after, req).value].status == req.status
  {
    var m := MarkAttendance(store, req, newId);
    var after := m.store;
    if Existing(store, req) {
      var k :| FirstMatchAt(store, req, k) && m.record == store[k].(status := req.status)
               && after == store[k := m.record];
      assert FirstMatchAt(after, req, k);
      FirstMatchUnique(after, req, k);
    } else {
      var n := |store|;
      assert after[n] == m.record;
      forall j | 0 <= j < n
        ensures !SameKey(after[j], req)
      {
        assert after[j] == store[j];
      }
      assert FirstMatchAt(after, req, n);
      FirstMatchUnique(after, req, n);
    }
  }

  /** There is only one first match. */
  lemma FirstMatchUnique(store: Store, req: AttendanceCreate, k: int)
    requires FirstMatchAt(store, req, k)
    ensures FindFirst(store, req) == Some(k)
  {
    assert Existing(store, req);
  }

  /** Marking the same request twice leaves the table as marking it once. */
  lemma MarkIdempotent(store: Store, req: AttendanceCreate, id1: int, id2: int)
    ensures var once := MarkAttendance(store, req, id1);
            MarkAttendance(once.store, req, id2) == once
  {
    var once := MarkAttendance(store, req, id1);
    MarkThenFind(store, req, id1);
    var k := FindFirst(once.store, req).value;
    assert Existing(once.store, req);
    var twice := MarkAttendance(once.store, req, id2);
    var k' :| FirstMatchAt(once.store, req, k') && twice.record == once.store[k'].(status := req.status)
              && twice.store == once.store[k' := twice.record];
    FirstMatchUnique(once.store, req, k');
    assert twice.record == once.store[k];
    if Existing(store, req) {
      var j :| FirstMatchAt(store, req, j) && once.record == store[j].(status := req.status)
               && once.store == store[j := once.record];
      assert FirstMatchAt(once.store, req, j);
      FirstMatchUnique(once.store, req, j);
    } else {
      assert once.store[|store|] == once.record;
      assert FirstMatchAt(once.store, req, |store|);
      FirstMatchUnique(once.store, req, |store|);
    }
  }

  /** No two rows share a student, course and date. */
  predicate UniqueKeys(store: Store) {
    forall i, j :: 0 <= i < j < |store| ==>
      !(store[i].studentId == store[j].studentId && store[i].courseId == store[j].courseId
        && store[i].date == store[j].date)
  }

  /** Marking never creates a second row for a key. */
  lemma MarkKeepsKeysUnique(store: Store, req: AttendanceCreate, newId: int)
    requires UniqueKeys(store)
    ensures UniqueKeys(MarkAttendance(store, req, newId).store)
  {
    var m := MarkAttendance(store, req, newId);
    if !Existing(store, req) {
      var after := m.store;
      forall i, j | 0 <= i < j < |after|
        ensures !(after[i].studentId == after[j].studentId && after[i].courseId == after[j].courseId
                  && after[i].date == after[j].date)
      {
        assert after[i] == store[i];
        if j < |store| {
          assert after[j] == store[j];
        } else {
          assert !SameKey(store[i], req);
        }
      }
    }
  }

  /** Marking adds at most one row and never removes one. */
  lemma MarkGrowsByAtMostOne(store: Store, req: AttendanceCreate, newId: int)
    ensures var after := MarkAttendance(store, req, newId).store;
            |store| <= |after| <= |store| + 1
  {
  }

  /** Marking attendance for one course leaves every other course's listing as it was. */
  lemma MarkLeavesOtherCourses(store: Store, req: AttendanceCreate, newId: int, courseId: int)
    requires courseId != req.courseId
    ensures GetAttendance(MarkAttendance(store, req, newId).store, courseId) == GetAttendance(store, courseId)
  {
    var m := MarkAttendance(store, req, newId);
    if Existing(store, req) {
      var k :| FirstMatchAt(store, req, k) && m.record == store[k].(status := req.status)
               && m.store == store[k := m.record];
      GetUpdateOther(store, k, m.record, courseId);
    } else {
      GetAppend(store, [m.record], courseId);
      assert GetAttendance([m.record], courseId) == [] by {
        assert [m.record][1..] == [];
      }
    }
  }

  lemma {:induction false} GetUpdateOther(store: Store, k: int, r: Record, courseId: int)
    requires 0 <= k < |store| && store[k].courseId != courseId && r.courseId != courseId
    ensures GetAttendance(store[k := r], courseId) == GetAttendance(store, courseId)
  {
    var after := store[k := r];
    if k > 0 {
      assert after[1..] == store[1..][k - 1 := r];
      GetUpdateOther(store[1..], k - 1, r, courseId);
    } else {
      assert after[1..] == store[1..];
    }
  }

  lemma {:induction false} GetAppend(xs: Store, ys: Store, courseId: int)
    ensures GetAttendance(xs + ys, courseId) == GetAttendance(xs, courseId) + GetAttendance(ys, courseId)
  {
    if |xs| > 0 {
      assert (xs + ys)[1..] == xs[1..] + ys;
      GetAppend(xs[1..], ys, courseId);
    } else {
      assert xs + ys == ys;
    }
  }
}
