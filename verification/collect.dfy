/**
 The loop shape both parsers share: walk the lines in order and append the
 line's result when it has one (`for line in lines: ... data.append(...)`).
 */
module Collect {
  import opened Strings
  import opened Wrappers

  /** The lines of the pasted text: `text.strip().split('\n')`. */
  function Lines(text: String): (lines: seq<String>)
    ensures |lines| >= 1
    ensures forall k :: 0 <= k < |lines| ==> '\n' !in lines[k]
  {
    SplitOn(Strip(text), '\n')
  }

  /** Keep the `Some` results of `f` over `xs`, in order. */
  function FilterMap<T, U>(xs: seq<T>, f: T -> Option<U>): (ys: seq<U>)
    ensures |ys| <= |xs|
    ensures forall y :: y in ys ==> exists x :: x in xs && f(x) == Some(y)
  {
    if |xs| == 0 then []
    else
      var rest := FilterMap(xs[1..], f);
      assert forall y :: y in rest ==> exists x :: x in xs && f(x) == Some(y) by {
        forall y | y in rest
          ensures exists x :: x in xs && f(x) == Some(y)
        {
          var x :| x in xs[1..] && f(x) == Some(y);
          assert x in xs;
        }
      }
      match f(xs[0])
      case Some(y) => [y] + rest
      case None => rest
  }

  /** `idx` lists, in increasing order, the positions of `xs` that produced `ys`;
      every other position produced nothing. */
  ghost predicate Origins<T, U>(xs: seq<T>, f: T -> Option<U>, ys: seq<U>, idx: seq<int>) {
    && |idx| == |ys|
    && (forall k :: 0 <= k < |idx| ==> 0 <= idx[k] < |xs| && f(xs[idx[k]]) == Some(ys[k]))
    && (forall k, m :: 0 <= k < m < |idx| ==> idx[k] < idx[m])
    && (forall j :: 0 <= j < |xs| && j !in idx ==> f(xs[j]).None?)
  }

  /** Each result comes from its own input position, results keep input order,
      and every position that produced nothing is dropped. */
  lemma {:induction false} FilterMapOrigins<T, U>(xs: seq<T>, f: T -> Option<U>)
    ensures exists idx :: Origins(xs, f, FilterMap(xs, f), idx)
  {
    if |xs| == 0 {
      assert FilterMap(xs, f) == [];
      assert Origins(xs, f, [], []);
    } else {
      FilterMapOrigins(xs[1..], f);
      var rest := FilterMap(xs[1..], f);
      var idx' :| Origins(xs[1..], f, rest, idx');
      var shifted := Shift(idx');
      ShiftOrigins(xs, f, rest, idx');
      if f(xs[0]).Some? {
        var y := f(xs[0]).value;
        assert FilterMap(xs, f) == [y] + rest;
        ConsSome(xs, f, y, rest, shifted);
      } else {
        assert FilterMap(xs, f) == rest;
        ConsNone(xs, f, rest, shifted);
      }
    }
  }

  lemma ConsSome<T, U>(xs: seq<T>, f: T -> Option<U>, y: U, rest: seq<U>, shifted: seq<int>)
    requires |xs| > 0 && f(xs[0]) == Some(y) && |shifted| == |rest|
    requires forall k :: 0 <= k < |shifted| ==> 1 <= shifted[k] < |xs| && f(xs[shifted[k]]) == Some(rest[k])
    requires forall k, m :: 0 <= k < m < |shifted| ==> shifted[k] < shifted[m]
    requires forall j :: 1 <= j < |xs| && j !in shifted ==> f(xs[j]).None?
    ensures Origins(xs, f, [y] + rest, [0] + shifted)
  {
    var idx := [0] + shifted;
    var ys := [y] + rest;
    forall k | 0 <= k < |idx|
      ensures 0 <= idx[k] < |xs| && f(xs[idx[k]]) == Some(ys[k])
    {
      if k > 0 {
        assert idx[k] == shifted[k - 1] && ys[k] == rest[k - 1];
      }
    }
    forall k, m | 0 <= k < m < |idx|
      ensures idx[k] < idx[m]
    {
      assert idx[m] == shifted[m - 1];
      if k > 0 {
        assert idx[k] == shifted[k - 1];
      }
    }
    forall j | 0 <= j < |xs| && j !in idx
      ensures f(xs[j]).None?
    {
      assert j != 0;
      assert j !in shifted;
    }
  }

  lemma ConsNone<T, U>(xs: seq<T>, f: T -> Option<U>, rest: seq<U>, shifted: seq<int>)
    requires |xs| > 0 && f(xs[0]).None? && |shifted| == |rest|
    requires forall k :: 0 <= k < |shifted| ==> 1 <= shifted[k] < |xs| && f(xs[shifted[k]]) == Some(rest[k])
    requires forall k, m :: 0 <= k < m < |shifted| ==> shifted[k] < shifted[m]
    requires forall j :: 1 <= j < |xs| && j !in shifted ==> f(xs[j]).None?
    ensures Origins(xs, f, rest, shifted)
  {
  }

  function Shift(idx: seq<int>): (r: seq<int>)
    ensures |r| == |idx|
    ensures forall k :: 0 <= k < |idx| ==> r[k] == idx[k] + 1
  {
    seq(|idx|, k requires 0 <= k < |idx| => idx[k] + 1)
  }

  lemma ShiftOrigins<T, U>(xs: seq<T>, f: T -> Option<U>, rest: seq<U>, idx: seq<int>)
    requires |xs| > 0 && Origins(xs[1..], f, rest, idx)
    ensures forall k :: 0 <= k < |idx| ==> 1 <= Shift(idx)[k] < |xs| && f(xs[Shift(idx)[k]]) == Some(rest[k])
    ensures forall k, m :: 0 <= k < m < |idx| ==> Shift(idx)[k] < Shift(idx)[m]
    ensures forall j :: 1 <= j < |xs| && j !in Shift(idx) ==> f(xs[j]).None?
  {
    var shifted := Shift(idx);
    forall j | 1 <= j < |xs| && j !in shifted
      ensures f(xs[j]).None?
    {
      assert xs[j] == xs[1..][j - 1];
    }
    forall k | 0 <= k < |shifted|
      ensures f(xs[shifted[k]]) == Some(rest[k])
    {
      assert xs[shifted[k]] == xs[1..][idx[k]];
    }
  }

  /** Collecting over two blocks of lines is collecting over each block in turn. */
  lemma {:induction false} FilterMapAppend<T, U>(xs: seq<T>, zs: seq<T>, f: T -> Option<U>)
    ensures FilterMap(xs + zs, f) == FilterMap(xs, f) + FilterMap(zs, f)
  {
    if |xs| > 0 {
      assert (xs + zs)[1..] == xs[1..] + zs;
      FilterMapAppend(xs[1..], zs, f);
    } else {
      assert xs + zs == zs;
    }
  }

  /** Collecting over a line followed by more lines. */
  lemma FilterMapCons<T, U>(x: T, xs: seq<T>, f: T -> Option<U>)
    ensures FilterMap([x] + xs, f) == (if f(x).Some? then [f(x).value] else []) + FilterMap(xs, f)
  {
    assert ([x] + xs)[1..] == xs;
  }

  /** When every line yields a result, collecting keeps them all, position for position. */
  lemma {:induction false} FilterMapAll<T, U>(xs: seq<T>, f: T -> Option<U>, ys: seq<U>)
    requires |xs| == |ys|
    requires forall k :: 0 <= k < |xs| ==> f(xs[k]) == Some(ys[k])
    ensures FilterMap(xs, f) == ys
  {
    if |xs| > 0 {
      FilterMapAll(xs[1..], f, ys[1..]);
      assert [ys[0]] + ys[1..] == ys;
    }
  }

  /** Position `k` is the first of `xs` at which `f` yields a result. */
  predicate FirstSomeAt<T, U>(xs: seq<T>, f: T -> Option<U>, k: int) {
    && 0 <= k < |xs|
    && f(xs[k]).Some?
    && forall j :: 0 <= j < k ==> f(xs[j]).None?
  }

  /** The first result `f` yields over `xs`, left to right (a `for ...: if ...: return` loop). */
  function FirstSome<T, U(==)>(xs: seq<T>, f: T -> Option<U>): (r: Option<U>)
    ensures r.Some? ==> exists k :: FirstSomeAt(xs, f, k) && r == f(xs[k])
    ensures r.None? <==> forall k :: 0 <= k < |xs| ==> f(xs[k]).None?
  {
    if |xs| == 0 then None
    else if f(xs[0]).Some? then
      assert FirstSomeAt(xs, f, 0);
      f(xs[0])
    else
      var r := FirstSome(xs[1..], f);
      if r.Some? then
        var k :| FirstSomeAt(xs[1..], f, k) && r == f(xs[1..][k]);
        forall j | 0 <= j < k + 1
          ensures f(xs[j]).None?
        {
          if j > 0 {
            assert xs[j] == xs[1..][j - 1];
          }
        }
        assert FirstSomeAt(xs, f, k + 1);
        r
      else
        assert forall k :: 0 <= k < |xs| ==> f(xs[k]).None? by {
          forall k | 0 <= k < |xs|
            ensures f(xs[k]).None?
          {
            if k > 0 {
              assert xs[k] == xs[1..][k - 1];
            }
          }
        }
        r
  }
}
