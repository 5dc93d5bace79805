/** Option and the sums over tables that the other modules share.  A table is a
    sequence of rows; a row's id is its position, and rows are never removed. */
module Common {

  datatype Option<+T> = None | Some(value: T)

  function Min(a: int, b: int): (m: int)
  {
    if a <= b then a else b
  }

  function Max(a: int, b: int): (m: int)
  {
    if a <= b then b else a
  }

  /** Math.round: to the nearest integer, halves upwards. */
  function MathRound(x: real): int
  {
    (x + 0.5).Floor
  }

  /** The sum of f over a table. */
  function SumBy<T>(s: seq<T>, f: T -> int): int
  {
    if s == [] then 0 else SumBy(s[..|s| - 1], f) + f(s[|s| - 1])
  }

  lemma SumByAppend<T>(s: seq<T>, x: T, f: T -> int)
    ensures SumBy(s + [x], f) == SumBy(s, f) + f(x)
  {
    assert (s + [x])[..|s|] == s;
  }

  lemma {:induction false} SumByConcat<T>(s: seq<T>, t: seq<T>, f: T -> int)
    ensures SumBy(s + t, f) == SumBy(s, f) + SumBy(t, f)
  {
    if t == [] {
      assert s + t == s;
    } else {
      var u := t[..|t| - 1];
      assert s + t == (s + u) + [t[|t| - 1]];
      SumByAppend(s + u, t[|t| - 1], f);
      SumByConcat(s, u, f);
    }
  }

  /** Overwriting one row changes the sum by the difference of that row. */
  lemma {:induction false} SumByUpdate<T>(s: seq<T>, i: nat, x: T, f: T -> int)
    requires i < |s|
    ensures SumBy(s[i := x], f) == SumBy(s, f) - f(s[i]) + f(x)
  {
    var last := |s| - 1;
    if i == last {
      assert s[i := x][..last] == s[..last];
    } else {
      assert s[i := x][..last] == s[..last][i := x];
      SumByUpdate(s[..last], i, x, f);
    }
  }

  /** Two functions that agree on every row have the same sum. */
  lemma {:induction false} SumByAgree<T>(s: seq<T>, t: seq<T>, f: T -> int, g: T -> int)
    requires |s| == |t|
    requires forall i :: 0 <= i < |s| ==> f(s[i]) == g(t[i])
    ensures SumBy(s, f) == SumBy(t, g)
  {
    if s != [] {
      var last := |s| - 1;
      assert f(s[last]) == g(t[last]);
      SumByAgree(s[..last], t[..last], f, g);
    }
  }

  lemma {:induction false} SumByPlus<T>(s: seq<T>, f: T -> int, g: T -> int, h: T -> int)
    requires forall i :: 0 <= i < |s| ==> h(s[i]) == f(s[i]) + g(s[i])
    ensures SumBy(s, h) == SumBy(s, f) + SumBy(s, g)
  {
    if s != [] {
      SumByPlus(s[..|s| - 1], f, g, h);
    }
  }

  lemma {:induction false} SumByNonNegative<T>(s: seq<T>, f: T -> int)
    requires forall i :: 0 <= i < |s| ==> f(s[i]) >= 0
    ensures SumBy(s, f) >= 0
  {
    if s != [] {
      SumByNonNegative(s[..|s| - 1], f);
    }
  }

  /** A row of a non-negative table is at most the whole sum. */
  lemma {:induction false} SumByAtLeast<T>(s: seq<T>, f: T -> int, i: nat)
    requires i < |s|
    requires forall j :: 0 <= j < |s| ==> f(s[j]) >= 0
    ensures f(s[i]) <= SumBy(s, f)
  {
    var last := |s| - 1;
    if i == last {
      SumByNonNegative(s[..last], f);
    } else {
      SumByAtLeast(s[..last], f, i);
    }
  }

  /** The positions of the rows with a one. */
  ghost function Ones<T>(s: seq<T>, f: T -> int): set<int>
  {
    set i | 0 <= i < |s| && f(s[i]) == 1
  }

  /** Summing zeros and ones counts the rows with a one. */
  lemma {:induction false} SumByCounts<T>(s: seq<T>, f: T -> int)
    requires forall i :: 0 <= i < |s| ==> f(s[i]) == 0 || f(s[i]) == 1
    ensures SumBy(s, f) == |Ones(s, f)|
  {
    if s == [] {
      assert Ones(s, f) == {};
    } else {
      var last := |s| - 1;
      SumByCounts(s[..last], f);
      assert forall i :: 0 <= i < last ==> s[..last][i] == s[i];
      assert Ones(s, f) == Ones(s[..last], f) + if f(s[last]) == 1 then {last} else {};
    }
  }

  /** The sum of a sequence of integers. */
  function Sum(s: seq<int>): int
  {
    if s == [] then 0 else Sum(s[..|s| - 1]) + s[|s| - 1]
  }

  lemma {:induction false} SumUpdate(s: seq<int>, i: nat, x: int)
    requires i < |s|
    ensures Sum(s[i := x]) == Sum(s) - s[i] + x
  {
    var last := |s| - 1;
    if i == last {
      assert s[i := x][..last] == s[..last];
    } else {
      assert s[i := x][..last] == s[..last][i := x];
      SumUpdate(s[..last], i, x);
    }
  }

  lemma {:induction false} SumPointwise(s: seq<int>, t: seq<int>)
    requires |s| == |t|
    requires forall i :: 0 <= i < |s| ==> s[i] <= t[i]
    ensures Sum(s) <= Sum(t)
    ensures Sum(s) == Sum(t) ==> s == t
  {
    if s != [] {
      var last := |s| - 1;
      SumPointwise(s[..last], t[..last]);
      assert s == s[..last] + [s[last]];
      assert t == t[..last] + [t[last]];
    }
  }
}
