/** The three edit distances (src/DDTreeFunctor.h, src/StructuralStreamDriftDetector.cpp). */
module EditDistances {

  // ---- edit scripts ----------------------------------------------------------------------

  datatype Edit<T> = Insert(at: nat, value: T) | Delete(at: nat) | Substitute(at: nat, value: T)

  predicate Fits<T>(e: Edit<T>, s: seq<T>) {
    if e.Insert? then e.at <= |s| else e.at < |s|
  }

  function Apply<T>(e: Edit<T>, s: seq<T>): seq<T>
    requires Fits(e, s)
  {
    match e
    case Insert(k, x) => s[..k] + [x] + s[k..]
    case Delete(k) => s[..k] + s[k + 1..]
    case Substitute(k, x) => s[..k] + [x] + s[k + 1..]
  }

  /** The edits, one after the other, turn s into t. */
  ghost predicate Turns<T(!new)>(s: seq<T>, script: seq<Edit<T>>, t: seq<T>)
    decreases |script|
  {
    if script == [] then s == t
    else Fits(script[0], s) && Turns(Apply(script[0], s), script[1..], t)
  }

  ghost predicate IsShortest<T(!new)>(s: seq<T>, t: seq<T>, n: nat) {
    && (exists script :: Turns(s, script, t) && |script| == n)
    && (forall script :: Turns(s, script, t) ==> |script| >= n)
  }

  // ---- the recurrence --------------------------------------------------------------------

  function Min(a: nat, b: nat): nat {
    if b < a then b else a
  }

  function Init<T>(s: seq<T>): seq<T>
    requires s != []
  {
    s[..|s| - 1]
  }

  function Cost<T(==)>(a: T, b: T): nat {
    if a == b then 0 else 1
  }

  ghost function Lev<T(!new)>(s: seq<T>, t: seq<T>): nat
    decreases |s| + |t|
  {
    if s == [] then |t|
    else if t == [] then |s|
    else
      Min(Min(Lev(Init(s), t) + 1, Lev(s, Init(t)) + 1),
          Lev(Init(s), Init(t)) + if s[|s| - 1] == t[|t| - 1] then 0 else 1)
  }

  /** Adjacent cells: one more element on either side adds at most 1 ... */
  lemma OneMoreAtMost<T(!new)>(s: seq<T>, t: seq<T>, x: T)
    ensures Lev(s + [x], t) <= Lev(s, t) + 1
    ensures Lev(s, t + [x]) <= Lev(s, t) + 1
  {
    assert Init(s + [x]) == s && Init(t + [x]) == t;
  }

  /** ... and takes away at most 1. */
  lemma {:induction false} OneMoreAtLeast<T(!new)>(s: seq<T>, t: seq<T>, x: T)
    ensures Lev(s, t) <= Lev(s + [x], t) + 1
    decreases |t|
  {
    hide Lev;
    if t == [] {
      LevNothing(s, t);
      LevNothing(s + [x], t);
    } else {
      var u, y := Init(t), t[|t| - 1];
      assert u + [y] == t;
      OneMoreAtLeast(s, u, x);
      OneMoreAtMost(s, u, y);
      LevLast(s, x, u, y);
    }
  }

  lemma LevNothing<T(!new)>(s: seq<T>, t: seq<T>)
    requires t == []
    ensures Lev(s, t) == |s|
  {
  }

  lemma LevLast<T(!new)>(s: seq<T>, x: T, t: seq<T>, y: T)
    ensures Lev(s + [x], t + [y]) ==
      Min(Min(Lev(s, t + [y]) + 1, Lev(s + [x], t) + 1), Lev(s, t) + if x == y then 0 else 1)
  {
    assert Init(s + [x]) == s && Init(t + [y]) == t;
  }

  lemma {:induction false} LevSymmetric<T(!new)>(s: seq<T>, t: seq<T>)
    ensures Lev(s, t) == Lev(t, s)
    decreases |s| + |t|
  {
    if s != [] && t != [] {
      LevSymmetric(Init(s), t);
      LevSymmetric(s, Init(t));
      LevSymmetric(Init(s), Init(t));
    }
  }

  /** On a match the diagonal is never beaten, so the other two neighbours need no look. */
  lemma DiagonalOnMatch<T(!new)>(s: seq<T>, t: seq<T>, x: T)
    ensures Lev(s + [x], t + [x]) == Lev(s, t)
  {
    assert Init(s + [x]) == s && Init(t + [x]) == t;
    OneMoreAtLeast(s, t, x);
    OneMoreAtLeast(t, s, x);
    LevSymmetric(t, s);
    LevSymmetric(t + [x], s);
  }

  // ---- no script is shorter --------------------------------------------------------------

  lemma {:induction false} LevSelf<T(!new)>(s: seq<T>)
    ensures Lev(s, s) == 0
  {
    if s != [] { LevSelf(Init(s)); }
  }

  /** Two sequences that differ in at most one place are at most 1 apart in their distance to any third. */
  lemma {:induction false} OneEdit<T(!new)>(a: seq<T>, x: seq<T>, y: seq<T>, b: seq<T>, t: seq<T>)
    requires |x| <= 1 && |y| <= 1
    ensures Lev(a + x + b, t) <= Lev(a + y + b, t) + 1
    decreases |b| + |t|
  {
    var s, r := a + x + b, a + y + b;
    if b != [] {
      var c := Init(b);
      assert Init(s) == a + x + c && Init(r) == a + y + c;
      assert s[|s| - 1] == b[|b| - 1] == r[|r| - 1];
      if t != [] {
        OneEdit(a, x, y, c, t);
        OneEdit(a, x, y, b, Init(t));
        OneEdit(a, x, y, c, Init(t));
      }
    } else {
      LastEdit(a, x, y, t);
      assert s == a + x && r == a + y;
    }
  }

  lemma {:induction false} LastEdit<T(!new)>(a: seq<T>, x: seq<T>, y: seq<T>, t: seq<T>)
    requires |x| <= 1 && |y| <= 1
    ensures Lev(a + x, t) <= Lev(a + y, t) + 1
    decreases |t|
  {
    if x == [] {
      assert a + x == a;
      if y == [] { assert a + y == a; } else { assert y == [y[0]]; OneMoreAtLeast(a, t, y[0]); }
    } else if y == [] {
      assert a + y == a && x == [x[0]];
      OneMoreAtMost(a, t, x[0]);
    } else {
      assert Init(a + x) == a == Init(a + y);
      if t != [] { LastEdit(a, x, y, Init(t)); }
    }
  }

  lemma ApplyIsOneEdit<T(!new)>(e: Edit<T>, s: seq<T>, t: seq<T>)
    requires Fits(e, s)
    ensures Lev(s, t) <= Lev(Apply(e, s), t) + 1
  {
    hide Lev;
    var a, x, y, b := EditParts(e, s);
    OneEdit(a, x, y, b, t);
  }

  lemma EditParts<T>(e: Edit<T>, s: seq<T>) returns (a: seq<T>, x: seq<T>, y: seq<T>, b: seq<T>)
    requires Fits(e, s)
    ensures s == a + x + b && Apply(e, s) == a + y + b && |x| <= 1 && |y| <= 1
  {
    match e
    case Insert(k, z) => a, x, y, b := s[..k], [], [z], s[k..];
    case Delete(k) => a, x, y, b := s[..k], [s[k]], [], s[k + 1..];
    case Substitute(k, z) => a, x, y, b := s[..k], [s[k]], [z], s[k + 1..];
  }

  lemma {:induction false} NoShorter<T(!new)>(s: seq<T>, script: seq<Edit<T>>, t: seq<T>)
    requires Turns(s, script, t)
    ensures |script| >= Lev(s, t)
    decreases |script|
  {
    if script == [] {
      LevSelf(s);
    } else {
      NoShorter(Apply(script[0], s), script[1..], t);
      ApplyIsOneEdit(script[0], s, t);
    }
  }

  // ---- a script of that length -----------------------------------------------------------

  lemma {:induction false} TurnsThen<T(!new)>(s: seq<T>, script: seq<Edit<T>>, t: seq<T>, more: seq<Edit<T>>, u: seq<T>)
    requires Turns(s, script, t) && Turns(t, more, u)
    ensures Turns(s, script + more, u)
    decreases |script|
  {
    if script == [] {
      assert script + more == more;
    } else {
      assert (script + more)[1..] == script[1..] + more;
      TurnsThen(Apply(script[0], s), script[1..], t, more, u);
    }
  }

  lemma ApplyBefore<T(!new)>(e: Edit<T>, s: seq<T>, tail: seq<T>)
    requires Fits(e, s)
    ensures Fits(e, s + tail) && Apply(e, s + tail) == Apply(e, s) + tail
  {
    var k := e.at;
    assert (s + tail)[..k] == s[..k];
    match e
    case Insert(_, x) =>
      assert (s + tail)[k..] == s[k..] + tail;
    case Delete(_) =>
      assert (s + tail)[k + 1..] == s[k + 1..] + tail;
    case Substitute(_, x) =>
      assert (s + tail)[k + 1..] == s[k + 1..] + tail;
  }

  /** A script works the same with something behind. */
  lemma {:induction false} TurnsBefore<T(!new)>(s: seq<T>, script: seq<Edit<T>>, t: seq<T>, tail: seq<T>)
    requires Turns(s, script, t)
    ensures Turns(s + tail, script, t + tail)
    decreases |script|
  {
    hide Apply, Fits;
    if script != [] {
      ApplyBefore(script[0], s, tail);
      TurnsBefore(Apply(script[0], s), script[1..], t, tail);
    }
  }

  lemma OneStep<T(!new)>(e: Edit<T>, s: seq<T>)
    requires Fits(e, s)
    ensures Turns(s, [e], Apply(e, s))
  {
    assert [e][1..] == [];
    assert Turns(Apply(e, s), [], Apply(e, s));
  }

  lemma {:induction false} Shortest<T(!new)>(s: seq<T>, t: seq<T>) returns (script: seq<Edit<T>>)
    ensures Turns(s, script, t) && |script| == Lev(s, t)
    decreases |s| + |t|
  {
    hide Apply;
    if s == [] && t == [] {
      script := [];
    } else if s == [] {
      script := AppendLast(s, t);
    } else if t == [] {
      script := DropLast(s, t);
    } else if Lev(s, t) == Lev(Init(s), t) + 1 {
      script := DropLast(s, t);
    } else if Lev(s, t) == Lev(s, Init(t)) + 1 {
      script := AppendLast(s, t);
    } else {
      script := ChangeLast(s, t);
    }
  }

  lemma {:induction false} ChangeLast<T(!new)>(s: seq<T>, t: seq<T>) returns (script: seq<Edit<T>>)
    requires s != [] && t != []
    ensures Turns(s, script, t)
    ensures |script| == Lev(Init(s), Init(t)) + if s[|s| - 1] == t[|t| - 1] then 0 else 1
    decreases |s| + |t|, 0
  {
    hide Turns, Lev;
    var x, y := s[|s| - 1], t[|t| - 1];
    script := Shortest(Init(s), Init(t));
    TurnsBefore(Init(s), script, Init(t), [x]);
    assert Init(s) + [x] == s && Init(t) + [y] == t;
    if x != y {
      var u, e := Init(t) + [x], Substitute(|t| - 1, y);
      OneStep(e, u);
      assert Apply(e, u) == t;
      TurnsThen(s, script, u, [e], t);
      script := script + [e];
    }
  }

  lemma {:induction false} DropLast<T(!new)>(s: seq<T>, t: seq<T>) returns (script: seq<Edit<T>>)
    requires s != []
    ensures Turns(s, script, t) && |script| == Lev(Init(s), t) + 1
    decreases |s| + |t|, 0
  {
    var e := Delete(|s| - 1);
    script := Shortest(Init(s), t);
    assert Apply(e, s) == Init(s);
    script := [e] + script;
  }

  lemma {:induction false} AppendLast<T(!new)>(s: seq<T>, t: seq<T>) returns (script: seq<Edit<T>>)
    requires t != []
    ensures Turns(s, script, t) && |script| == Lev(s, Init(t)) + 1
    decreases |s| + |t|, 0
  {
    hide Turns, Lev;
    var u, e := Init(t), Insert(|t| - 1, t[|t| - 1]);
    script := Shortest(s, u);
    OneStep(e, u);
    assert Apply(e, u) == t;
    TurnsThen(s, script, u, [e], t);
    script := script + [e];
  }

  /** The recurrence computes the length of the shortest edit script. */
  lemma LevIsShortest<T(!new)>(s: seq<T>, t: seq<T>)
    ensures IsShortest(s, t, Lev(s, t))
  {
    var script := Shortest(s, t);
    forall script | Turns(s, script, t) ensures |script| >= Lev(s, t) {
      NoShorter(s, script, t);
    }
  }

  // ---- the programs ----------------------------------------------------------------------

  /** What a cell of the matrix holds. */
  ghost function Cell<T(!new)>(s: seq<T>, t: seq<T>, i: nat, j: nat): nat
    requires i <= |s| && j <= |t|
  {
    Lev(s[..i], t[..j])
  }

  lemma Borders<T(!new)>(s: seq<T>, t: seq<T>, k: nat)
    ensures k <= |s| ==> Cell(s, t, k, 0) == k
    ensures k <= |t| ==> Cell(s, t, 0, k) == k
  {
  }

  lemma Neighbours<T(!new)>(s: seq<T>, t: seq<T>, i: nat, j: nat)
    requires 0 < i <= |s| && 0 < j <= |t|
    ensures Cell(s, t, i, j) ==
      Min(Min(Cell(s, t, i - 1, j) + 1, Cell(s, t, i, j - 1) + 1),
          Cell(s, t, i - 1, j - 1) + if s[i - 1] == t[j - 1] then 0 else 1)
    ensures s[i - 1] == t[j - 1] ==> Cell(s, t, i, j) == Cell(s, t, i - 1, j - 1)
  {
    assert Init(s[..i]) == s[..i - 1] && Init(t[..j]) == t[..j - 1];
    assert s[..i] == s[..i - 1] + [s[i - 1]] && t[..j] == t[..j - 1] + [t[j - 1]];
    if s[i - 1] == t[j - 1] { DiagonalOnMatch(s[..i - 1], t[..j - 1], s[i - 1]); }
  }

  lemma WholeCell<T(!new)>(s: seq<T>, t: seq<T>)
    ensures Cell(s, t, |s|, |t|) == Lev(s, t)
  {
    assert s[..|s|] == s && t[..|t|] == t;
  }

  /** edit_distance with the full matrix. */
  method EditDistanceMatrix<T(==, !new)>(s1: seq<T>, s2: seq<T>) returns (distance: nat)
    ensures IsShortest(s1, s2, distance)
  {
    hide Lev, Cell, IsShortest;
    var len1, len2 := |s1|, |s2|;
    var d := new nat[len1 + 1, len2 + 1];
    d[0, 0] := 0;
    Borders(s1, s2, 0);
    for i := 1 to len1 + 1
      invariant forall k :: 0 <= k < i ==> d[k, 0] == Cell(s1, s2, k, 0)
    {
      d[i, 0] := i;
      Borders(s1, s2, i);
    }
    for i := 1 to len2 + 1
      invariant forall k :: 0 <= k <= len1 ==> d[k, 0] == Cell(s1, s2, k, 0)
      invariant forall k :: 0 <= k < i ==> d[0, k] == Cell(s1, s2, 0, k)
    {
      d[0, i] := i;
      Borders(s1, s2, i);
    }
    for i := 1 to len1 + 1
      invariant forall k :: 0 <= k <= len1 ==> d[k, 0] == Cell(s1, s2, k, 0)
      invariant forall k, l :: 0 <= k < i && 0 <= l <= len2 ==> d[k, l] == Cell(s1, s2, k, l)
    {
      for j := 1 to len2 + 1
        invariant forall k :: 0 <= k <= len1 ==> d[k, 0] == Cell(s1, s2, k, 0)
        invariant forall k, l :: 0 <= k < i && 0 <= l <= len2 ==> d[k, l] == Cell(s1, s2, k, l)
        invariant forall l :: 0 <= l < j ==> d[i, l] == Cell(s1, s2, i, l)
      {
        Neighbours(s1, s2, i, j);
        d[i, j] := Min(Min(d[i - 1, j] + 1, d[i, j - 1] + 1), d[i - 1, j - 1] + Cost(s1[i - 1], s2[j - 1]));
      }
    }
    WholeCell(s1, s2);
    LevIsShortest(s1, s2);
    return d[len1, len2];
  }

  /** edit_distance_levenshtein: two rows that change places. */
  method EditDistanceLevenshtein<T(==, !new)>(s1: seq<T>, s2: seq<T>) returns (distance: nat)
    ensures IsShortest(s1, s2, distance)
  {
    hide Lev, Cell, IsShortest;
    var len1, len2 := |s1|, |s2|;
    var col, prevCol := new nat[len2 + 1], new nat[len2 + 1];
    for i := 0 to prevCol.Length
      invariant forall k :: 0 <= k < i ==> prevCol[k] == Cell(s1, s2, 0, k)
    {
      prevCol[i] := i;
      Borders(s1, s2, i);
    }
    for i := 0 to len1
      invariant col != prevCol && col.Length == prevCol.Length == len2 + 1 && fresh(col) && fresh(prevCol)
      invariant forall k :: 0 <= k <= len2 ==> prevCol[k] == Cell(s1, s2, i, k)
    {
      col[0] := i + 1;
      Borders(s1, s2, i + 1);
      for j := 0 to len2
        invariant forall k :: 0 <= k <= len2 ==> prevCol[k] == Cell(s1, s2, i, k)
        invariant forall k :: 0 <= k <= j ==> col[k] == Cell(s1, s2, i + 1, k)
      {
        Neighbours(s1, s2, i + 1, j + 1);
        col[j + 1] := Min(Min(1 + col[j], 1 + prevCol[1 + j]), prevCol[j] + Cost(s1[i], s2[j]));
      }
      col, prevCol := prevCol, col;
    }
    WholeCell(s1, s2);
    LevIsShortest(s1, s2);
    return prevCol[len2];
  }

  /** The drift detector's edit_distance: on a match it takes the diagonal unseen. */
  method EditDistanceDiagonal<T(==, !new)>(v1: seq<T>, v2: seq<T>) returns (distance: nat)
    ensures IsShortest(v1, v2, distance)
  {
    hide Lev, Cell, IsShortest;
    var len1, len2 := |v1|, |v2|;
    var matrix := new nat[len1 + 1, len2 + 1];
    for i := 0 to len1 + 1
      invariant forall k :: 0 <= k < i ==> matrix[k, 0] == Cell(v1, v2, k, 0)
    {
      matrix[i, 0] := i;
      Borders(v1, v2, i);
    }
    Borders(v1, v2, 0);
    for i := 0 to len2 + 1
      invariant forall k :: 0 <= k <= len1 ==> matrix[k, 0] == Cell(v1, v2, k, 0)
      invariant forall k :: 0 <= k < i ==> matrix[0, k] == Cell(v1, v2, 0, k)
    {
      matrix[0, i] := i;
      Borders(v1, v2, i);
    }
    for i := 1 to len1 + 1
      invariant forall k :: 0 <= k <= len1 ==> matrix[k, 0] == Cell(v1, v2, k, 0)
      invariant forall k, l :: 0 <= k < i && 0 <= l <= len2 ==> matrix[k, l] == Cell(v1, v2, k, l)
    {
      var c1 := v1[i - 1];
      for j := 1 to len2 + 1
        invariant forall k :: 0 <= k <= len1 ==> matrix[k, 0] == Cell(v1, v2, k, 0)
        invariant forall k, l :: 0 <= k < i && 0 <= l <= len2 ==> matrix[k, l] == Cell(v1, v2, k, l)
        invariant forall l :: 0 <= l < j ==> matrix[i, l] == Cell(v1, v2, i, l)
      {
        var c2 := v2[j - 1];
        Neighbours(v1, v2, i, j);
        if c1 == c2 {
          matrix[i, j] := matrix[i - 1, j - 1];
        } else {
          var deletion, insert, substitute := matrix[i - 1, j] + 1, matrix[i, j - 1] + 1, matrix[i - 1, j - 1] + 1;
          var minimum := deletion;
          if insert < minimum {
            minimum := insert;
          }
          if substitute < minimum {
            minimum := substitute;
          }
          matrix[i, j] := minimum;
        }
      }
    }
    WholeCell(v1, v2);
    LevIsShortest(v1, v2);
    return matrix[len1, len2];
  }
}
