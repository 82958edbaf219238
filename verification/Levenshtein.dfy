/**
  driver/internal/protocol/levenshtein: the one-row distance loop, the recursive edit distance it
  computes, and what that distance is: the least number of single edits, a metric.
 */
module Levenshtein {
  import opened Bytes

  /** A word is the sequence of its runes; only their equality matters. */
  type Word = seq<int>

  function Front(s: Word): (r: Word)
    requires |s| > 0
  {
    s[..|s| - 1]
  }

  function Last(s: Word): (r: int)
    requires |s| > 0
  {
    s[|s| - 1]
  }

  function Change(x: int, y: int): (n: nat)
  {
    if x == y then 0 else 1
  }

  /** The cheapest last step, given the distances after deleting, inserting and changing. */
  function Cheapest(deleted: int, inserted: int, changed: int, x: int, y: int): (n: int)
    ensures deleted >= 0 && inserted >= 0 && changed >= 0 ==> n >= 0
  {
    Min(Min(deleted + 1, inserted + 1), changed + Change(x, y))
  }

  /** The edit distance: delete the last rune of a, insert the last rune of b, or change one into the other. */
  function Dist(a: Word, b: Word): (d: nat)
    decreases |a| + |b|
  {
    if |a| == 0 then |b|
    else if |b| == 0 then |a|
    else Cheapest(Dist(Front(a), b), Dist(a, Front(b)), Dist(Front(a), Front(b)), Last(a), Last(b))
  }

  // ---------------------------------------------------------------- the loop

  /** The distances of a to all prefixes of b: a row of the distance table. */
  ghost function TableRow(a: Word, b: Word): (r: seq<int>)
    ensures |r| == |b| + 1 && forall k :: 0 <= k <= |b| ==> r[k] == Dist(a, b[..k])
  {
    seq(|b| + 1, k requires 0 <= k <= |b| => Dist(a, b[..k]))
  }

  /** How row r1, for a word that ends in ca, follows from row r0. */
  ghost predicate Follows(r0: seq<int>, r1: seq<int>, ca: int, b: Word)
  {
    && |r0| == |r1| == |b| + 1 && r1[0] == r0[0] + 1
    && forall j :: 0 <= j < |b| ==> r1[j + 1] == Cheapest(r0[j + 1], r1[j], r0[j], ca, b[j])
  }

  lemma RowsFollow(a: Word, b: Word)
    requires |a| > 0
    ensures Follows(TableRow(Front(a), b), TableRow(a, b), Last(a), b)
  {
    var r0, r1 := TableRow(Front(a), b), TableRow(a, b);
    forall j | 0 <= j < |b|
      ensures r1[j + 1] == Cheapest(r0[j + 1], r1[j], r0[j], Last(a), b[j])
    {
      EntryFollows(a, b[..j + 1], b[..j], b[j]);
    }
    assert b[..0] == [];
  }

  lemma {:induction false} EntryFollows(a: Word, b: Word, front: Word, x: int)
    requires |a| > 0 && |b| > 0 && front == Front(b) && x == Last(b)
    ensures Dist(a, b) == Cheapest(Dist(Front(a), b), Dist(a, front), Dist(Front(a), front), Last(a), x)
  {
  }

  /** distance: one row, updated in place. */
  method Distance(a: Word, b: Word) returns (d: int)
    ensures d == Dist(a, b)
  {
    var f := new int[|b| + 1];
    for j := 0 to f.Length
      invariant forall k :: 0 <= k < j ==> f[k] == k
    {
      f[j] := j;
    }
    assert f[..] == TableRow(a[..0], b);
    for i := 0 to |a|
      invariant f[..] == TableRow(a[..i], b)
    {
      assert Front(a[..i + 1]) == a[..i];
      RowsFollow(a[..i + 1], b);
      UpdateRow(f, a[i], b, TableRow(a[..i], b), TableRow(a[..i + 1], b));
    }
    assert a[..|a|] == a && b[..|b|] == b;
    d := f[f.Length - 1];
  }

  /** The inner loop; fj1 keeps the value that f[j - 1] had before it was overwritten. */
  method UpdateRow(f: array<int>, ca: int, b: Word, ghost r0: seq<int>, ghost r1: seq<int>)
    requires Follows(r0, r1, ca, b) && f[..] == r0
    modifies f
    ensures f[..] == r1
  {
    var j := 1;
    var fj1 := f[0];
    f[0] := f[0] + 1;
    for c := 0 to |b|
      invariant j == c + 1 && f.Length == |b| + 1 && fj1 == r0[c]
      invariant (forall k :: 0 <= k < j ==> f[k] == r1[k]) && (forall k :: j <= k < f.Length ==> f[k] == r0[k])
    {
      var cb := b[c];
      var mn := Min(f[j] + 1, f[j - 1] + 1);
      if cb != ca {
        mn := Min(mn, fj1 + 1);
      } else {
        mn := Min(mn, fj1);
      }
      fj1, f[j] := f[j], mn;
      j := j + 1;
    }
  }

  // ---------------------------------------------------------------- a metric

  lemma {:induction false} DistBounds(a: Word, b: Word)
    ensures Dist(a, b) <= |a| + |b|
    ensures |a| <= |b| + Dist(a, b) && |b| <= |a| + Dist(a, b)
    ensures Dist(a, b) <= if |a| < |b| then |b| else |a|
    decreases |a| + |b|
  {
    if |a| > 0 && |b| > 0 {
      DistBounds(Front(a), b);
      DistBounds(a, Front(b));
      DistBounds(Front(a), Front(b));
    }
  }

  /** The distance is zero exactly for equal words. */
  lemma {:induction false} ZeroIffEqual(a: Word, b: Word)
    ensures Dist(a, b) == 0 <==> a == b
    decreases |a| + |b|
  {
    if |a| > 0 && |b| > 0 {
      ZeroIffEqual(Front(a), Front(b));
      assert a == Front(a) + [Last(a)] && b == Front(b) + [Last(b)];
    }
  }

  lemma {:induction false} Symmetric(a: Word, b: Word)
    ensures Dist(a, b) == Dist(b, a)
    decreases |a| + |b|
  {
    if |a| > 0 && |b| > 0 {
      Symmetric(Front(a), b);
      Symmetric(a, Front(b));
      Symmetric(Front(a), Front(b));
    }
  }

  /** One step of the table, with words of any length. */
  lemma {:induction false} Steps(a: Word, b: Word)
    ensures |a| > 0 ==> Dist(a, b) <= Dist(Front(a), b) + 1
    ensures |b| > 0 ==> Dist(a, b) <= Dist(a, Front(b)) + 1
    ensures |a| > 0 && |b| > 0 ==> Dist(a, b) <= Dist(Front(a), Front(b)) + Change(Last(a), Last(b))
  {
  }

  lemma {:induction false} Triangle(a: Word, b: Word, c: Word)
    ensures Dist(a, c) <= Dist(a, b) + Dist(b, c)
    decreases |a| + |b| + |c|
  {
    if |a| == 0 || |b| == 0 || |c| == 0 {
      DistBounds(a, c);
      DistBounds(b, c);
      DistBounds(a, b);
    } else {
      Steps(a, c);
      if Dist(a, b) == Dist(Front(a), b) + 1 {
        Triangle(Front(a), b, c);
      } else if Dist(b, c) == Dist(b, Front(c)) + 1 {
        Triangle(a, b, Front(c));
      } else {
        TriangleInner(a, b, c);
      }
    }
  }

  lemma {:induction false} TriangleInner(a: Word, b: Word, c: Word)
    requires |a| > 0 && |b| > 0 && |c| > 0
    requires Dist(a, b) != Dist(Front(a), b) + 1 && Dist(b, c) != Dist(b, Front(c)) + 1
    ensures Dist(a, c) <= Dist(a, b) + Dist(b, c)
    decreases |a| + |b| + |c|, 0
  {
    Steps(a, c);
    var b' := Front(b);
    if Dist(a, b) == Dist(a, b') + 1 {
      if Dist(b, c) == Dist(b', c) + 1 {
        Triangle(a, b', c);
      } else {
        Triangle(a, b', Front(c));
      }
    } else if Dist(b, c) == Dist(b', c) + 1 {
      Triangle(Front(a), b', c);
    } else {
      Triangle(Front(a), b', Front(c));
    }
  }

  // ---------------------------------------------------------------- single edits

  /** t is s with one rune deleted, inserted or changed at i. */
  ghost predicate EditAt(s: Word, t: Word, i: nat)
  {
    || (i < |s| && t == s[..i] + s[i + 1..])
    || (i < |t| && s == t[..i] + t[i + 1..])
    || (i < |s| && |s| == |t| && t == s[..i] + [t[i]] + s[i + 1..])
  }

  ghost predicate Edit(s: Word, t: Word)
  {
    exists i: nat :: EditAt(s, t, i)
  }

  ghost predicate Path(path: seq<Word>)
  {
    |path| > 0 && forall k :: 0 <= k < |path| - 1 ==> Edit(path[k], path[k + 1])
  }

  lemma {:induction false} CommonSuffix(a: Word, b: Word, s: Word)
    ensures Dist(a + s, b + s) <= Dist(a, b)
  {
    if |s| == 0 {
      assert a + s == a && b + s == b;
    } else {
      CommonSuffix(a, b, Front(s));
      assert Front(a + s) == a + Front(s) && Front(b + s) == b + Front(s);
      Steps(a + s, b + s);
    }
  }

  lemma {:induction false} EditDistance(s: Word, t: Word)
    requires Edit(s, t)
    ensures Dist(s, t) <= 1
  {
    var i: nat :| EditAt(s, t, i);
    if i < |s| && t == s[..i] + s[i + 1..] {
      DeleteDistance(s, t, i);
    } else if i < |t| && s == t[..i] + t[i + 1..] {
      DeleteDistance(t, s, i);
      Symmetric(s, t);
    } else {
      ChangeDistance(s, t, s[..i], s[i + 1..], s[i], t[i]);
    }
  }

  lemma {:induction false} ChangeDistance(s: Word, t: Word, p: Word, q: Word, x: int, y: int)
    requires s == p + [x] + q && t == p + [y] + q
    ensures Dist(s, t) <= 1
  {
    CommonSuffix(p + [x], p + [y], q);
    Steps(p + [x], p + [y]);
    assert Front(p + [x]) == p && Front(p + [y]) == p;
    ZeroIffEqual(p, p);
  }

  lemma {:induction false} DeleteDistance(s: Word, t: Word, i: nat)
    requires i < |s| && t == s[..i] + s[i + 1..]
    ensures Dist(s, t) <= 1
  {
    var p := s[..i];
    assert s == (p + [s[i]]) + s[i + 1..];
    CommonSuffix(p + [s[i]], p, s[i + 1..]);
    Steps(p + [s[i]], p);
    assert Front(p + [s[i]]) == p;
    ZeroIffEqual(p, p);
  }

  /** No sequence of single edits is shorter than the distance. */
  lemma {:induction false} PathBound(path: seq<Word>)
    requires Path(path)
    ensures Dist(path[0], path[|path| - 1]) <= |path| - 1
  {
    var n := |path| - 1;
    if n == 0 {
      ZeroIffEqual(path[0], path[0]);
    } else {
      PathBound(path[..n]);
      EditDistance(path[n - 1], path[n]);
      Triangle(path[0], path[n - 1], path[n]);
    }
  }

  /** The path with x appended to every word. */
  function AppendTo(path: seq<Word>, x: int): (r: seq<Word>)
    ensures |r| == |path| && forall k :: 0 <= k < |path| ==> r[k] == path[k] + [x]
  {
    seq(|path|, k requires 0 <= k < |path| => path[k] + [x])
  }

  lemma EditAppend(s: Word, t: Word, x: int)
    requires Edit(s, t)
    ensures Edit(s + [x], t + [x])
  {
    var i: nat :| EditAt(s, t, i);
    var s', t' := s + [x], t + [x];
    if i < |s| && t == s[..i] + s[i + 1..] {
      WithoutAppend(s, t, i, x);
    } else if i < |t| && s == t[..i] + t[i + 1..] {
      WithoutAppend(t, s, i, x);
    } else {
      WithAppend(s, t, i, x);
    }
    assert EditAt(s', t', i);
  }

  lemma WithoutAppend(s: Word, t: Word, i: nat, x: int)
    requires i < |s| && t == s[..i] + s[i + 1..]
    ensures t + [x] == (s + [x])[..i] + (s + [x])[i + 1..]
  {
    assert (s + [x])[..i] == s[..i] && (s + [x])[i + 1..] == s[i + 1..] + [x];
  }

  lemma WithAppend(s: Word, t: Word, i: nat, x: int)
    requires i < |s| == |t| && t == s[..i] + [t[i]] + s[i + 1..]
    ensures t + [x] == (s + [x])[..i] + [(t + [x])[i]] + (s + [x])[i + 1..]
  {
    assert (s + [x])[..i] == s[..i] && (s + [x])[i + 1..] == s[i + 1..] + [x];
  }

  lemma PathAppend(path: seq<Word>, x: int)
    requires Path(path)
    ensures Path(AppendTo(path, x))
  {
    var r := AppendTo(path, x);
    forall k | 0 <= k < |r| - 1
      ensures Edit(r[k], r[k + 1])
    {
      EditAppend(path[k], path[k + 1], x);
    }
  }

  lemma PathSnoc(path: seq<Word>, t: Word)
    requires Path(path) && Edit(path[|path| - 1], t)
    ensures Path(path + [t])
  {
  }

  lemma PathCons(s: Word, path: seq<Word>)
    requires Path(path) && Edit(s, path[0])
    ensures Path([s] + path)
  {
    var r := [s] + path;
    forall k | 0 <= k < |r| - 1
      ensures Edit(r[k], r[k + 1])
    {
      if k > 0 {
        assert Edit(path[k - 1], path[k]);
      }
    }
  }

  lemma LastEdits(s: Word, x: int, y: int)
    ensures Edit(s + [x], s) && Edit(s, s + [x]) && Edit(s + [x], s + [y])
  {
    var i := |s|;
    var sx, sy := s + [x], s + [y];
    assert s == sx[..i] + sx[i + 1..];
    assert EditAt(sx, s, i) && EditAt(s, sx, i);
    assert sy == sx[..i] + [sy[i]] + sx[i + 1..];
    assert EditAt(sx, sy, i);
  }

  /** Some sequence of single edits has the length of the distance. */
  lemma {:induction false} ShortestPath(a: Word, b: Word) returns (path: seq<Word>)
    ensures Path(path) && path[0] == a && path[|path| - 1] == b && |path| - 1 == Dist(a, b)
    decreases |a| + |b|
  {
    if |a| == 0 && |b| == 0 {
      path := [a];
    } else if |a| > 0 && Dist(a, b) == Dist(Front(a), b) + 1 {
      path := ShortestPath(Front(a), b);
      path := DeleteFirst(a, path);
    } else if |b| > 0 && Dist(a, b) == Dist(a, Front(b)) + 1 {
      path := ShortestPath(a, Front(b));
      path := InsertLast(path, b);
    } else {
      path := ShortestPath(Front(a), Front(b));
      path := ChangeLast(a, b, path);
    }
  }

  lemma DeleteFirst(a: Word, path: seq<Word>) returns (r: seq<Word>)
    requires |a| > 0 && Path(path) && path[0] == Front(a)
    ensures Path(r) && r[0] == a && r[|r| - 1] == path[|path| - 1] && |r| == |path| + 1
  {
    assert a == Front(a) + [Last(a)];
    LastEdits(Front(a), Last(a), Last(a));
    PathCons(a, path);
    r := [a] + path;
  }

  lemma InsertLast(path: seq<Word>, b: Word) returns (r: seq<Word>)
    requires |b| > 0 && Path(path) && path[|path| - 1] == Front(b)
    ensures Path(r) && r[0] == path[0] && r[|r| - 1] == b && |r| == |path| + 1
  {
    assert b == Front(b) + [Last(b)];
    LastEdits(Front(b), Last(b), Last(b));
    PathSnoc(path, b);
    r := path + [b];
  }

  lemma ChangeLast(a: Word, b: Word, path: seq<Word>) returns (r: seq<Word>)
    requires |a| > 0 && |b| > 0 && Path(path) && path[0] == Front(a) && path[|path| - 1] == Front(b)
    ensures Path(r) && r[0] == a && r[|r| - 1] == b && |r| == |path| + Change(Last(a), Last(b))
  {
    PathAppend(path, Last(a));
    r := AppendTo(path, Last(a));
    assert a == Front(a) + [Last(a)] && b == Front(b) + [Last(b)];
    if Last(a) != Last(b) {
      LastEdits(Front(b), Last(a), Last(b));
      PathSnoc(r, b);
      r := r + [b];
    }
  }

  // ---------------------------------------------------------------- MinString

  const MAX_INT: int := 0x7fff_ffff_ffff_ffff

  /** MinString over the names of the candidates; `fold` is the identity or, without case, ToLower. */
  method MinString(x: seq<Word>, fold: Word -> Word, s: Word) returns (rv: Word, ghost k: nat)
    requires |fold(s)| < MAX_INT && forall i :: 0 <= i < |x| ==> |fold(x[i])| < MAX_INT
    ensures |x| == 0 ==> rv == []
    ensures |x| > 0 ==>
              && k < |x| && rv == x[k]
              && (forall i :: 0 <= i < |x| ==> Dist(fold(x[k]), fold(s)) <= Dist(fold(x[i]), fold(s)))
              && (forall i :: 0 <= i < k ==> Dist(fold(x[k]), fold(s)) < Dist(fold(x[i]), fold(s)))
  {
    var minInt := MAX_INT;
    rv, k := [], 0;
    for i := 0 to |x|
      invariant i == 0 ==> minInt == MAX_INT && rv == [] && k == 0
      invariant k <= i
      invariant i > 0 ==> k < i && rv == x[k] && minInt == Dist(fold(x[k]), fold(s))
      invariant forall l :: 0 <= l < i ==> minInt <= Dist(fold(x[l]), fold(s))
      invariant forall l :: 0 <= l < k ==> minInt < Dist(fold(x[l]), fold(s))
    {
      var d := Distance(fold(x[i]), fold(s));
      DistBounds(fold(x[i]), fold(s));
      if d < minInt {
        rv, k, minInt := x[i], i, d;
      }
    }
  }
}
