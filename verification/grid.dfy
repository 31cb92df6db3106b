/** Rectangular grids as sequences of rows, single-cell updates and counting. */
module Grid {

  /** `g` has exactly `rows` rows of `cols` cells each. */
  ghost predicate IsRect<T>(g: seq<seq<T>>, rows: nat, cols: nat) {
    |g| == rows && forall i :: 0 <= i < |g| ==> |g[i]| == cols
  }

  /** The grid `g` with the cell at row `y`, column `x` replaced by `v`. */
  function Set<T>(g: seq<seq<T>>, y: int, x: int, v: T): (r: seq<seq<T>>)
    requires 0 <= y < |g| && 0 <= x < |g[y]|
    ensures |r| == |g| && forall i :: 0 <= i < |r| ==> |r[i]| == |g[i]|
    ensures r[y][x] == v
    ensures forall i, j :: 0 <= i < |r| && 0 <= j < |r[i]| && (i != y || j != x) ==> r[i][j] == g[i][j]
  {
    g[y := g[y][x := v]]
  }

  /** Number of elements of `s` satisfying `p`. */
  function CountIf<T>(s: seq<T>, p: T -> bool): (n: nat)
    ensures n <= |s|
  {
    if |s| == 0 then 0 else (if p(s[0]) then 1 else 0) + CountIf(s[1..], p)
  }

  /** Number of cells of the grid `g` satisfying `p`. */
  function GridCount<T>(g: seq<seq<T>>, p: T -> bool): nat {
    if |g| == 0 then 0 else CountIf(g[0], p) + GridCount(g[1..], p)
  }

  /** Replacing one element changes the count by the difference of the two verdicts. */
  lemma {:induction false} CountIfUpdate<T>(s: seq<T>, i: nat, v: T, p: T -> bool)
    requires i < |s|
    ensures CountIf(s[i := v], p) == CountIf(s, p) - (if p(s[i]) then 1 else 0) + (if p(v) then 1 else 0)
  {
    if i > 0 {
      assert s[i := v][1..] == s[1..][i - 1 := v];
      CountIfUpdate(s[1..], i - 1, v, p);
    } else {
      assert s[i := v][1..] == s[1..];
    }
  }

  /** Replacing one cell changes the grid count by the difference of the two verdicts. */
  lemma {:induction false} GridCountSet<T>(g: seq<seq<T>>, y: nat, x: nat, v: T, p: T -> bool)
    requires y < |g| && x < |g[y]|
    ensures GridCount(Set(g, y, x, v), p)
            == GridCount(g, p) - (if p(g[y][x]) then 1 else 0) + (if p(v) then 1 else 0)
  {
    var r := Set(g, y, x, v);
    if y == 0 {
      assert r[1..] == g[1..];
      CountIfUpdate(g[0], x, v, p);
    } else {
      assert r[1..] == Set(g[1..], y - 1, x, v);
      GridCountSet(g[1..], y - 1, x, v, p);
    }
  }
}
