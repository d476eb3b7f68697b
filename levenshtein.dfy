/**
 * Edit distance between two names. `Distance` is the unit-cost Levenshtein distance,
 * defined by recursion on the last characters; `Levenshtein` is the single-array dynamic
 * programme that the matcher runs, proved to compute it.
 */
module EditDistance {

  function Min3(a: nat, b: nat, c: nat): nat {
    if a <= b && a <= c then a else if b <= c then b else c
  }

  /** Fewest single-character insertions, deletions and substitutions that turn `s` into `t`. */
  function Distance(s: string, t: string): nat
    decreases |s| + |t|
  {
    if |s| == 0 then |t|
    else if |t| == 0 then |s|
    else Min3(Distance(s[..|s| - 1], t) + 1,
              Distance(s, t[..|t| - 1]) + 1,
              Distance(s[..|s| - 1], t[..|t| - 1]) + (if s[|s| - 1] == t[|t| - 1] then 0 else 1))
  }

  lemma {:induction false} DistanceToSelf(s: string)
    ensures Distance(s, s) == 0
  {
    if |s| > 0 {
      DistanceToSelf(s[..|s| - 1]);
    }
  }

  /** Distance zero means the strings are equal. */
  lemma {:induction false} DistanceZeroMeansEqual(s: string, t: string)
    requires Distance(s, t) == 0
    ensures s == t
  {
    if |s| > 0 && |t| > 0 {
      DistanceZeroMeansEqual(s[..|s| - 1], t[..|t| - 1]);
      assert s == s[..|s| - 1] + [s[|s| - 1]];
      assert t == t[..|t| - 1] + [t[|t| - 1]];
    }
  }

  lemma {:induction false} DistanceSymmetric(s: string, t: string)
    ensures Distance(s, t) == Distance(t, s)
    decreases |s| + |t|
  {
    if |s| > 0 && |t| > 0 {
      DistanceSymmetric(s[..|s| - 1], t);
      DistanceSymmetric(s, t[..|t| - 1]);
      DistanceSymmetric(s[..|s| - 1], t[..|t| - 1]);
    }
  }

  /** The distance is at least the difference of the lengths and at most the longer length. */
  lemma {:induction false} DistanceBounds(s: string, t: string)
    ensures Distance(s, t) <= if |s| >= |t| then |s| else |t|
    ensures Distance(s, t) >= |s| - |t| && Distance(s, t) >= |t| - |s|
    decreases |s| + |t|
  {
    if |s| > 0 && |t| > 0 {
      DistanceBounds(s[..|s| - 1], t);
      DistanceBounds(s, t[..|t| - 1]);
      DistanceBounds(s[..|s| - 1], t[..|t| - 1]);
    }
  }

  /** The dynamic-programming recurrence on prefixes: cell (i, j) from cells (i-1, j), (i, j-1) and (i-1, j-1). */
  lemma Recurrence(s: string, t: string, i: nat, j: nat)
    requires 1 <= i <= |s| && 1 <= j <= |t|
    ensures Distance(s[..i], t[..j]) ==
      Min3(Distance(s[..i - 1], t[..j]) + 1,
           Distance(s[..i], t[..j - 1]) + 1,
           Distance(s[..i - 1], t[..j - 1]) + (if s[i - 1] == t[j - 1] then 0 else 1))
  {
    assert s[..i][..i - 1] == s[..i - 1];
    assert t[..j][..j - 1] == t[..j - 1];
  }

  /**
   * The cell rule both loops apply: when the cell to the left or the cell above is smaller
   * than the diagonal one, one more than the smaller of those two; otherwise the diagonal,
   * plus one when the characters differ. That is always the cheapest of the three ways in.
   */
  function NextCell(left: nat, diag: nat, up: nat, same: bool): (r: nat)
    ensures r == Min3(up + 1, left + 1, diag + (if same then 0 else 1))
  {
    if left < diag || up < diag then (if left > up then up + 1 else left + 1)
    else if same then diag
    else diag + 1
  }

  /** One cell of the table from its three neighbours, by the cell rule. */
  lemma CellStep(s: string, t: string, i: nat, j: nat, left: nat, diag: nat, up: nat)
    requires 1 <= i <= |s| && 1 <= j <= |t|
    requires left == Distance(s[..i], t[..j - 1]) && diag == Distance(s[..i - 1], t[..j - 1])
    requires up == Distance(s[..i - 1], t[..j])
    ensures NextCell(left, diag, up, t[j - 1] == s[i - 1]) == Distance(s[..i], t[..j])
  {
    Recurrence(s, t, i, j);
  }

  /** `p` holds column `x` of the table: `p[k]` is the distance from `s[..k+1]` to `t[..x]`. */
  predicate IsColumn(p: seq<nat>, s: string, t: string, x: nat)
    requires |p| == |s| && x <= |t|
  {
    forall k | 0 <= k < |s| :: p[k] == Distance(s[..k + 1], t[..x])
  }

  /** Row y+1 of columns x+1 .. x+4, by the cell rule from left to right. */
  lemma FourCells(s: string, t: string, x: nat, y: nat, a: nat, c: nat, b: nat, d: nat, g: nat, h: nat)
    requires y < |s| && x + 3 < |t|
    requires a == Distance(s[..y + 1], t[..x]) && c == Distance(s[..y], t[..x])
    requires b == Distance(s[..y], t[..x + 1]) && d == Distance(s[..y], t[..x + 2])
    requires g == Distance(s[..y], t[..x + 3]) && h == Distance(s[..y], t[..x + 4])
    ensures
      var c1 := NextCell(a, c, b, t[x] == s[y]);
      var b1 := NextCell(c1, b, d, t[x + 1] == s[y]);
      var d1 := NextCell(b1, d, g, t[x + 2] == s[y]);
      var g1 := NextCell(d1, g, h, t[x + 3] == s[y]);
      && c1 == Distance(s[..y + 1], t[..x + 1]) && b1 == Distance(s[..y + 1], t[..x + 2])
      && d1 == Distance(s[..y + 1], t[..x + 3]) && g1 == Distance(s[..y + 1], t[..x + 4])
  {
    CellStep(s, t, y + 1, x + 1, a, c, b);
    var c1 := NextCell(a, c, b, t[x] == s[y]);
    CellStep(s, t, y + 1, x + 2, c1, b, d);
    var b1 := NextCell(c1, b, d, t[x + 1] == s[y]);
    CellStep(s, t, y + 1, x + 3, b1, d, g);
    var d1 := NextCell(b1, d, g, t[x + 2] == s[y]);
    CellStep(s, t, y + 1, x + 4, d1, g, h);
  }

  /**
   * One pass of the unrolled block: columns x+1 .. x+4 of the table in a single sweep down
   * `s`, with c, b, d, g, h holding the cells of the current row in those columns.
   */
  method FourColumnPass(p: array<nat>, s: string, t: string, x: nat) returns (h: nat)
    requires p.Length == |s| > 0 && x + 3 < |t|
    requires IsColumn(p[..], s, t, x)
    modifies p
    ensures IsColumn(p[..], s, t, x + 4)
    ensures h == Distance(s, t[..x + 4])
  {
    var n := |s|;
    var e1, e2, e3, e4 := t[x], t[x + 1], t[x + 2], t[x + 3];
    var c, b, d, g := x, x + 1, x + 2, x + 3;
    h := x + 4;
    var y := 0;
    while y < n
      invariant 0 <= y <= n
      invariant c == Distance(s[..y], t[..x])
      invariant b == Distance(s[..y], t[..x + 1])
      invariant d == Distance(s[..y], t[..x + 2])
      invariant g == Distance(s[..y], t[..x + 3])
      invariant h == Distance(s[..y], t[..x + 4])
      invariant forall k | 0 <= k < y :: p[k] == Distance(s[..k + 1], t[..x + 4])
      invariant forall k | y <= k < n :: p[k] == Distance(s[..k + 1], t[..x])
    {
      var ch := s[y];
      var a := p[y];
      FourCells(s, t, x, y, a, c, b, d, g, h);
      c := NextCell(a, c, b, e1 == ch);
      b := NextCell(c, b, d, e2 == ch);
      d := NextCell(b, d, g, e3 == ch);
      g := NextCell(d, g, h, e4 == ch);
      p[y] := g;
      h := g;
      g := d;
      d := b;
      b := c;
      c := a;
      y := y + 1;
    }
    assert s[..n] == s;
  }

  /** One pass of the tail loop: column x+1, with c the diagonal cell and d the cell above. */
  method ColumnPass(p: array<nat>, s: string, t: string, x: nat) returns (h: nat)
    requires p.Length == |s| > 0 && x < |t|
    requires IsColumn(p[..], s, t, x)
    modifies p
    ensures IsColumn(p[..], s, t, x + 1)
    ensures h == Distance(s, t[..x + 1])
  {
    var n := |s|;
    var e := t[x];
    var c := x;
    var d := x + 1;
    var y := 0;
    while y < n
      invariant 0 <= y <= n
      invariant c == Distance(s[..y], t[..x])
      invariant d == Distance(s[..y], t[..x + 1])
      invariant forall k | 0 <= k < y :: p[k] == Distance(s[..k + 1], t[..x + 1])
      invariant forall k | y <= k < n :: p[k] == Distance(s[..k + 1], t[..x])
    {
      var a := p[y];
      CellStep(s, t, y + 1, x + 1, a, c, d);
      d := NextCell(a, c, d, e == s[y]);
      p[y] := d;
      c := a;
      y := y + 1;
    }
    h := d;
    assert s[..n] == s;
  }

  /**
   * `levenshtein(s, t)`: equal strings give 0 and an empty string gives the other's length
   * at once; otherwise `p[y]` holds the distance from `s[..y+1]` to the columns of `t`
   * processed so far, first four columns per pass and then one column per pass.
   */
  method Levenshtein(s: string, t: string) returns (h: nat)
    ensures h == Distance(s, t)
  {
    if s == t {
      DistanceToSelf(s);
      return 0;
    }
    var n, m := |s|, |t|;
    if n == 0 || m == 0 {
      return n + m;
    }
    var p := new nat[n];
    var y := 0;
    while y < n
      invariant 0 <= y <= n
      invariant forall k | 0 <= k < y :: p[k] == Distance(s[..k + 1], t[..0])
    {
      p[y] := y + 1;
      y := y + 1;
    }
    var x := 0;
    h := 0;
    while x + 3 < m
      invariant 0 <= x <= m
      invariant IsColumn(p[..], s, t, x)
      invariant x > 0 ==> h == Distance(s, t[..x])
    {
      h := FourColumnPass(p, s, t, x);
      x := x + 4;
    }
    while x < m
      invariant 0 <= x <= m
      invariant IsColumn(p[..], s, t, x)
      invariant x > 0 ==> h == Distance(s, t[..x])
    {
      h := ColumnPass(p, s, t, x);
      x := x + 1;
    }
    assert t[..m] == t;
  }
}
