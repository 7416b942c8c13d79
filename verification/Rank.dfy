/** Gaussian elimination modulo a prime as an exact test of linear independence. */
module Rank {
  import opened Zq
  import opened Polynomials
  import opened Sorting

  type Matrix = seq<seq<int>>

  ghost predicate HasColumns(rows: Matrix, cols: nat) {
    forall i :: 0 <= i < |rows| ==> |rows[i]| == cols
  }

  ghost function Col(rows: Matrix, j: nat): seq<int>
    requires forall i :: 0 <= i < |rows| ==> j < |rows[i]|
  {
    seq(|rows|, i requires 0 <= i < |rows| => rows[i][j])
  }

  /** The combination of the rows with coefficients c is zero in every column. */
  ghost predicate Vanishes(c: seq<int>, rows: Matrix, cols: nat, q: int)
    requires q > 0 && |c| == |rows| && HasColumns(rows, cols)
  {
    forall j :: 0 <= j < cols ==> Cong(Dot(c, Col(rows, j)), 0, q)
  }

  ghost predicate AllZero(c: seq<int>, q: int)
    requires q > 0
  {
    forall i :: 0 <= i < |c| ==> Cong(c[i], 0, q)
  }

  /** No nontrivial combination of the rows vanishes modulo q. */
  ghost predicate Independent(rows: Matrix, cols: nat, q: int)
    requires q > 0 && HasColumns(rows, cols)
  {
    forall c :: |c| == |rows| && Vanishes(c, rows, cols, q) ==> AllZero(c, q)
  }

  // ----- elementary facts about combinations ---------------------------------------

  lemma {:induction false} DotUpdateCoeff(c: seq<int>, ys: seq<int>, i: nat, v: int)
    requires |c| == |ys| && i < |c|
    ensures Dot(c[i := v], ys) == Dot(c, ys) + (v - c[i]) * ys[i]
  {
    var n := |c| - 1;
    if i == n {
      assert c[i := v][..n] == c[..n];
    } else {
      assert c[i := v][..n] == c[..n][i := v];
      DotUpdateCoeff(c[..n], ys[..n], i, v);
    }
  }

  lemma {:induction false} DotUpdateValue(c: seq<int>, ys: seq<int>, i: nat, v: int)
    requires |c| == |ys| && i < |c|
    ensures Dot(c, ys[i := v]) == Dot(c, ys) + c[i] * (v - ys[i])
  {
    var n := |c| - 1;
    if i == n {
      assert ys[i := v][..n] == ys[..n];
    } else {
      assert ys[i := v][..n] == ys[..n][i := v];
      DotUpdateValue(c[..n], ys[..n], i, v);
    }
  }

  /** When the coefficients before i and the values after i vanish, only term i is left. */
  lemma {:induction false} DotSingle(c: seq<int>, ys: seq<int>, i: nat, q: int)
    requires q > 0 && |c| == |ys| && i < |c|
    requires forall k :: 0 <= k < i ==> Cong(c[k], 0, q)
    requires forall k :: i < k < |c| ==> Cong(ys[k], 0, q)
    ensures Cong(Dot(c, ys), c[i] * ys[i], q)
  {
    hide Cong;
    var n := |c| - 1;
    if i == n {
      DotZero(c[..n], ys[..n], q);
      CongRefl(c[n] * ys[n], q);
      CongAdd(Dot(c[..n], ys[..n]), 0, c[n] * ys[n], c[n] * ys[n], q);
    } else {
      DotSingle(c[..n], ys[..n], i, q);
      CongRefl(c[n], q);
      CongMul(c[n], c[n], ys[n], 0, q);
      CongAdd(Dot(c[..n], ys[..n]), c[i] * ys[i], c[n] * ys[n], c[n] * 0, q);
    }
  }

  lemma {:induction false} DotZero(c: seq<int>, ys: seq<int>, q: int)
    requires q > 0 && |c| == |ys| && forall k :: 0 <= k < |c| ==> Cong(c[k], 0, q)
    ensures Cong(Dot(c, ys), 0, q)
  {
    if c != [] {
      var n := |c| - 1;
      DotZero(c[..n], ys[..n], q);
      CongMul(c[n], 0, ys[n], ys[n], q);
      CongAdd(Dot(c[..n], ys[..n]), 0, c[n] * ys[n], 0 * ys[n], q);
    }
  }

  // ----- row operations ------------------------------------------------------------

  lemma ColUpdate(rows: Matrix, i: nat, row: seq<int>, j: nat, cols: nat)
    requires HasColumns(rows, cols) && i < |rows| && |row| == cols && j < cols
    ensures HasColumns(rows[i := row], cols)
    ensures Col(rows[i := row], j) == Col(rows, j)[i := row[j]]
  {
  }

  /** row is s times row i. */
  ghost predicate IsScaled(rows: Matrix, cols: nat, i: nat, row: seq<int>, s: int, q: int)
    requires q > 0 && HasColumns(rows, cols) && i < |rows|
  {
    |row| == cols && forall j :: 0 <= j < cols ==> Cong(row[j], s * rows[i][j], q)
  }

  /** row is row k minus f times row i. */
  ghost predicate IsSubtracted(rows: Matrix, cols: nat, i: nat, k: nat, row: seq<int>, f: int, q: int)
    requires q > 0 && HasColumns(rows, cols) && i < |rows| && k < |rows|
  {
    |row| == cols && forall j :: 0 <= j < cols ==> Cong(row[j], rows[k][j] - f * rows[i][j], q)
  }

  lemma ScaleSum(dot: int, c: int, v: int, y: int, y': int, s: int, q: int)
    requires q > 0 && Cong(v * s, c, q) && Cong(y', s * y, q)
    ensures Cong(dot + (v - c) * y + v * (y' - y), dot, q)
  {
    hide Cong;
    CongRefl(v, q);
    CongRefl(y, q);
    CongRefl(c * y, q);
    CongRefl(dot, q);
    CongMul(v, v, y', s * y, q);
    CongMul(v * s, c, y, y, q);
    assert v * (s * y) == v * s * y;
    assert Cong(v * y', c * y, q) by { CongTrans(v * y', v * s * y, c * y, q); }
    CongAdd(v * y', c * y, c * y, c * y, q);
    CongAdd(dot, dot, v * y' - c * y, 0, q);
    assert (v - c) * y + v * (y' - y) == v * y' - c * y;
  }

  /** Scaling a row is undone by dividing its coefficient. */
  lemma ScaleKeepsDependence(rows: Matrix, cols: nat, i: nat, row: seq<int>, s: int, c: seq<int>, v: int, q: int)
    requires q > 0 && HasColumns(rows, cols) && i < |rows| && IsScaled(rows, cols, i, row, s, q)
    requires |c| == |rows| && Cong(v * s, c[i], q)
    ensures HasColumns(rows[i := row], cols)
    ensures Vanishes(c, rows, cols, q) <==> Vanishes(c[i := v], rows[i := row], cols, q)
  {
    var d, rows' := c[i := v], rows[i := row];
    forall j | 0 <= j < cols
      ensures Cong(Dot(d, Col(rows', j)), 0, q) <==> Cong(Dot(c, Col(rows, j)), 0, q)
    {
      ScaleColumn(rows, cols, i, row, s, c, v, j, q);
    }
    assert Vanishes(c, rows, cols, q) ==> Vanishes(d, rows', cols, q);
    assert Vanishes(d, rows', cols, q) ==> Vanishes(c, rows, cols, q);
  }

  lemma ScaleColumn(rows: Matrix, cols: nat, i: nat, row: seq<int>, s: int, c: seq<int>, v: int, j: nat, q: int)
    requires q > 0 && HasColumns(rows, cols) && i < |rows| && IsScaled(rows, cols, i, row, s, q)
    requires |c| == |rows| && Cong(v * s, c[i], q) && j < cols
    ensures HasColumns(rows[i := row], cols)
    ensures Cong(Dot(c[i := v], Col(rows[i := row], j)), Dot(c, Col(rows, j)), q)
  {
    hide Cong, Dot;
    var ys := Col(rows, j);
    ColUpdate(rows, i, row, j, cols);
    DotUpdateCoeff(c, ys, i, v);
    DotUpdateValue(c[i := v], ys, i, row[j]);
    ScaleSum(Dot(c, ys), c[i], v, rows[i][j], row[j], s, q);
  }

  /** Multiplying a row by a unit changes no independence. */
  lemma ScaleKeepsIndependence(rows: Matrix, cols: nat, i: nat, row: seq<int>, s: int, q: int)
    requires Prime(q) && HasColumns(rows, cols) && i < |rows| && IsScaled(rows, cols, i, row, s, q)
    requires !Cong(s, 0, q)
    ensures HasColumns(rows[i := row], cols)
    ensures Independent(rows, cols, q) <==> Independent(rows[i := row], cols, q)
  {
    hide Vanishes;
    if Independent(rows, cols, q) {
      forall d | |d| == |rows| && Vanishes(d, rows[i := row], cols, q) ensures AllZero(d, q) {
        var c := d[i := d[i] * s];
        assert c[i := d[i]] == d;
        ScaleKeepsDependence(rows, cols, i, row, s, c, d[i], q);
        assert AllZero(c, q) && Cong(c[i], 0 * s, q);
        CongCancel(d[i], 0, s, q);
        assert forall k :: 0 <= k < |d| && k != i ==> d[k] == c[k];
      }
    }
    if Independent(rows[i := row], cols, q) {
      forall c | |c| == |rows| && Vanishes(c, rows, cols, q) ensures AllZero(c, q) {
        var v := Quotient(c[i], s, q);
        var d := c[i := v];
        ScaleKeepsDependence(rows, cols, i, row, s, c, v, q);
        assert AllZero(d, q) && Cong(d[i], 0, q);
        CongMul(v, 0, s, s, q);
        assert Cong(c[i], 0 * s, q);
        assert forall k :: 0 <= k < |c| && k != i ==> d[k] == c[k];
      }
    }
  }

  lemma SubtractSum(dot: int, ci: int, ck: int, x: int, y: int, y': int, f: int, q: int)
    requires q > 0 && Cong(y', y - f * x, q)
    ensures Cong(dot + ck * (y' - y), dot + (ci - f * ck - ci) * x, q)
  {
    hide Cong;
    CongRefl(y, q);
    CongRefl(ck, q);
    CongRefl(dot, q);
    CongAdd(y', y - f * x, y, y, q);
    CongMul(ck, ck, y' - y, -(f * x), q);
    assert ck * -(f * x) == (ci - f * ck - ci) * x;
    CongAdd(dot, dot, ck * (y' - y), ck * -(f * x), q);
  }

  /** Subtracting a row is undone by moving its coefficient. */
  lemma SubtractKeepsDependence(rows: Matrix, cols: nat, i: nat, k: nat, row: seq<int>, f: int, c: seq<int>, q: int)
    requires q > 0 && HasColumns(rows, cols) && i < |rows| && k < |rows| && i != k
    requires IsSubtracted(rows, cols, i, k, row, f, q) && |c| == |rows|
    ensures HasColumns(rows[k := row], cols)
    ensures Vanishes(c, rows[k := row], cols, q) <==> Vanishes(c[i := c[i] - f * c[k]], rows, cols, q)
  {
    var d, rows' := c[i := c[i] - f * c[k]], rows[k := row];
    forall j | 0 <= j < cols
      ensures Cong(Dot(c, Col(rows', j)), 0, q) <==> Cong(Dot(d, Col(rows, j)), 0, q)
    {
      SubtractColumn(rows, cols, i, k, row, f, c, j, q);
    }
    assert Vanishes(c, rows', cols, q) ==> Vanishes(d, rows, cols, q);
    assert Vanishes(d, rows, cols, q) ==> Vanishes(c, rows', cols, q);
  }

  lemma SubtractColumn(rows: Matrix, cols: nat, i: nat, k: nat, row: seq<int>, f: int, c: seq<int>, j: nat, q: int)
    requires q > 0 && HasColumns(rows, cols) && i < |rows| && k < |rows| && i != k
    requires IsSubtracted(rows, cols, i, k, row, f, q) && |c| == |rows| && j < cols
    ensures HasColumns(rows[k := row], cols)
    ensures Cong(Dot(c, Col(rows[k := row], j)), Dot(c[i := c[i] - f * c[k]], Col(rows, j)), q)
  {
    hide Cong, Dot;
    var ys := Col(rows, j);
    ColUpdate(rows, k, row, j, cols);
    DotUpdateValue(c, ys, k, row[j]);
    DotUpdateCoeff(c, ys, i, c[i] - f * c[k]);
    SubtractSum(Dot(c, ys), c[i], c[k], rows[i][j], rows[k][j], row[j], f, q);
  }

  lemma ShearZero(c: seq<int>, i: nat, k: nat, f: int, q: int)
    requires q > 0 && i < |c| && k < |c| && i != k
    ensures AllZero(c, q) <==> AllZero(c[i := c[i] - f * c[k]], q)
  {
    var d := c[i := c[i] - f * c[k]];
    if AllZero(c, q) || AllZero(d, q) {
      assert Cong(c[k], 0, q) by { assert d[k] == c[k]; }
      CongMul(f, f, c[k], 0, q);
      CongAdd(c[i], c[i], f * c[k], f * 0, q);
      assert Cong(d[i], c[i], q);
      assert forall l :: 0 <= l < |c| && l != i ==> d[l] == c[l];
    }
  }

  /** Subtracting a multiple of one row from another changes no independence. */
  lemma SubtractKeepsIndependence(rows: Matrix, cols: nat, i: nat, k: nat, row: seq<int>, f: int, q: int)
    requires q > 0 && HasColumns(rows, cols) && i < |rows| && k < |rows| && i != k
    requires IsSubtracted(rows, cols, i, k, row, f, q)
    ensures HasColumns(rows[k := row], cols)
    ensures Independent(rows, cols, q) <==> Independent(rows[k := row], cols, q)
  {
    hide Vanishes, AllZero, Cong;
    if Independent(rows, cols, q) {
      forall c | |c| == |rows| && Vanishes(c, rows[k := row], cols, q) ensures AllZero(c, q) {
        SubtractKeepsDependence(rows, cols, i, k, row, f, c, q);
        ShearZero(c, i, k, f, q);
      }
    }
    if Independent(rows[k := row], cols, q) {
      forall d | |d| == |rows| && Vanishes(d, rows, cols, q) ensures AllZero(d, q) {
        var c := d[i := d[i] + f * d[k]];
        assert c[i := c[i] - f * c[k]] == d;
        SubtractKeepsDependence(rows, cols, i, k, row, f, c, q);
        ShearZero(c, i, k, f, q);
      }
    }
  }

  // ----- the two verdicts ----------------------------------------------------------

  lemma ZeroRowDependent(rows: Matrix, cols: nat, i: nat, q: int)
    requires q > 1 && HasColumns(rows, cols) && i < |rows|
    requires forall j :: 0 <= j < cols ==> rows[i][j] == 0
    ensures !Independent(rows, cols, q)
  {
    var zero := Zeros(|rows|);
    var c := zero[i := 1];
    ModUnique(0, 0, 0, q);
    ModUnique(1, 0, 1, q);
    forall j | 0 <= j < cols ensures Cong(Dot(c, Col(rows, j)), 0, q) {
      DotZero(zero, Col(rows, j), q);
      DotUpdateCoeff(zero, Col(rows, j), i, 1);
    }
    assert Vanishes(c, rows, cols, q) && !Cong(c[i], 0, q);
  }

  /** Each processed row has a one in its own pivot column and zeros below it there. */
  ghost predicate Echelon(rows: Matrix, cols: nat, pivots: seq<nat>, q: int)
    requires q > 0 && HasColumns(rows, cols) && |pivots| <= |rows|
  {
    && (forall i :: 0 <= i < |pivots| ==> pivots[i] < cols && Cong(rows[i][pivots[i]], 1, q))
    && (forall i, k :: 0 <= i < |pivots| && i < k < |rows| ==> pivots[i] < cols && rows[k][pivots[i]] == 0)
  }

  lemma {:induction false} EchelonZeroPrefix(rows: Matrix, cols: nat, pivots: seq<nat>, c: seq<int>, n: nat, q: int)
    requires q > 0 && HasColumns(rows, cols) && |pivots| == |rows| == |c| && n <= |c|
    requires Echelon(rows, cols, pivots, q) && Vanishes(c, rows, cols, q)
    ensures forall i :: 0 <= i < n ==> Cong(c[i], 0, q)
  {
    if n > 0 {
      var i := n - 1;
      EchelonZeroPrefix(rows, cols, pivots, c, i, q);
      var ys := Col(rows, pivots[i]);
      DotSingle(c, ys, i, q);
      CongMul(c[i], c[i], ys[i], 1, q);
      assert c[i] * 1 == c[i];
    }
  }

  lemma EchelonIndependent(rows: Matrix, cols: nat, pivots: seq<nat>, q: int)
    requires q > 0 && HasColumns(rows, cols) && |pivots| == |rows| && Echelon(rows, cols, pivots, q)
    ensures Independent(rows, cols, q)
  {
    forall c | |c| == |rows| && Vanishes(c, rows, cols, q) ensures AllZero(c, q) {
      EchelonZeroPrefix(rows, cols, pivots, c, |c|, q);
    }
  }

  lemma {:induction false} RangeSize(s: set<int>, n: nat)
    requires forall x :: x in s ==> 0 <= x < n
    ensures |s| <= n
  {
    if n > 0 {
      RangeSize(s - {n - 1}, n - 1);
    } else if s != {} {
      var x := Choose(s);
    }
  }

  lemma PivotsFit(rows: Matrix, cols: nat, pivots: seq<nat>, q: int)
    requires q > 1 && HasColumns(rows, cols) && |pivots| == |rows| && Echelon(rows, cols, pivots, q)
    ensures |rows| <= cols
  {
    ModUnique(0, 0, 0, q);
    ModUnique(1, 0, 1, q);
    var ps: seq<int> := pivots;
    forall i, k | 0 <= i < k < |ps| ensures ps[i] != ps[k] {
      assert rows[k][pivots[i]] == 0 && Cong(rows[k][pivots[k]], 1, q);
    }
    NoDuplicatesSize(ps);
    RangeSize(Elements(ps), cols);
  }

  // ----- the elimination -----------------------------------------------------------

  ghost function Rows(m: array2<int>): (r: Matrix)
    reads m
    ensures |r| == m.Length0 && HasColumns(r, m.Length1)
    ensures forall i, j :: 0 <= i < m.Length0 && 0 <= j < m.Length1 ==> r[i][j] == m[i, j]
  {
    seq(m.Length0, i requires 0 <= i < m.Length0 reads m =>
      seq(m.Length1, j requires 0 <= j < m.Length1 reads m => m[i, j]))
  }

  /** The first nonzero entry of the row, if any, is not a multiple of q. */
  ghost predicate LeadOk(row: seq<int>, q: int)
    requires q > 0
  {
    forall j :: 0 <= j < |row| && IsLead(row, j) ==> !Cong(row[j], 0, q)
  }

  ghost predicate IsLead(row: seq<int>, j: nat)
    requires j < |row|
  {
    row[j] != 0 && forall l :: 0 <= l < j ==> row[l] == 0
  }

  ghost predicate LeadsOk(rows: Matrix, q: int)
    requires q > 0
  {
    forall i :: 0 <= i < |rows| ==> LeadOk(rows[i], q)
  }

  /** A row of residues in [0, q) has such a lead. */
  lemma ResiduesLead(row: seq<int>, q: nat)
    requires q > 0 && forall j :: 0 <= j < |row| ==> 0 <= row[j] < q
    ensures LeadOk(row, q)
  {
    forall j | 0 <= j < |row| && IsLead(row, j) ensures !Cong(row[j], 0, q) {
      ResidueNonzero(row[j], q);
    }
  }

  /** The first nonzero entry of a row. */
  method FindPivot(m: array2<int>, i: nat) returns (found: bool, p: nat)
    requires i < m.Length0
    ensures found ==> p < m.Length1 && IsLead(Rows(m)[i], p)
    ensures !found ==> forall j :: 0 <= j < m.Length1 ==> m[i, j] == 0
  {
    p := 0;
    while p < m.Length1
      invariant 0 <= p <= m.Length1
      invariant forall j :: 0 <= j < p ==> m[i, j] == 0
    {
      if m[i, p] != 0 {
        return true, p;
      }
      p := p + 1;
    }
    return false, p;
  }

  ghost function ScaledBy(row: seq<int>, inv: int, q: nat): seq<int>
    requires q > 0
  {
    seq(|row|, j requires 0 <= j < |row| => (row[j] * inv) % q)
  }

  ghost function MinusMultiple(row: seq<int>, f: int, pivotRow: seq<int>, q: nat): seq<int>
    requires q > 0 && |row| == |pivotRow|
  {
    seq(|row|, j requires 0 <= j < |row| => (row[j] - f * pivotRow[j]) % q)
  }

  lemma RowsUpdated(before: Matrix, after: Matrix, cols: nat, i: nat, row: seq<int>)
    requires HasColumns(before, cols) && HasColumns(after, cols) && |after| == |before| && i < |before| && |row| == cols
    requires forall j :: 0 <= j < cols ==> after[i][j] == row[j]
    requires forall k, j :: 0 <= k < |before| && k != i && 0 <= j < cols ==> after[k][j] == before[k][j]
    ensures after == before[i := row]
  {
    assert after[i] == row;
    forall k | 0 <= k < |before| && k != i ensures after[k] == before[k] {
    }
  }

  method NormalizeRow(m: array2<int>, i: nat, inv: int, q: nat)
    requires i < m.Length0 && q > 0
    modifies m
    ensures Rows(m) == old(Rows(m))[i := ScaledBy(old(Rows(m))[i], inv, q)]
  {
    for j := 0 to m.Length1
      invariant forall k, l :: 0 <= k < m.Length0 && 0 <= l < m.Length1 ==>
                  m[k, l] == if k == i && l < j then (old(m[k, l]) * inv) % q else old(m[k, l])
    {
      m[i, j] := (m[i, j] * inv) % q;
    }
    RowsUpdated(old(Rows(m)), Rows(m), m.Length1, i, ScaledBy(old(Rows(m))[i], inv, q));
  }

  method EliminateRow(m: array2<int>, i: nat, k: nat, factor: int, q: nat)
    requires i < m.Length0 && k < m.Length0 && i != k && q > 0
    modifies m
    ensures Rows(m) == old(Rows(m))[k := MinusMultiple(old(Rows(m))[k], factor, old(Rows(m))[i], q)]
  {
    for j := 0 to m.Length1
      invariant forall r, l :: 0 <= r < m.Length0 && 0 <= l < m.Length1 ==>
                  m[r, l] == if r == k && l < j then (old(m[k, l]) - factor * old(m[i, l])) % q else old(m[r, l])
    {
      m[k, j] := (m[k, j] - factor * m[i, j]) % q;
    }
    RowsUpdated(old(Rows(m)), Rows(m), m.Length1, k, MinusMultiple(old(Rows(m))[k], factor, old(Rows(m))[i], q));
  }

  /** Step i is half done: rows up to i have pivots, rows from k on may still be nonzero below the last. */
  ghost predicate Cleared(rows: Matrix, cols: nat, i: nat, p: nat, k: nat)
    requires HasColumns(rows, cols) && p < cols && k <= |rows|
  {
    forall r :: i < r < k ==> rows[r][p] == 0
  }

  /** What one elimination step keeps. */
  ghost predicate Progress(rows: Matrix, cols: nat, pivots: seq<nat>, q: nat)
    requires q > 0
  {
    HasColumns(rows, cols) && |pivots| <= |rows| && Echelon(rows, cols, pivots, q)
  }

  lemma NormalizeStep(rows: Matrix, cols: nat, pivots: seq<nat>, p: nat, inv: int, q: nat)
    requires Prime(q) && |pivots| < |rows| && p < cols && Progress(rows, cols, pivots, q)
    requires Cong(rows[|pivots|][p] * inv, 1, q)
    ensures var rows' := rows[|pivots| := ScaledBy(rows[|pivots|], inv, q)];
            && Progress(rows', cols, pivots, q) && Cong(rows'[|pivots|][p], 1, q)
            && (LeadsOk(rows, q) ==> LeadsOk(rows', q))
            && (Independent(rows, cols, q) <==> Independent(rows', cols, q))
  {
    hide IsLead;
    var i := |pivots|;
    var row := ScaledBy(rows[i], inv, q);
    ModUnique(0, 0, 0, q);
    ModUnique(1, 0, 1, q);
    forall j | 0 <= j < cols
      ensures Cong(row[j], inv * rows[i][j], q) && 0 <= row[j] < q && (rows[i][j] == 0 ==> row[j] == 0)
    {
      CongMod(rows[i][j] * inv, q);
      assert rows[i][j] * inv == inv * rows[i][j];
    }
    if Cong(inv, 0, q) {
      CongMul(rows[i][p], rows[i][p], inv, 0, q);
    }
    ResiduesLead(row, q);
    ScaleKeepsIndependence(rows, cols, i, row, inv, q);
  }

  lemma EliminateStep(rows: Matrix, cols: nat, pivots: seq<nat>, p: nat, k: nat, q: nat)
    requires Prime(q) && |pivots| < k < |rows| && p < cols && Progress(rows, cols, pivots, q)
    requires Cong(rows[|pivots|][p], 1, q) && Cleared(rows, cols, |pivots|, p, k)
    ensures var rows' := rows[k := MinusMultiple(rows[k], rows[k][p], rows[|pivots|], q)];
            && Progress(rows', cols, pivots, q) && Cong(rows'[|pivots|][p], 1, q)
            && Cleared(rows', cols, |pivots|, p, k + 1)
            && (LeadsOk(rows, q) ==> LeadsOk(rows', q))
            && (Independent(rows, cols, q) <==> Independent(rows', cols, q))
  {
    hide Cong, Independent, Echelon, LeadOk;
    var i := |pivots|;
    var f := rows[k][p];
    var row := MinusMultiple(rows[k], f, rows[i], q);
    forall j | 0 <= j < cols
      ensures Cong(row[j], rows[k][j] - f * rows[i][j], q) && 0 <= row[j] < q
      ensures rows[k][j] == rows[i][j] == 0 ==> row[j] == 0
    {
      SubtractEntry(rows[k][j], f, rows[i][j], q);
    }
    EliminatePivot(f, rows[i][p], q);
    ResiduesLead(row, q);
    SubtractKeepsIndependence(rows, cols, i, k, row, f, q);
    RowReplaced(rows, cols, pivots, p, k, row, q);
  }

  lemma SubtractEntry(a: int, f: int, b: int, q: int)
    requires q > 0
    ensures var v := (a - f * b) % q; Cong(v, a - f * b, q) && 0 <= v < q && (a == b == 0 ==> v == 0)
  {
    CongMod(a - f * b, q);
    ModUnique(0, 0, 0, q);
  }

  /** A row below the pivots may be replaced by one that keeps their zeros. */
  lemma RowReplaced(rows: Matrix, cols: nat, pivots: seq<nat>, p: nat, k: nat, row: seq<int>, q: nat)
    requires q > 0 && |pivots| < k < |rows| && p < cols && Progress(rows, cols, pivots, q)
    requires Cong(rows[|pivots|][p], 1, q) && Cleared(rows, cols, |pivots|, p, k)
    requires |row| == cols && row[p] == 0 && forall j :: 0 <= j < cols ==> 0 <= row[j] < q
    requires forall j :: 0 <= j < cols && rows[k][j] == rows[|pivots|][j] == 0 ==> row[j] == 0
    ensures var rows' := rows[k := row];
            && Progress(rows', cols, pivots, q) && Cong(rows'[|pivots|][p], 1, q) && Cleared(rows', cols, |pivots|, p, k + 1)
  {
    hide Cong;
  }

  lemma EliminatePivot(f: int, one: int, q: int)
    requires q > 0 && Cong(one, 1, q)
    ensures (f - f * one) % q == 0
  {
    CongMul(f, f, one, 1, q);
    CongAdd(f, f, f * one, f * 1, q);
    ModUnique(0, 0, 0, q);
  }

  lemma ResidueNonzero(x: int, q: nat)
    requires 0 < x < q
    ensures !Cong(x, 0, q)
  {
    ModUnique(x, 0, x, q);
    ModUnique(0, 0, 0, q);
  }

  /** Divide row i by its lead. False is the nil inverse of a multiple of q. */
  method Normalize(m: array2<int>, i: nat, p: nat, q: nat, ghost pivots: seq<nat>) returns (ok: bool)
    requires Prime(q) && i == |pivots| < m.Length0 && p < m.Length1 && IsLead(Rows(m)[i], p)
    requires Progress(Rows(m), m.Length1, pivots, q)
    modifies m
    ensures ok <==> old(LeadOk(Rows(m)[i], q))
    ensures ok ==> Progress(Rows(m), m.Length1, pivots, q) && Cong(Rows(m)[i][p], 1, q)
    ensures ok && old(LeadsOk(Rows(m), q)) ==> LeadsOk(Rows(m), q)
    ensures ok ==> (Independent(Rows(m), m.Length1, q) <==> Independent(old(Rows(m)), m.Length1, q))
  {
    hide Independent, Echelon, LeadsOk;
    OneLead(Rows(m)[i], p, q);
    var inv := ModInverse(m[i, p], q);
    if inv.None? {
      return false;
    }
    NormalizeStep(Rows(m), m.Length1, pivots, p, inv.value, q);
    NormalizeRow(m, i, inv.value, q);
    return true;
  }

  lemma OneLead(row: seq<int>, p: nat, q: int)
    requires q > 0 && p < |row| && IsLead(row, p)
    ensures LeadOk(row, q) <==> !Cong(row[p], 0, q)
  {
    hide Cong;
    forall j | 0 <= j < |row| && IsLead(row, j) ensures j == p {
    }
  }

  /** Clear the pivot column below row i. */
  method ClearBelow(m: array2<int>, i: nat, p: nat, q: nat, ghost pivots: seq<nat>)
    requires Prime(q) && i == |pivots| < m.Length0 && p < m.Length1
    requires Progress(Rows(m), m.Length1, pivots, q) && Cong(Rows(m)[i][p], 1, q)
    modifies m
    ensures Progress(Rows(m), m.Length1, pivots, q) && Cong(Rows(m)[i][p], 1, q)
    ensures Cleared(Rows(m), m.Length1, i, p, m.Length0)
    ensures old(LeadsOk(Rows(m), q)) ==> LeadsOk(Rows(m), q)
    ensures Independent(Rows(m), m.Length1, q) <==> Independent(old(Rows(m)), m.Length1, q)
  {
    hide Independent, Echelon, LeadsOk;
    var k := i + 1;
    while k < m.Length0
      invariant i < k <= m.Length0
      invariant Progress(Rows(m), m.Length1, pivots, q) && Cong(Rows(m)[i][p], 1, q)
      invariant Cleared(Rows(m), m.Length1, i, p, k)
      invariant old(LeadsOk(Rows(m), q)) ==> LeadsOk(Rows(m), q)
      invariant Independent(Rows(m), m.Length1, q) <==> Independent(old(Rows(m)), m.Length1, q)
    {
      if m[k, p] != 0 {
        EliminateStep(Rows(m), m.Length1, pivots, p, k, q);
        EliminateRow(m, i, k, m[k, p], q);
      }
      k := k + 1;
    }
  }

  lemma PivotAdded(rows: Matrix, cols: nat, pivots: seq<nat>, p: nat, q: nat)
    requires q > 0 && |pivots| < |rows| && p < cols && Progress(rows, cols, pivots, q)
    requires Cong(rows[|pivots|][p], 1, q) && Cleared(rows, cols, |pivots|, p, |rows|)
    ensures Progress(rows, cols, pivots + [p], q)
  {
  }

  method CopyMatrix(mat: array2<int>) returns (m: array2<int>)
    ensures fresh(m) && m.Length0 == mat.Length0 && m.Length1 == mat.Length1 && Rows(m) == Rows(mat)
  {
    m := new int[mat.Length0, mat.Length1]((i, j) requires 0 <= i < mat.Length0 && 0 <= j < mat.Length1 reads mat => mat[i, j]);
    assert forall i :: 0 <= i < m.Length0 ==> Rows(m)[i] == Rows(mat)[i];
  }

  /** GaussianEliminationModQ decides linear independence of the rows over Z_q, for integer entries of any size. None is the
      panic on a lead that is a multiple of q; it cannot happen when every row starts with a unit, residues in [0, q)
      in particular. It works on a copy, so the argument is unchanged; the code indexes row 0. */
  method GaussianEliminationModQ(mat: array2<int>, q: nat) returns (full: Option<bool>)
    requires Prime(q) && mat.Length0 >= 1
    ensures full.Some? ==> (full.value <==> Independent(Rows(mat), mat.Length1, q))
    ensures full.Some? && mat.Length0 > mat.Length1 ==> !full.value
    ensures LeadsOk(Rows(mat), q) ==> full.Some?
    ensures !LeadOk(Rows(mat)[0], q) ==> full.None?
  {
    hide Independent, LeadOk;
    var m := CopyMatrix(mat);
    ghost var pivots: seq<nat> := [];
    var i := 0;
    while i < m.Length0
      invariant 0 <= i == |pivots| <= m.Length0
      invariant Progress(Rows(m), m.Length1, pivots, q)
      invariant i == 0 ==> Rows(m) == Rows(mat)
      invariant i > 0 ==> LeadOk(Rows(mat)[0], q)
      invariant LeadsOk(Rows(mat), q) ==> LeadsOk(Rows(m), q)
      invariant Independent(Rows(m), m.Length1, q) <==> Independent(Rows(mat), mat.Length1, q)
    {
      var found, p := FindPivot(m, i);
      if !found {
        ZeroRowDependent(Rows(m), m.Length1, i, q);
        ZeroLead(Rows(m)[i], q);
        return Some(false);
      }
      var ok := Normalize(m, i, p, q, pivots);
      if !ok {
        return None;
      }
      ClearBelow(m, i, p, q, pivots);
      PivotAdded(Rows(m), m.Length1, pivots, p, q);
      pivots := pivots + [p];
      i := i + 1;
    }
    EchelonIndependent(Rows(m), m.Length1, pivots, q);
    PivotsFit(Rows(m), m.Length1, pivots, q);
    return Some(true);
  }

  lemma ZeroLead(row: seq<int>, q: int)
    requires q > 0 && forall j :: 0 <= j < |row| ==> row[j] == 0
    ensures LeadOk(row, q)
  {
  }

  // ----- the full-rank check of the commitment matrix ------------------------------

  /** D[row][col] is a polynomial given by its coefficients. */
  type PolyMatrix = seq<seq<seq<int>>>

  ghost predicate IsPolyMatrix(D: PolyMatrix, cols: nat, phi: nat) {
    forall r :: 0 <= r < |D| ==> |D[r]| == cols && forall c :: 0 <= c < cols ==> |D[r][c]| == phi
  }

  /** Coefficient slot i of D without its first column, reduced modulo q. */
  ghost function Submatrix(D: PolyMatrix, i: nat, cols: nat, phi: nat, q: nat): (rows: Matrix)
    requires cols >= 1 && i < phi && q > 0 && IsPolyMatrix(D, cols, phi)
    ensures |rows| == |D| && HasColumns(rows, cols - 1)
    ensures forall r, c :: 0 <= r < |D| && 0 <= c < cols - 1 ==> rows[r][c] == D[r][c + 1][i] % q
  {
    seq(|D|, r requires 0 <= r < |D| => seq(cols - 1, c requires 0 <= c < cols - 1 => D[r][c + 1][i] % q))
  }

  ghost predicate FullRank(D: PolyMatrix, cols: nat, phi: nat, q: nat)
    requires cols >= 1 && q > 0 && IsPolyMatrix(D, cols, phi)
  {
    forall i :: 0 <= i < phi ==> Independent(Submatrix(D, i, cols, phi, q), cols - 1, q)
  }

  /** FullRankCheck: in every coefficient slot, the rows without column 0 are independent. */
  method FullRankCheck(D: PolyMatrix, cols: nat, phi: nat, q: nat) returns (full: bool)
    requires Prime(q) && |D| >= 1 && cols >= 1 && IsPolyMatrix(D, cols, phi)
    ensures full <==> FullRank(D, cols, phi, q)
    ensures full <==> forall i :: 0 <= i < phi ==> Independent(Submatrix(D, i, cols, phi, q), cols - 1, q)
  {
    hide Independent, Submatrix;
    for i := 0 to phi
      invariant forall l :: 0 <= l < i ==> Independent(Submatrix(D, l, cols, phi, q), cols - 1, q)
    {
      var sub := new int[|D|, cols - 1]((r, c) requires 0 <= r < |D| && 0 <= c < cols - 1 => D[r][c + 1][i] % q);
      SubmatrixRows(sub, D, i, cols, phi, q);
      var ok := GaussianEliminationModQ(sub, q);
      if !ok.value {
        return false;
      }
    }
    return true;
  }

  lemma SubmatrixRows(sub: array2<int>, D: PolyMatrix, i: nat, cols: nat, phi: nat, q: nat)
    requires cols >= 1 && i < phi && q > 0 && IsPolyMatrix(D, cols, phi)
    requires sub.Length0 == |D| && sub.Length1 == cols - 1
    requires forall r, c :: 0 <= r < |D| && 0 <= c < cols - 1 ==> sub[r, c] == D[r][c + 1][i] % q
    ensures Rows(sub) == Submatrix(D, i, cols, phi, q) && LeadsOk(Rows(sub), q)
  {
    var a, b := Rows(sub), Submatrix(D, i, cols, phi, q);
    forall r | 0 <= r < |D| ensures a[r] == b[r] && LeadOk(a[r], q) {
      forall c | 0 <= c < |a[r]| ensures 0 <= a[r][c] < q {
        CongMod(D[r][c + 1][i], q);
      }
      ResiduesLead(a[r], q);
    }
  }
}
