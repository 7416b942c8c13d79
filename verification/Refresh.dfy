/** Refresh: the same-committee update by zero polynomials, the Verify helper, and the
    secret over whole runs of the kernel. */
module Refresh {
  import opened Zq
  import opened Polynomials
  import opened Sorting
  import opened Bytes
  import opened Randomness
  import opened Lagrange
  import opened Reshare

  /** A party's zero polynomial in slot (p, k): constant term zero, then the drawn coefficients.
      The draws are ordered by degree, then vector index, then coefficient. */
  ghost function ZeroColumn(z: Cube, p: nat, k: nat, nVec: nat, N: nat, q: nat): (f: seq<int>)
    requires IsCube(z, |z|, nVec, N, q) && p < nVec && k < N
    ensures |f| == |z| + 1 && f[0] == 0
  {
    [0] + seq(|z|, d requires 0 <= d < |z| => assert IsMatrix(z[d], nVec, N, q); z[d][p][k])
  }

  /** The inner Horner loop of Refresh: the high coefficients, then one more multiplication. */
  method HornerZero(z: Cube, p: nat, k: nat, x: int, q: nat, ghost nVec: nat, ghost N: nat) returns (acc: nat)
    requires q > 0 && |z| >= 1 && IsCube(z, |z|, nVec, N, q) && p < nVec && k < N
    ensures acc == Eval(ZeroColumn(z, p, k, nVec, N, q), x) % q
  {
    hide Cong, Eval;
    ghost var f := ZeroColumn(z, p, k, nVec, N, q);
    var t := |z| + 1;
    assert forall i :: 0 <= i < |z| ==> IsMatrix(z[i], nVec, N, q);
    acc := z[t - 2][p][k];
    var d := t - 3;
    EvalLast(f, x);
    CongRefl(acc, q);
    while d >= 0
      invariant -1 <= d <= t - 3
      invariant acc < q && Cong(acc, Eval(f[d + 2..], x), q)
    {
      assert f[d + 1..][1..] == f[d + 2..] && f[d + 1..][0] == z[d][p][k];
      EvalUnfold(f[d + 1..], x);
      HornerStep(acc, x, z[d][p][k], Eval(f[d + 2..], x), q);
      acc := (acc * x + z[d][p][k]) % q;
      d := d - 1;
    }
    LastStep(acc, x, Eval(f[1..], x), q);
    acc := (acc * x) % q;
    EvalUnfold(f, x);
  }

  lemma EvalUnfold(f: seq<int>, x: int)
    requires f != []
    ensures Eval(f, x) == f[0] + x * Eval(f[1..], x)
  {
  }

  lemma LastStep(acc: int, x: int, tail: int, q: int)
    requires q > 0 && Cong(acc, tail, q)
    ensures 0 <= (acc * x) % q == (0 + x * tail) % q
  {
    CongMul(acc, tail, x, x, q);
    CongMod(acc * x, q);
    assert tail * x == x * tail;
  }

  /** out[p][k] = cur[p][k] + z(x)[p][k] mod q. */
  ghost predicate ZeroAdded(out: Share, cur: Share, z: Cube, x: int, nVec: nat, N: nat, q: nat)
    requires q > 0 && IsCube(z, |z|, nVec, N, q)
  {
    && Shape(out, nVec, N) && Shape(cur, nVec, N)
    && forall p, k :: 0 <= p < nVec && 0 <= k < N ==>
         out[p][k] == (cur[p][k] + Eval(ZeroColumn(z, p, k, nVec, N, q), x) % q) % q
  }

  method AddZeroRow(cur: seq<nat>, z: Cube, x: int, p: nat, nVec: nat, N: nat, q: nat) returns (row: seq<nat>)
    requires q > 0 && |z| >= 1 && IsCube(z, |z|, nVec, N, q) && |cur| == N && p < nVec
    ensures |row| == N
    ensures forall k :: 0 <= k < N ==> row[k] == (cur[k] + Eval(ZeroColumn(z, p, k, nVec, N, q), x) % q) % q
  {
    row := [];
    for k := 0 to N
      invariant |row| == k
      invariant forall l :: 0 <= l < k ==> row[l] == (cur[l] + Eval(ZeroColumn(z, p, l, nVec, N, q), x) % q) % q
    {
      var acc := HornerZero(z, p, k, x, q, nVec, N);
      row := row + [(cur[k] + acc) % q];
    }
  }

  method AddZeroPoly(cur: Share, z: Cube, x: int, nVec: nat, N: nat, q: nat) returns (out: Share)
    requires q > 0 && |z| >= 1 && IsCube(z, |z|, nVec, N, q) && Shape(cur, nVec, N)
    ensures ZeroAdded(out, cur, z, x, nVec, N, q)
  {
    out := [];
    for p := 0 to nVec
      invariant Shape(out, p, N)
      invariant forall i, k :: 0 <= i < p && 0 <= k < N ==>
                  out[i][k] == (cur[i][k] + Eval(ZeroColumn(z, i, k, nVec, N, q), x) % q) % q
    {
      var row := AddZeroRow(cur[p], z, x, p, nVec, N, q);
      out := out + [row];
    }
  }

  ghost predicate AreZeros(draws: seq<Cube>, t: nat, nVec: nat, N: nat, q: nat) {
    t >= 1 && forall i :: 0 <= i < |draws| ==> IsCube(draws[i], t - 1, nVec, N, q)
  }

  /** The sum of the parties' zero polynomials in slot (p, k). */
  ghost function ZeroPoly(draws: seq<Cube>, p: nat, k: nat, t: nat, nVec: nat, N: nat, q: nat): (f: seq<int>)
    requires AreZeros(draws, t, nVec, N, q) && p < nVec && k < N
    ensures |f| == t
  {
    if draws == [] then Zeros(t)
    else
      var n := |draws| - 1;
      AddPoly(ZeroPoly(draws[..n], p, k, t, nVec, N, q), ZeroColumn(draws[n], p, k, nVec, N, q))
  }

  /** out is the base share plus the summed zero polynomials at x, reduced once something was added. */
  ghost predicate Refreshed(out: Share, base: Share, draws: seq<Cube>, x: int, t: nat, nVec: nat, N: nat, q: nat)
    requires q > 0 && AreZeros(draws, t, nVec, N, q)
  {
    && Shape(out, nVec, N) && Shape(base, nVec, N)
    && (forall p, k :: 0 <= p < nVec && 0 <= k < N ==>
          Cong(out[p][k], base[p][k] + Eval(ZeroPoly(draws, p, k, t, nVec, N, q), x), q))
    && (draws != [] ==> Reduced(out, q))
  }

  lemma RefreshOne(out: Share, cur: Share, base: Share, draws: seq<Cube>, z: Cube, x: int, t: nat, nVec: nat, N: nat, q: nat)
    requires q > 0 && AreZeros(draws, t, nVec, N, q) && IsCube(z, t - 1, nVec, N, q)
    requires Refreshed(cur, base, draws, x, t, nVec, N, q) && ZeroAdded(out, cur, z, x, nVec, N, q)
    ensures Refreshed(out, base, draws + [z], x, t, nVec, N, q)
  {
    var all := draws + [z];
    assert all[..|draws|] == draws;
    forall p, k | 0 <= p < nVec && 0 <= k < N
      ensures out[p][k] < q && Cong(out[p][k], base[p][k] + Eval(ZeroPoly(all, p, k, t, nVec, N, q), x), q)
    {
      var f, g := ZeroPoly(draws, p, k, t, nVec, N, q), ZeroColumn(z, p, k, nVec, N, q);
      EvalAdd(f, g, x);
      RefreshSum(cur[p][k], base[p][k], Eval(f, x), Eval(g, x), q);
    }
  }

  lemma RefreshSum(cur: int, base: int, f: int, g: int, q: int)
    requires q > 0 && Cong(cur, base + f, q)
    ensures 0 <= (cur + g % q) % q < q && Cong((cur + g % q) % q, base + (f + g), q)
  {
    CongMod(g, q);
    CongMod(cur + g % q, q);
    CongAdd(cur, base + f, g % q, g, q);
  }

  ghost predicate AllRefreshed(out: map<int, Share>, shares: map<int, Share>, draws: seq<Cube>, t: nat, nVec: nat, N: nat, q: nat)
    requires q > 0 && AreZeros(draws, t, nVec, N, q)
  {
    && out.Keys == shares.Keys
    && forall j :: j in shares ==> Refreshed(out[j], shares[j], draws, j, t, nVec, N, q)
  }

  /** z_i(j) added into party j's share. */
  method DeliverOne(cur: Share, z: Cube, x: int, ghost base: Share, ghost draws: seq<Cube>,
                    t: nat, nVec: nat, N: nat, q: nat) returns (out: Share)
    requires q > 0 && t >= 2 && IsCube(z, t - 1, nVec, N, q) && AreZeros(draws, t, nVec, N, q)
    requires Refreshed(cur, base, draws, x, t, nVec, N, q)
    ensures Refreshed(out, base, draws + [z], x, t, nVec, N, q)
  {
    out := AddZeroPoly(cur, z, x, nVec, N, q);
    RefreshOne(out, cur, base, draws, z, x, t, nVec, N, q);
  }

  /** One party's zero polynomial, delivered to every party of the committee. */
  method Deliver(cur: map<int, Share>, parties: seq<int>, z: Cube, ghost shares: map<int, Share>, ghost draws: seq<Cube>,
                 t: nat, nVec: nat, N: nat, q: nat) returns (out: map<int, Share>)
    requires q > 0 && t >= 2 && IsCube(z, t - 1, nVec, N, q) && AreZeros(draws, t, nVec, N, q)
    requires NoDuplicates(parties) && Elements(parties) == shares.Keys
    requires AllRefreshed(cur, shares, draws, t, nVec, N, q)
    ensures AllRefreshed(out, shares, draws + [z], t, nVec, N, q)
  {
    hide Refreshed, IsCube;
    out := cur;
    var n := 0;
    ghost var all := draws + [z];
    assert forall i :: 0 <= i < |parties| ==> parties[i] in Elements(parties);
    while n < |parties|
      invariant 0 <= n <= |parties| && out.Keys == shares.Keys
      invariant forall i :: 0 <= i < n ==> Refreshed(out[parties[i]], shares[parties[i]], all, parties[i], t, nVec, N, q)
      invariant forall i :: n <= i < |parties| ==> out[parties[i]] == cur[parties[i]]
    {
      var j := parties[n];
      assert j in shares;
      var sum := DeliverOne(out[j], z, j, shares[j], draws, t, nVec, N, q);
      out := out[j := sum];
      n := n + 1;
    }
    forall j | j in shares ensures Refreshed(out[j], shares[j], all, j, t, nVec, N, q) {
      assert j in Elements(parties);
    }
  }

  /** How Refresh rewrites a table: each share moves by the summed zero polynomials of all parties. */
  ghost predicate RefreshStep(shares: map<int, Share>, out: map<int, Share>, t: nat, draws: seq<Cube>, N: nat, q: nat)
    requires q > 0
  {
    && AllShaped(shares, Dim(shares), N)
    && AreZeros(draws, t, Dim(shares), N, q)
    && AllRefreshed(out, shares, draws, t, Dim(shares), N, q)
  }

  /** The dealing loop, for thresholds above one. */
  method RefreshAll(shares: map<int, Share>, parties: seq<int>, t: nat, nVec: nat, rs: ByteReader, N: nat, q: nat)
    returns (r: Option<map<int, Share>>, ghost draws: seq<Cube>)
    requires q > 0 && t >= 2 && AllShaped(shares, nVec, N)
    requires NoDuplicates(parties) && Elements(parties) == shares.Keys
    modifies rs
    ensures r.Some? <==> DrawDealers(rs.data, old(rs.pos), q, |parties|, t - 1, nVec, N).Some?
    ensures r.Some? ==>
              && DrawDealers(rs.data, old(rs.pos), q, |parties|, t - 1, nVec, N) == Some((draws, rs.pos))
              && AreZeros(draws, t, nVec, N, q)
              && AllRefreshed(r.value, shares, draws, t, nVec, N, q)
    ensures r.Some? && |parties| > 0 ==> AreShifted(r.value, shares, draws, t, nVec, N, q)
  {
    hide AllRefreshed, IsCube, DrawCube, AreShifted;
    draws := [];
    var out := shares;
    Untouched(shares, t, nVec, N, q);
    var n := 0;
    while n < |parties|
      invariant 0 <= n <= |parties|
      invariant DrawDealers(rs.data, old(rs.pos), q, n, t - 1, nVec, N) == Some((draws, rs.pos))
      invariant AreZeros(draws, t, nVec, N, q)
      invariant AllRefreshed(out, shares, draws, t, nVec, N, q)
    {
      var z := SampleCube(rs, q, t - 1, nVec, N);
      n := n + 1;
      if z.None? {
        DealersFail(rs.data, old(rs.pos), q, n, |parties|, t - 1, nVec, N);
        return None, draws;
      }
      out := Deliver(out, parties, z.value, shares, draws, t, nVec, N, q);
      draws := draws + [z.value];
    }
    if |parties| > 0 {
      RefreshedShifts(out, shares, draws, t, nVec, N, q);
    }
    return Some(out), draws;
  }

  lemma Untouched(shares: map<int, Share>, t: nat, nVec: nat, N: nat, q: nat)
    requires q > 0 && t >= 1 && AllShaped(shares, nVec, N)
    ensures AllRefreshed(shares, shares, [], t, nVec, N, q)
  {
    forall j | j in shares ensures Refreshed(shares[j], shares[j], [], j, t, nVec, N, q) {
      EvalZeros(t, j);
    }
  }

  // ----- the invariance of the secret ----------------------------------------------

  lemma {:induction false} ZeroAtZero(draws: seq<Cube>, p: nat, k: nat, t: nat, nVec: nat, N: nat, q: nat)
    requires AreZeros(draws, t, nVec, N, q) && p < nVec && k < N
    ensures Eval(ZeroPoly(draws, p, k, t, nVec, N, q), 0) == 0
  {
    if draws == [] {
      EvalZeros(t, 0);
    } else {
      var n := |draws| - 1;
      ZeroAtZero(draws[..n], p, k, t, nVec, N, q);
      var f, g := ZeroPoly(draws[..n], p, k, t, nVec, N, q), ZeroColumn(draws[n], p, k, nVec, N, q);
      EvalAdd(f, g, 0);
      assert Eval(g, 0) == g[0] + 0 * Eval(g[1..], 0);
    }
  }

  lemma RefreshSlot(shares: map<int, Share>, out: map<int, Share>, t: nat, s: int, draws: seq<Cube>,
                    p: nat, k: nat, nVec: nat, N: nat, q: nat)
    requires q > 0 && p < nVec && k < N && AllShaped(shares, nVec, N) && AllShaped(out, nVec, N)
    requires AreZeros(draws, t, nVec, N, q) && AllRefreshed(out, shares, draws, t, nVec, N, q)
    requires SlotSharing(shares, t, p, k, s, q)
    ensures SlotSharing(out, t, p, k, s, q)
  {
    hide Cong, Eval, Refreshed, AddPoly, ZeroPoly, IsCube;
    var f :| |f| == t && SlotShares(shares, p, k, f, q) && Cong(Eval(f, 0), s, q);
    var z := ZeroPoly(draws, p, k, t, nVec, N, q);
    var g := AddPoly(f, z);
    ZeroAtZero(draws, p, k, t, nVec, N, q);
    EvalAdd(f, z, 0);
    forall id | id in out ensures Cong(out[id][p][k], Eval(g, id), q) {
      RefreshedShare(out[id], shares[id], draws, id, f, p, k, t, nVec, N, q);
    }
    SumLength(f, z);
    assert SlotShares(out, p, k, g, q);
  }

  lemma SumLength(f: seq<int>, g: seq<int>)
    requires |f| == |g|
    ensures |AddPoly(f, g)| == |f|
  {
  }

  /** A share on f, refreshed, lies on f plus the summed zero polynomials. */
  lemma RefreshedShare(out: Share, base: Share, draws: seq<Cube>, id: int, f: seq<int>, p: nat, k: nat, t: nat, nVec: nat, N: nat, q: nat)
    requires q > 0 && p < nVec && k < N && AreZeros(draws, t, nVec, N, q) && Refreshed(out, base, draws, id, t, nVec, N, q)
    requires |f| == t && Cong(base[p][k], Eval(f, id), q)
    ensures Cong(out[p][k], Eval(AddPoly(f, ZeroPoly(draws, p, k, t, nVec, N, q)), id), q)
  {
    hide Cong, Eval;
    var z := ZeroPoly(draws, p, k, t, nVec, N, q);
    EvalAdd(f, z, id);
    CongRefl(Eval(z, id), q);
    CongAdd(base[p][k], Eval(f, id), Eval(z, id), Eval(z, id), q);
    CongTrans(out[p][k], base[p][k] + Eval(z, id), Eval(f, id) + Eval(z, id), q);
  }

  /** Refresh keeps the secret and the degree bound. */
  lemma RefreshKeepsSecret(shares: map<int, Share>, out: map<int, Share>, t: nat, secret: Share, draws: seq<Cube>, N: nat, q: nat)
    requires q > 0 && RefreshStep(shares, out, t, draws, N, q)
    requires IsSharing(shares, t, secret, Dim(shares), N, q)
    ensures out.Keys == shares.Keys && IsSharing(out, t, secret, Dim(shares), N, q)
  {
    var nVec := Dim(shares);
    forall id | id in out ensures Shape(out[id], nVec, N) {
      assert Refreshed(out[id], shares[id], draws, id, t, nVec, N, q);
    }
    forall p, k | 0 <= p < nVec && 0 <= k < N ensures SlotSharing(out, t, p, k, secret[p][k], q) {
      RefreshSlot(shares, out, t, secret[p][k], draws, p, k, nVec, N, q);
    }
  }

  // ----- what the update adds ------------------------------------------------------

  /** What party x's share moves by in slot (p, k): over the parties, their drawn coefficients times the powers of x. */
  ghost function Shift(draws: seq<Cube>, x: int, p: nat, k: nat, t: nat, nVec: nat, N: nat, q: nat): int
    requires AreZeros(draws, t, nVec, N, q) && p < nVec && k < N
  {
    Total(seq(|draws|, i requires 0 <= i < |draws| =>
      assert IsCube(draws[i], t - 1, nVec, N, q);
      Total(seq(t - 1, d requires 0 <= d < t - 1 => assert IsMatrix(draws[i][d], nVec, N, q); draws[i][d][p][k] * Pow(x, d + 1)))))
  }

  lemma ZeroValue(z: Cube, x: int, p: nat, k: nat, nVec: nat, N: nat, q: nat)
    requires IsCube(z, |z|, nVec, N, q) && p < nVec && k < N
    ensures Eval(ZeroColumn(z, p, k, nVec, N, q), x) ==
            Total(seq(|z|, d requires 0 <= d < |z| => assert IsMatrix(z[d], nVec, N, q); z[d][p][k] * Pow(x, d + 1)))
  {
    hide Eval, Total, Pow;
    var f := seq(|z|, d requires 0 <= d < |z| => assert IsMatrix(z[d], nVec, N, q); z[d][p][k]);
    assert ZeroColumn(z, p, k, nVec, N, q) == [0] + f;
    ConstantAndPowers(0, f, x);
    assert seq(|f|, d requires 0 <= d < |f| => f[d] * Pow(x, d + 1)) ==
           seq(|z|, d requires 0 <= d < |z| => assert IsMatrix(z[d], nVec, N, q); z[d][p][k] * Pow(x, d + 1));
  }

  /** The summed zero polynomials, term by term. */
  lemma {:induction false} ShiftIsZeroPoly(draws: seq<Cube>, x: int, p: nat, k: nat, t: nat, nVec: nat, N: nat, q: nat)
    requires AreZeros(draws, t, nVec, N, q) && p < nVec && k < N
    ensures Eval(ZeroPoly(draws, p, k, t, nVec, N, q), x) == Shift(draws, x, p, k, t, nVec, N, q)
  {
    hide Eval, Pow;
    if draws == [] {
      EvalZeros(t, x);
    } else {
      var n := |draws| - 1;
      assert IsCube(draws[n], t - 1, nVec, N, q);
      ShiftIsZeroPoly(draws[..n], x, p, k, t, nVec, N, q);
      EvalAdd(ZeroPoly(draws[..n], p, k, t, nVec, N, q), ZeroColumn(draws[n], p, k, nVec, N, q), x);
      ZeroValue(draws[n], x, p, k, nVec, N, q);
      ShiftLast(draws, x, p, k, t, nVec, N, q);
    }
  }

  lemma ShiftLast(draws: seq<Cube>, x: int, p: nat, k: nat, t: nat, nVec: nat, N: nat, q: nat)
    requires AreZeros(draws, t, nVec, N, q) && draws != [] && p < nVec && k < N
    ensures var n := |draws| - 1;
            assert IsCube(draws[n], t - 1, nVec, N, q);
            Shift(draws, x, p, k, t, nVec, N, q) == Shift(draws[..n], x, p, k, t, nVec, N, q) +
            Total(seq(t - 1, d requires 0 <= d < t - 1 => assert IsMatrix(draws[n][d], nVec, N, q); draws[n][d][p][k] * Pow(x, d + 1)))
  {
    hide Pow;
    var n := |draws| - 1;
    var terms := seq(|draws|, i requires 0 <= i < |draws| =>
      assert IsCube(draws[i], t - 1, nVec, N, q);
      Total(seq(t - 1, d requires 0 <= d < t - 1 => assert IsMatrix(draws[i][d], nVec, N, q); draws[i][d][p][k] * Pow(x, d + 1))));
    var low := seq(n, i requires 0 <= i < n =>
      assert IsCube(draws[..n][i], t - 1, nVec, N, q);
      Total(seq(t - 1, d requires 0 <= d < t - 1 => assert IsMatrix(draws[..n][i][d], nVec, N, q); draws[..n][i][d][p][k] * Pow(x, d + 1))));
    forall i | 0 <= i < n ensures terms[..n][i] == low[i] {
      assert IsCube(draws[i], t - 1, nVec, N, q);
      assert seq(t - 1, d requires 0 <= d < t - 1 => assert IsMatrix(draws[i][d], nVec, N, q); draws[i][d][p][k] * Pow(x, d + 1)) ==
             seq(t - 1, d requires 0 <= d < t - 1 => assert IsMatrix(draws[..n][i][d], nVec, N, q); draws[..n][i][d][p][k] * Pow(x, d + 1));
    }
    assert terms[..n] == low;
  }

  /** Every party of the committee moves by its shift, reduced. */
  ghost predicate AreShifted(out: map<int, Share>, shares: map<int, Share>, draws: seq<Cube>, t: nat, nVec: nat, N: nat, q: nat)
    requires q > 0 && AreZeros(draws, t, nVec, N, q)
  {
    && out.Keys == shares.Keys && AllShaped(out, nVec, N) && AllShaped(shares, nVec, N)
    && forall j, p, k :: j in out && 0 <= p < nVec && 0 <= k < N ==>
         out[j][p][k] == (shares[j][p][k] + Shift(draws, j, p, k, t, nVec, N, q)) % q
  }

  lemma RefreshedShifts(out: map<int, Share>, shares: map<int, Share>, draws: seq<Cube>, t: nat, nVec: nat, N: nat, q: nat)
    requires q > 0 && AreZeros(draws, t, nVec, N, q) && AllRefreshed(out, shares, draws, t, nVec, N, q) && draws != []
    ensures AreShifted(out, shares, draws, t, nVec, N, q)
  {
    hide Cong, Eval, Shift, IsCube;
    forall j | j in out ensures Shape(out[j], nVec, N) && Shape(shares[j], nVec, N) {
      assert Refreshed(out[j], shares[j], draws, j, t, nVec, N, q);
    }
    forall j, p, k | j in out && 0 <= p < nVec && 0 <= k < N
      ensures out[j][p][k] == (shares[j][p][k] + Shift(draws, j, p, k, t, nVec, N, q)) % q
    {
      assert Refreshed(out[j], shares[j], draws, j, t, nVec, N, q);
      ShiftIsZeroPoly(draws, j, p, k, t, nVec, N, q);
      ReducedValue(out[j][p][k], shares[j][p][k] + Shift(draws, j, p, k, t, nVec, N, q), q);
    }
  }

  ghost predicate RefreshAccepts(shares: map<int, Share>, t: int) {
    1 <= t <= |shares| && Uniform(shares)
  }

  /** Refresh. With threshold one it returns the shares unchanged; otherwise each share moves by the
      zero polynomials drawn from the stream. It panics exactly when the stream runs dry. */
  method Refresh(shares: map<int, Share>, t: int, rs: ByteReader, N: nat, q: nat)
    returns (r: Outcome<map<int, Share>>, ghost draws: seq<Cube>)
    requires q > 0
    requires forall id, p :: id in shares && 0 <= p < |shares[id]| ==> |shares[id][p]| == N
    modifies rs
    ensures r.Err? <==> !RefreshAccepts(shares, t)
    ensures r.Err? <==> t < 1 || t > |shares| || 0 in shares || !forall id, id' :: id in shares && id' in shares ==> |shares[id]| == |shares[id']| > 0
    ensures RefreshAccepts(shares, t) ==>
              (r.Panic? <==> t >= 2 && DrawDealers(rs.data, old(rs.pos), q, |shares|, t - 1, Dim(shares), N).None?)
    ensures r.Ok? && t == 1 ==> r.value == shares && rs.pos == old(rs.pos)
    ensures r.Ok? && t >= 2 ==>
              && DrawDealers(rs.data, old(rs.pos), q, |shares|, t - 1, Dim(shares), N) == Some((draws, rs.pos))
              && RefreshStep(shares, r.value, t, draws, N, q) && AreShifted(r.value, shares, draws, t, Dim(shares), N, q)
    ensures r.Ok? ==> r.value.Keys == shares.Keys
    ensures r.Ok? ==> forall secret :: IsSharing(shares, t, secret, Dim(shares), N, q)
                                   ==> IsSharing(r.value, t, secret, Dim(shares), N, q)
  {
    draws := [];
    if |shares| > 0 {
      UniformIff(shares);
    }
    if t < 1 {
      return Err(InvalidThresholdOld), draws;
    }
    if |shares| == 0 {
      return Err(EmptyOldShares), draws;
    }
    if t > |shares| {
      return Err(TOldShortfall), draws;
    }
    var err, nVec := CheckShares(shares);
    if err.Some? {
      return Err(err.value), draws;
    }
    assert AllShaped(shares, nVec, N);
    var parties := SortedKeys(shares);
    if t == 1 {
      return Ok(shares), draws;
    }
    var out;
    out, draws := RefreshAll(shares, parties, t, nVec, rs, N, q);
    if out.None? {
      return Panic, draws;
    }
    r := Ok(out.value);
    forall secret | IsSharing(shares, t, secret, nVec, N, q) ensures IsSharing(r.value, t, secret, nVec, N, q) {
      RefreshKeepsSecret(shares, r.value, t, secret, draws, N, q);
    }
  }
}
