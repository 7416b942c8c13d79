/** The resharing kernel: committee-to-committee Reshare, same-committee Refresh and the
    reconstruction helper Verify, over shares held as coefficient vectors modulo q. */
module Reshare {
  import opened Zq
  import opened Polynomials
  import opened Sorting
  import opened Bytes
  import opened Randomness
  import opened Lagrange

  /** A vector of ring elements in coefficient form: share[p][k]. */
  type Share = seq<seq<nat>>

  datatype Error =
    | InvalidThresholdOld | InvalidThresholdNew | EmptyOldShares | EmptyNewSet
    | TOldShortfall | TNewExceedsNewSet | ZeroPartyID | DuplicateNewID | ShareDimMismatch

  /** Panic models the nil-inverse dereference and the failed random read. */
  datatype Outcome<+T> = Ok(value: T) | Err(error: Error) | Panic

  // ----- sharings ------------------------------------------------------------------

  ghost predicate Shape(share: Share, nVec: nat, N: nat) {
    |share| == nVec && forall p :: 0 <= p < nVec ==> |share[p]| == N
  }

  ghost predicate AllShaped(shares: map<int, Share>, nVec: nat, N: nat) {
    forall id :: id in shares ==> Shape(shares[id], nVec, N)
  }

  ghost predicate HasSlot(shares: map<int, Share>, p: nat, k: nat) {
    forall id :: id in shares ==> p < |shares[id]| && k < |shares[id][p]|
  }

  /** In slot (p, k) every share is the value of f at its party id. */
  ghost predicate SlotShares(shares: map<int, Share>, p: nat, k: nat, f: seq<int>, q: nat)
    requires q > 0 && HasSlot(shares, p, k)
  {
    forall id :: id in shares ==> Cong(shares[id][p][k], Eval(f, id), q)
  }

  ghost predicate SlotSharing(shares: map<int, Share>, t: nat, p: nat, k: nat, s: int, q: nat)
    requires q > 0 && HasSlot(shares, p, k)
  {
    exists f :: |f| == t && SlotShares(shares, p, k, f, q) && Cong(Eval(f, 0), s, q)
  }

  /** Slot by slot, the shares are values of a polynomial of degree below t with value
      secret[p][k] at zero. */
  ghost predicate IsSharing(shares: map<int, Share>, t: nat, secret: Share, nVec: nat, N: nat, q: nat)
    requires q > 0
  {
    && AllShaped(shares, nVec, N)
    && Shape(secret, nVec, N)
    && forall p, k :: 0 <= p < nVec && 0 <= k < N ==> SlotSharing(shares, t, p, k, secret[p][k], q)
  }

  /** The values of one slot at the listed parties. */
  ghost function SlotValues(shares: map<int, Share>, ids: seq<int>, p: nat, k: nat): seq<int>
    requires forall i :: 0 <= i < |ids| ==> ids[i] in shares
    requires HasSlot(shares, p, k)
  {
    seq(|ids|, i requires 0 <= i < |ids| => var id := ids[i]; assert id in shares; shares[id][p][k])
  }

  /** Every set of at least t parties whose ids are distinct modulo q reconstructs the secret. */
  lemma AnySubsetReconstructs(shares: map<int, Share>, t: nat, secret: Share, nVec: nat, N: nat, q: nat,
                              ids: seq<int>, w: seq<int>, p: nat, k: nat)
    requires Prime(q) && IsSharing(shares, t, secret, nVec, N, q) && p < nVec && k < N
    requires t <= |ids| && DistinctMod(ids, q) && IsWeights(ids, w, q)
    requires forall i :: 0 <= i < |ids| ==> ids[i] in shares
    ensures Cong(Dot(w, SlotValues(shares, ids, p, k)), secret[p][k], q)
  {
    assert SlotSharing(shares, t, p, k, secret[p][k], q);
    var f :| |f| == t && SlotShares(shares, p, k, f, q) && Cong(Eval(f, 0), secret[p][k], q);
    Reconstruct(ids, w, SlotValues(shares, ids, p, k), f, q);
  }

  // ----- the pieces of the kernel --------------------------------------------------

  ghost function CoeffColumn(m: seq<seq<nat>>, k: nat): seq<int>
    requires forall d :: 0 <= d < |m| ==> k < |m[d]|
  {
    seq(|m|, d requires 0 <= d < |m| => m[d][k])
  }

  ghost function ScaleRow(row: seq<nat>, weight: int, q: nat): (r: seq<nat>)
    requires q > 0
    ensures |r| == |row| && forall k :: 0 <= k < |r| ==> r[k] < q
  {
    seq(|row|, k requires 0 <= k < |row| => (row[k] * weight) % q)
  }

  /** scaleShare. */
  method ScaleShare(share: Share, weight: int, q: nat) returns (out: Share)
    requires q > 0
    ensures |out| == |share| && forall p :: 0 <= p < |share| ==> out[p] == ScaleRow(share[p], weight, q)
  {
    out := [];
    for p := 0 to |share|
      invariant |out| == p && forall i :: 0 <= i < p ==> out[i] == ScaleRow(share[i], weight, q)
    {
      var row: seq<nat> := [];
      for k := 0 to |share[p]|
        invariant row == ScaleRow(share[p], weight, q)[..k]
      {
        row := row + [(share[p][k] * weight) % q];
      }
      assert row == ScaleRow(share[p], weight, q);
      out := out + [row];
    }
  }

  lemma HornerStep(acc: int, x: int, c: int, tail: int, q: int)
    requires q > 0 && Cong(acc, tail, q)
    ensures 0 <= (acc * x + c) % q < q && Cong((acc * x + c) % q, c + x * tail, q)
  {
    CongMod(acc * x + c, q);
    CongMul(acc, tail, x, x, q);
    CongAdd(acc * x, tail * x, c, c, q);
    assert tail * x == x * tail;
  }

  /** The inner Horner loop of evaluateAt, for coefficient k of one polynomial. */
  method HornerAt(m: seq<seq<nat>>, k: nat, x: int, q: nat, ghost N: nat) returns (acc: nat)
    requires q > 0 && |m| >= 1 && IsMatrix(m, |m|, N, q) && k < N
    ensures acc == Eval(CoeffColumn(m, k), x) % q
  {
    hide Cong;
    acc := m[|m| - 1][k];
    var d := |m| - 2;
    ghost var f := CoeffColumn(m, k);
    EvalLast(f, x);
    CongRefl(acc, q);
    while d >= 0
      invariant -1 <= d <= |m| - 2
      invariant acc < q && Cong(acc, Eval(f[d + 1..], x), q)
    {
      assert f[d..][1..] == f[d + 1..];
      HornerStep(acc, x, f[d], Eval(f[d + 1..], x), q);
      acc := (acc * x + m[d][k]) % q;
      d := d - 1;
    }
    assert f[0..] == f;
    ReducedValue(acc, Eval(f, x), q);
  }

  lemma EvalLast(f: seq<int>, x: int)
    requires |f| >= 1
    ensures Eval(f[|f| - 1..], x) == f[|f| - 1]
  {
    var t := f[|f| - 1..];
    assert t[1..] == [];
    assert Eval(t, x) == t[0] + x * Eval([], x);
  }

  lemma ReducedValue(acc: int, e: int, q: int)
    requires 0 <= acc < q && Cong(acc, e, q)
    ensures acc == e % q
  {
    CongMod(e, q);
    CongSmall(acc, e % q, q);
  }

  /** out is f_i(x), slot by slot. */
  ghost predicate Evaluated(out: Share, fi: Cube, x: int, nVec: nat, N: nat, t: nat, q: nat)
    requires q > 0 && IsCube(fi, nVec, t, N, q)
  {
    && Shape(out, nVec, N)
    && forall p, k :: 0 <= p < nVec && 0 <= k < N ==> out[p][k] == Eval(CoeffColumn(fi[p], k), x) % q
  }

  /** evaluateAt. */
  method EvaluateAt(fi: Cube, x: int, q: nat, nVec: nat, N: nat, t: nat) returns (out: Share)
    requires q > 0 && t >= 1 && IsCube(fi, nVec, t, N, q)
    ensures Evaluated(out, fi, x, nVec, N, t, q)
  {
    out := [];
    for p := 0 to nVec
      invariant Shape(out, p, N)
      invariant forall i, k :: 0 <= i < p && 0 <= k < N ==> out[i][k] == Eval(CoeffColumn(fi[i], k), x) % q
    {
      var row: seq<nat> := [];
      for k := 0 to N
        invariant |row| == k
        invariant forall l :: 0 <= l < k ==> row[l] == Eval(CoeffColumn(fi[p], l), x) % q
      {
        var v := HornerAt(fi[p], k, x, q, N);
        row := row + [v];
      }
      out := out + [row];
    }
  }

  /** Adding one contribution into an accumulated share. */
  method AddInto(cur: Share, contrib: Share, q: nat, nVec: nat, N: nat) returns (out: Share)
    requires q > 0 && Shape(cur, nVec, N) && Shape(contrib, nVec, N)
    ensures Shape(out, nVec, N)
    ensures forall p, k :: 0 <= p < nVec && 0 <= k < N ==> out[p][k] == (cur[p][k] + contrib[p][k]) % q
  {
    out := [];
    for p := 0 to nVec
      invariant Shape(out, p, N)
      invariant forall i, k :: 0 <= i < p && 0 <= k < N ==> out[i][k] == (cur[i][k] + contrib[i][k]) % q
    {
      var row: seq<nat> := [];
      for k := 0 to N
        invariant |row| == k
        invariant forall l :: 0 <= l < k ==> row[l] == (cur[p][l] + contrib[p][l]) % q
      {
        row := row + [(cur[p][k] + contrib[p][k]) % q];
      }
      out := out + [row];
    }
  }

  // ----- the polynomial behind the accumulated shares ------------------------------

  ghost predicate AreDealers(dealers: seq<Cube>, nVec: nat, t: nat, N: nat, q: nat) {
    forall i :: 0 <= i < |dealers| ==> IsCube(dealers[i], nVec, t, N, q)
  }

  /** The sum of the dealers' polynomials in slot (p, k). */
  ghost function SlotPoly(dealers: seq<Cube>, p: nat, k: nat, nVec: nat, t: nat, N: nat, q: nat): (f: seq<int>)
    requires AreDealers(dealers, nVec, t, N, q) && p < nVec && k < N
    ensures |f| == t
  {
    if dealers == [] then Zeros(t)
    else
      var n := |dealers| - 1;
      AddPoly(SlotPoly(dealers[..n], p, k, nVec, t, N, q), CoeffColumn(dealers[n][p], k))
  }

  /** The share is the value at x of the summed dealer polynomials, in every slot. */
  ghost predicate Accumulated(share: Share, dealers: seq<Cube>, x: int, nVec: nat, t: nat, N: nat, q: nat)
    requires q > 0 && AreDealers(dealers, nVec, t, N, q)
  {
    && Shape(share, nVec, N)
    && forall p, k :: 0 <= p < nVec && 0 <= k < N ==> share[p][k] == Eval(SlotPoly(dealers, p, k, nVec, t, N, q), x) % q
  }

  lemma AddMod(a: int, b: int, q: int)
    requires q > 0
    ensures (a % q + b % q) % q == (a + b) % q
  {
    CongMod(a, q);
    CongMod(b, q);
    CongAdd(a % q, a, b % q, b, q);
  }

  lemma AccumulateOne(cur: Share, contrib: Share, out: Share, dealers: seq<Cube>, fi: Cube, x: int,
                      nVec: nat, t: nat, N: nat, q: nat)
    requires q > 0 && AreDealers(dealers, nVec, t, N, q) && IsCube(fi, nVec, t, N, q)
    requires Accumulated(cur, dealers, x, nVec, t, N, q) && Evaluated(contrib, fi, x, nVec, N, t, q)
    requires Shape(out, nVec, N)
    requires forall p, k :: 0 <= p < nVec && 0 <= k < N ==> out[p][k] == (cur[p][k] + contrib[p][k]) % q
    ensures Accumulated(out, dealers + [fi], x, nVec, t, N, q)
  {
    var all := dealers + [fi];
    assert all[..|dealers|] == dealers;
    forall p, k | 0 <= p < nVec && 0 <= k < N
      ensures out[p][k] == Eval(SlotPoly(all, p, k, nVec, t, N, q), x) % q
    {
      var f, g := SlotPoly(dealers, p, k, nVec, t, N, q), CoeffColumn(fi[p], k);
      EvalAdd(f, g, x);
      AddMod(Eval(f, x), Eval(g, x), q);
    }
  }

  // ----- Reshare -------------------------------------------------------------------

  /** f_i: the scaled share as constant term, fresh coefficients above it. */
  ghost function WithConstant(c0: Share, draws: Cube): Cube
    requires |draws| == |c0|
  {
    seq(|c0|, p requires 0 <= p < |c0| => [c0[p]] + draws[p])
  }

  ghost function Scaled(share: Share, weight: int, q: nat): Share
    requires q > 0
  {
    seq(|share|, p requires 0 <= p < |share| => ScaleRow(share[p], weight, q))
  }

  ghost predicate Reduced(share: Share, q: nat) {
    forall p, k :: 0 <= p < |share| && 0 <= k < |share[p]| ==> share[p][k] < q
  }

  lemma WithConstantIsCube(c0: Share, draws: Cube, nVec: nat, t: nat, N: nat, q: nat)
    requires t >= 1 && Shape(c0, nVec, N) && Reduced(c0, q) && IsCube(draws, nVec, t - 1, N, q)
    ensures IsCube(WithConstant(c0, draws), nVec, t, N, q)
  {
    var c := WithConstant(c0, draws);
    forall p | 0 <= p < nVec ensures IsMatrix(c[p], t, N, q) {
      forall i | 0 <= i < t ensures |c[p][i]| == N && forall k :: 0 <= k < N ==> c[p][i][k] < q {
        if i > 0 {
          assert c[p][i] == draws[p][i - 1];
        }
      }
    }
  }

  /** Sampling one dealer's polynomial f_i on top of its constant term. */
  method DealerPolynomial(c0: Share, t: nat, rs: ByteReader, N: nat, q: nat) returns (r: Option<Cube>)
    requires q > 0 && t >= 1
    modifies rs
    ensures match DrawCube(rs.data, old(rs.pos), q, |c0|, t - 1, N)
            case None => r.None?
            case Some((draws, next)) => r == Some(WithConstant(c0, draws)) && rs.pos == next
  {
    hide DrawMatrix;
    var fi: Cube := [];
    ghost var draws: Cube := [];
    var p := 0;
    while p < |c0|
      invariant 0 <= p <= |c0| && |fi| == p
      invariant DrawCube(rs.data, old(rs.pos), q, p, t - 1, N) == Some((draws, rs.pos))
      invariant forall i :: 0 <= i < p ==> fi[i] == [c0[i]] + draws[i]
    {
      var rows := SampleMatrix(rs, q, t - 1, N);
      p := p + 1;
      if rows.None? {
        CubeFails(rs.data, old(rs.pos), q, p, |c0|, t - 1, N);
        return None;
      }
      draws := draws + [rows.value];
      fi := fi + [[c0[p - 1]] + rows.value];
    }
    assert fi == WithConstant(c0, draws);
    return Some(fi);
  }

  /** Every share in the table is the summed dealer polynomials at its party id. */
  ghost predicate AllAccumulated(shares: map<int, Share>, dealers: seq<Cube>, nVec: nat, t: nat, N: nat, q: nat)
    requires q > 0 && AreDealers(dealers, nVec, t, N, q)
  {
    forall j :: j in shares ==> Accumulated(shares[j], dealers, j, nVec, t, N, q)
  }

  /** Delivering f_i to every new party. */
  method Distribute(cur: map<int, Share>, newSet: seq<int>, fi: Cube, ghost dealers: seq<Cube>,
                    nVec: nat, t: nat, N: nat, q: nat) returns (out: map<int, Share>)
    requires q > 0 && t >= 1 && NoDuplicates(newSet) && cur.Keys == Elements(newSet)
    requires AreDealers(dealers, nVec, t, N, q) && IsCube(fi, nVec, t, N, q)
    requires AllAccumulated(cur, dealers, nVec, t, N, q)
    ensures out.Keys == cur.Keys
    ensures AllAccumulated(out, dealers + [fi], nVec, t, N, q)
  {
    out := cur;
    var n := 0;
    while n < |newSet|
      invariant 0 <= n <= |newSet| && out.Keys == cur.Keys
      invariant forall i :: 0 <= i < n ==> Accumulated(out[newSet[i]], dealers + [fi], newSet[i], nVec, t, N, q)
      invariant forall i :: n <= i < |newSet| ==> out[newSet[i]] == cur[newSet[i]]
    {
      var j := newSet[n];
      var contrib := EvaluateAt(fi, j, q, nVec, N, t);
      assert Accumulated(cur[j], dealers, j, nVec, t, N, q);
      var sum := AddInto(out[j], contrib, q, nVec, N);
      AccumulateOne(cur[j], contrib, sum, dealers, fi, j, nVec, t, N, q);
      out := out[j := sum];
      n := n + 1;
    }
    forall j | j in out ensures Accumulated(out[j], dealers + [fi], j, nVec, t, N, q) {
      assert j in newSet;
    }
  }

  /** Dealer i of the quorum: its polynomial is fixed by its share, weight and random draws. */
  ghost function Dealer(share: Share, weight: int, draws: Cube, q: nat): Cube
    requires q > 0 && |draws| == |share|
  {
    WithConstant(Scaled(share, weight, q), draws)
  }

  ghost predicate AreDealings(dealers: seq<Cube>, shares: map<int, Share>, ids: seq<int>, w: seq<int>, draws: seq<Cube>, q: nat)
    requires q > 0
  {
    |dealers| == |ids| == |w| == |draws| &&
    forall i :: 0 <= i < |ids| ==> ids[i] in shares && |draws[i]| == |shares[ids[i]]| && dealers[i] == Dealer(shares[ids[i]], w[i], draws[i], q)
  }

  method NewTable(newSet: seq<int>, nVec: nat, t: nat, N: nat, q: nat) returns (out: map<int, Share>)
    requires q > 0
    ensures out.Keys == Elements(newSet)
    ensures AllAccumulated(out, [], nVec, t, N, q)
  {
    out := map[];
    var n := 0;
    var zero: Share := seq(nVec, _ => seq(N, _ => 0));
    while n < |newSet|
      invariant 0 <= n <= |newSet| && out.Keys == Elements(newSet[..n])
      invariant forall j :: j in out ==> out[j] == zero
    {
      assert newSet[..n + 1] == newSet[..n] + [newSet[n]];
      out := out[newSet[n] := zero];
      n := n + 1;
    }
    assert newSet[..n] == newSet;
    forall j | j in out ensures Accumulated(out[j], [], j, nVec, t, N, q) {
      EvalZeros(t, j);
      ModUnique(0, 0, 0, q);
    }
  }

  lemma ScaledShape(share: Share, weight: int, nVec: nat, N: nat, q: nat)
    requires q > 0 && Shape(share, nVec, N)
    ensures Shape(Scaled(share, weight, q), nVec, N) && Reduced(Scaled(share, weight, q), q)
  {
    var c := Scaled(share, weight, q);
    forall p | 0 <= p < nVec ensures |c[p]| == N && forall k :: 0 <= k < N ==> c[p][k] < q {
      assert c[p] == ScaleRow(share[p], weight, q);
    }
  }

  /** One dealer: scale its share, draw its polynomial. */
  method DealOne(share: Share, weight: int, nVec: nat, t: nat, rs: ByteReader, N: nat, q: nat) returns (r: Option<Cube>)
    requires q > 0 && t >= 1 && Shape(share, nVec, N)
    modifies rs
    ensures match DrawCube(rs.data, old(rs.pos), q, nVec, t - 1, N)
            case None => r.None?
            case Some((draws, next)) => r == Some(Dealer(share, weight, draws, q)) && rs.pos == next && IsCube(r.value, nVec, t, N, q)
    ensures r.Some? ==> forall p, k :: 0 <= p < nVec && 0 <= k < N ==> r.value[p][0][k] == (share[p][k] * weight) % q
    ensures r.Some? ==>
              var draws := DrawCube(rs.data, old(rs.pos), q, nVec, t - 1, N).value.0;
              forall p :: 0 <= p < nVec ==> r.value[p][1..] == draws[p]
  {
    var c0 := ScaleShare(share, weight, q);
    assert c0 == Scaled(share, weight, q);
    ScaledShape(share, weight, nVec, N, q);
    r := DealerPolynomial(c0, t, rs, N, q);
    if r.Some? {
      ghost var draws := DrawCube(rs.data, old(rs.pos), q, nVec, t - 1, N).value.0;
      WithConstantIsCube(c0, draws, nVec, t, N, q);
      DealerCoefficients(share, weight, draws, nVec, t, N, q);
    }
  }

  /** The constant term is the weighted share; above it stand the drawn coefficients. */
  lemma DealerCoefficients(share: Share, weight: int, draws: Cube, nVec: nat, t: nat, N: nat, q: nat)
    requires q > 0 && t >= 1 && Shape(share, nVec, N) && IsCube(draws, nVec, t - 1, N, q)
    requires IsCube(Dealer(share, weight, draws, q), nVec, t, N, q)
    ensures var fi := Dealer(share, weight, draws, q);
            && (forall p, k :: 0 <= p < nVec && 0 <= k < N ==> fi[p][0][k] == (share[p][k] * weight) % q)
            && forall p :: 0 <= p < nVec ==> fi[p][1..] == draws[p]
  {
    var fi := Dealer(share, weight, draws, q);
    forall p, k | 0 <= p < nVec && 0 <= k < N ensures fi[p][0][k] == (share[p][k] * weight) % q {
      assert fi[p][0] == ScaleRow(share[p], weight, q);
    }
  }

  /** The first n dealers have been dealt. */
  ghost predicate DealtSoFar(dealers: seq<Cube>, shares: map<int, Share>, ids: seq<int>, weight: map<int, int>,
                             draws: seq<Cube>, n: nat, nVec: nat, t: nat, N: nat, q: nat)
    requires q > 0 && n <= |ids|
  {
    |dealers| == |draws| == n && AreDealers(dealers, nVec, t, N, q) &&
    forall i :: 0 <= i < n ==> ids[i] in shares && ids[i] in weight && |draws[i]| == |shares[ids[i]]| && dealers[i] == Dealer(shares[ids[i]], weight[ids[i]], draws[i], q)
  }

  lemma DealtSnoc(dealers: seq<Cube>, shares: map<int, Share>, ids: seq<int>, weight: map<int, int>,
                  draws: seq<Cube>, n: nat, fi: Cube, cube: Cube, nVec: nat, t: nat, N: nat, q: nat)
    requires q > 0 && n < |ids| && DealtSoFar(dealers, shares, ids, weight, draws, n, nVec, t, N, q)
    requires ids[n] in shares && ids[n] in weight && |cube| == |shares[ids[n]]|
    requires IsCube(fi, nVec, t, N, q) && fi == Dealer(shares[ids[n]], weight[ids[n]], cube, q)
    ensures DealtSoFar(dealers + [fi], shares, ids, weight, draws + [cube], n + 1, nVec, t, N, q)
  {
  }

  /** The resharing loop over the quorum: deal f_i, deliver it to every new party, add it in. */
  method Deal(shares: map<int, Share>, ids: seq<int>, weight: map<int, int>, newSet: seq<int>,
              nVec: nat, t: nat, rs: ByteReader, N: nat, q: nat)
    returns (r: Option<map<int, Share>>, ghost dealers: seq<Cube>, ghost draws: seq<Cube>)
    requires q > 0 && t >= 1 && NoDuplicates(newSet) && AllShaped(shares, nVec, N)
    requires forall i :: 0 <= i < |ids| ==> ids[i] in shares && ids[i] in weight
    modifies rs
    ensures r.Some? <==> DrawDealers(rs.data, old(rs.pos), q, |ids|, nVec, t - 1, N).Some?
    ensures r.Some? ==>
              && DrawDealers(rs.data, old(rs.pos), q, |ids|, nVec, t - 1, N) == Some((draws, rs.pos))
              && DealtSoFar(dealers, shares, ids, weight, draws, |ids|, nVec, t, N, q)
              && r.value.Keys == Elements(newSet)
              && AllAccumulated(r.value, dealers, nVec, t, N, q)
    ensures r.Some? ==> AreDealers(draws, nVec, t - 1, N, q) && CarryDraws(dealers, draws, nVec, t, N, q)
  {
    dealers, draws := [], [];
    var table := NewTable(newSet, nVec, t, N, q);
    var n := 0;
    while n < |ids|
      invariant 0 <= n <= |ids|
      invariant DrawDealers(rs.data, old(rs.pos), q, n, nVec, t - 1, N) == Some((draws, rs.pos))
      invariant DealtSoFar(dealers, shares, ids, weight, draws, n, nVec, t, N, q)
      invariant table.Keys == Elements(newSet)
      invariant AllAccumulated(table, dealers, nVec, t, N, q)
    {
      var i := ids[n];
      ghost var pos := rs.pos;
      assert Shape(shares[i], nVec, N);
      var fi := DealOne(shares[i], weight[i], nVec, t, rs, N, q);
      n := n + 1;
      if fi.None? {
        DealersFail(rs.data, old(rs.pos), q, n, |ids|, nVec, t - 1, N);
        return None, dealers, draws;
      }
      table := Distribute(table, newSet, fi.value, dealers, nVec, t, N, q);
      ghost var cube := DrawCube(rs.data, pos, q, nVec, t - 1, N).value.0;
      DealtSnoc(dealers, shares, ids, weight, draws, n - 1, fi.value, cube, nVec, t, N, q);
      draws, dealers := draws + [cube], dealers + [fi.value];
    }
    DealtCoefficients(dealers, shares, ids, weight, draws, nVec, t, N, q);
    return Some(table), dealers, draws;
  }

  /** Above its constant term, every dealer's polynomial is exactly what it drew. */
  ghost predicate CarryDraws(dealers: seq<Cube>, draws: seq<Cube>, nVec: nat, t: nat, N: nat, q: nat)
    requires t >= 1 && AreDealers(dealers, nVec, t, N, q) && AreDealers(draws, nVec, t - 1, N, q)
  {
    |dealers| == |draws| && forall i, p :: 0 <= i < |dealers| && 0 <= p < nVec ==> dealers[i][p][1..] == draws[i][p]
  }

  lemma DealtCoefficients(dealers: seq<Cube>, shares: map<int, Share>, ids: seq<int>, weight: map<int, int>,
                          draws: seq<Cube>, nVec: nat, t: nat, N: nat, q: nat)
    requires q > 0 && t >= 1 && DealtSoFar(dealers, shares, ids, weight, draws, |ids|, nVec, t, N, q)
    requires AllShaped(shares, nVec, N) && AreDealers(draws, nVec, t - 1, N, q)
    ensures CarryDraws(dealers, draws, nVec, t, N, q)
  {
    hide Dealer;
    forall i, p | 0 <= i < |ids| && 0 <= p < nVec ensures dealers[i][p][1..] == draws[i][p] {
      var id := ids[i];
      assert id in shares;
      assert Shape(shares[id], nVec, N);
      DealerCoefficients(shares[id], weight[id], draws[i], nVec, t, N, q);
    }
  }

  /** selectQuorum: the t smallest ids with their shares. */
  method SelectQuorum(shares: map<int, Share>, t: nat) returns (quorum: map<int, Share>)
    requires t <= |shares|
    ensures Enumerate(quorum.Keys) == Enumerate(shares.Keys)[..t]
    ensures quorum.Keys <= shares.Keys && forall i :: i in quorum ==> quorum[i] == shares[i]
  {
    hide Enumerate;
    var keys := SortedKeys(shares);
    quorum := map[];
    for n := 0 to t
      invariant quorum.Keys == Elements(keys[..n])
      invariant forall i :: i in quorum ==> i in shares && quorum[i] == shares[i]
    {
      PrefixElements(keys, n);
      var id := keys[n];
      assert id in shares;
      quorum := quorum[id := shares[id]];
    }
    PrefixCanonical(keys, t);
  }

  lemma PrefixCanonical(keys: seq<int>, t: nat)
    requires Ascending(keys) && t <= |keys|
    ensures Enumerate(Elements(keys[..t])) == keys[..t]
  {
    hide Enumerate;
    EnumerateCanonical(keys[..t]);
  }

  lemma PrefixElements(keys: seq<int>, n: nat)
    requires n < |keys|
    ensures keys[n] in Elements(keys) && Elements(keys[..n + 1]) == Elements(keys[..n]) + {keys[n]}
  {
    assert keys[..n + 1] == keys[..n] + [keys[n]];
  }

  // ----- the guards ----------------------------------------------------------------

  method CheckNewSet(newSet: seq<int>) returns (err: Option<Error>)
    ensures err.None? <==> 0 !in newSet && NoDuplicates(newSet)
  {
    var seen: set<int> := {};
    var n := 0;
    while n < |newSet|
      invariant 0 <= n <= |newSet| && seen == Elements(newSet[..n])
      invariant 0 !in newSet[..n] && NoDuplicates(newSet[..n])
    {
      if newSet[n] == 0 {
        return Some(ZeroPartyID);
      }
      assert newSet[..n + 1] == newSet[..n] + [newSet[n]];
      NoDuplicatesSnoc(newSet[..n], newSet[n]);
      if newSet[n] in seen {
        var i :| 0 <= i < n && newSet[..n][i] == newSet[n];
        assert newSet[i] == newSet[n];
        return Some(DuplicateNewID);
      }
      seen := seen + {newSet[n]};
      n := n + 1;
    }
    assert newSet[..n] == newSet;
    return None;
  }

  /** The vector dimension of a table of shares (that of its smallest id). */
  ghost function Dim(shares: map<int, Share>): nat {
    if shares.Keys == {} then 0
    else
      var ids := Enumerate(shares.Keys);
      assert ids[0] in Elements(ids);
      |shares[ids[0]]|
  }

  /** Nonzero ids and one common positive dimension. */
  ghost predicate Uniform(shares: map<int, Share>) {
    && 0 !in shares
    && Dim(shares) > 0
    && forall id :: id in shares ==> |shares[id]| == Dim(shares)
  }

  /** Go ranges over the map in an arbitrary order; whichever fault it meets first is returned. */
  method CheckShares(shares: map<int, Share>) returns (err: Option<Error>, nVec: nat)
    requires |shares| > 0
    ensures err.None? <==> Uniform(shares)
    ensures err.None? ==> nVec == Dim(shares)
    ensures err.Some? ==> err.value == ShareDimMismatch || err.value == ZeroPartyID
  {
    var keys := MapKeys(shares);
    assert keys[0] in Elements(keys);
    ghost var first := Enumerate(shares.Keys)[0];
    assert first in Elements(Enumerate(shares.Keys));
    nVec := |shares[keys[0]]|;
    if nVec == 0 {
      return Some(ShareDimMismatch), nVec;
    }
    var n := 0;
    while n < |keys|
      invariant 0 <= n <= |keys|
      invariant forall i :: 0 <= i < n ==> keys[i] != 0 && keys[i] in shares && |shares[keys[i]]| == nVec
    {
      assert keys[n] in Elements(keys);
      if |shares[keys[n]]| != nVec {
        return Some(ShareDimMismatch), nVec;
      }
      if keys[n] == 0 {
        return Some(ZeroPartyID), nVec;
      }
      n := n + 1;
    }
    forall id | id in shares ensures id != 0 && |shares[id]| == nVec {
      assert id in Elements(keys);
    }
    return None, nVec;
  }

  /** The arguments Reshare does not refuse. */
  ghost predicate Accepts(shares: map<int, Share>, tOld: int, newSet: seq<int>, tNew: int) {
    && 1 <= tOld <= |shares| && 1 <= tNew <= |newSet|
    && 0 !in newSet && NoDuplicates(newSet)
    && Uniform(shares)
  }

  /** The accepted arguments, spelled out: thresholds within their committees, new ids nonzero and distinct, old ids
      nonzero, one common positive vector dimension. */
  lemma AcceptsIff(shares: map<int, Share>, tOld: int, newSet: seq<int>, tNew: int)
    ensures Accepts(shares, tOld, newSet, tNew) <==>
            && 1 <= tOld <= |shares| && 1 <= tNew <= |newSet|
            && (forall i :: 0 <= i < |newSet| ==> newSet[i] != 0)
            && (forall i, j :: 0 <= i < |newSet| && 0 <= j < |newSet| && newSet[i] == newSet[j] ==> i == j)
            && (forall id :: id in shares ==> id != 0)
            && forall id, id' :: id in shares && id' in shares ==> |shares[id]| == |shares[id']| > 0
  {
    hide Uniform, NoDuplicates;
    if |shares| > 0 {
      UniformIff(shares);
    }
    DistinctIff(newSet);
    if 0 in newSet {
      var i :| 0 <= i < |newSet| && newSet[i] == 0;
    }
  }

  lemma DistinctIff(s: seq<int>)
    ensures NoDuplicates(s) <==> forall i, j :: 0 <= i < |s| && 0 <= j < |s| && s[i] == s[j] ==> i == j
  {
  }

  lemma UniformIff(shares: map<int, Share>)
    requires |shares| > 0
    ensures Uniform(shares) <==>
            && (forall id :: id in shares ==> id != 0)
            && forall id, id' :: id in shares && id' in shares ==> |shares[id]| == |shares[id']| > 0
  {
    hide Enumerate;
    var ids := Enumerate(shares.Keys);
    assert shares.Keys != {};
    assert ids[0] in Elements(ids);
    var first := ids[0];
    assert first in shares && Dim(shares) == |shares[first]|;
  }

  method CheckReshare(shares: map<int, Share>, tOld: int, newSet: seq<int>, tNew: int) returns (err: Option<Error>, nVec: nat)
    ensures err.None? <==> Accepts(shares, tOld, newSet, tNew)
    ensures err.None? ==> nVec == Dim(shares)
  {
    nVec := 0;
    if tOld < 1 {
      return Some(InvalidThresholdOld), nVec;
    }
    if tNew < 1 {
      return Some(InvalidThresholdNew), nVec;
    }
    if |shares| == 0 {
      return Some(EmptyOldShares), nVec;
    }
    if |newSet| == 0 {
      return Some(EmptyNewSet), nVec;
    }
    if tOld > |shares| {
      return Some(TOldShortfall), nVec;
    }
    if tNew > |newSet| {
      return Some(TNewExceedsNewSet), nVec;
    }
    err := CheckNewSet(newSet);
    if err.None? {
      err, nVec := CheckShares(shares);
    }
  }

  /** How a table arises from another by dealing from the tOld smallest ids: the quorum's
      Lagrange weights scale the constant terms, the random stream fills the rest. */
  ghost predicate ReshareStep(shares: map<int, Share>, tOld: nat, out: map<int, Share>, tNew: nat,
                              w: seq<int>, draws: seq<Cube>, dealers: seq<Cube>, N: nat, q: nat)
    requires q > 0
  {
    && 1 <= tOld <= |shares| && tNew >= 1
    && AllShaped(shares, Dim(shares), N)
    && var ids := Enumerate(shares.Keys)[..tOld];
    && DistinctMod(ids, q) && IsWeights(ids, w, q)
    && AreDealings(dealers, shares, ids, w, draws, q)
    && AreDealers(dealers, Dim(shares), tNew, N, q)
    && AllAccumulated(out, dealers, Dim(shares), tNew, N, q)
  }

  // ----- the invariance of the secret ----------------------------------------------

  /** At zero the summed dealer polynomials give the weighted sum of the old shares. */
  lemma {:induction false} DealtConstant(shares: map<int, Share>, ids: seq<int>, w: seq<int>, draws: seq<Cube>,
                                         dealers: seq<Cube>, p: nat, k: nat, nVec: nat, t: nat, N: nat, q: nat)
    requires q > 0 && t >= 1 && p < nVec && k < N && AllShaped(shares, nVec, N)
    requires AreDealings(dealers, shares, ids, w, draws, q) && AreDealers(dealers, nVec, t, N, q)
    ensures Cong(Eval(SlotPoly(dealers, p, k, nVec, t, N, q), 0), Dot(w, SlotValues(shares, ids, p, k)), q)
  {
    hide Cong, Eval, Dealer;
    if ids == [] {
      EvalZeros(t, 0);
      CongRefl(0, q);
    } else {
      var n := |ids| - 1;
      DealtConstant(shares, ids[..n], w[..n], draws[..n], dealers[..n], p, k, nVec, t, N, q);
      assert SlotValues(shares, ids, p, k)[..n] == SlotValues(shares, ids[..n], p, k);
      var f, g := SlotPoly(dealers[..n], p, k, nVec, t, N, q), CoeffColumn(dealers[n][p], k);
      EvalAdd(f, g, 0);
      var id := ids[n];
      assert id in shares;
      assert Shape(shares[id], nVec, N);
      assert IsCube(dealers[n], nVec, t, N, q);
      DealerConstant(shares[id], w[n], draws[n], p, k, nVec, t, N, q);
      CongAdd(Eval(f, 0), Dot(w[..n], SlotValues(shares, ids[..n], p, k)), Eval(g, 0), w[n] * shares[id][p][k], q);
    }
  }

  lemma DealerConstant(share: Share, weight: int, draws: Cube, p: nat, k: nat, nVec: nat, t: nat, N: nat, q: nat)
    requires q > 0 && t >= 1 && Shape(share, nVec, N) && |draws| == nVec && p < nVec && k < N
    requires IsCube(Dealer(share, weight, draws, q), nVec, t, N, q)
    ensures Cong(Eval(CoeffColumn(Dealer(share, weight, draws, q)[p], k), 0), weight * share[p][k], q)
  {
    var m := Dealer(share, weight, draws, q)[p];
    assert m[0] == ScaleRow(share[p], weight, q);
    var f := CoeffColumn(m, k);
    assert Eval(f, 0) == f[0] + 0 * Eval(f[1..], 0);
    CongMod(share[p][k] * weight, q);
    assert share[p][k] * weight == weight * share[p][k];
  }

  /** What party x is dealt in slot (p, k): over the quorum, the weighted old share plus the drawn coefficients times
      the powers of x. */
  ghost function DealtValue(shares: map<int, Share>, ids: seq<int>, w: seq<int>, draws: seq<Cube>, x: int,
                            p: nat, k: nat, nVec: nat, t: nat, N: nat, q: nat): int
    requires t >= 1 && p < nVec && k < N && AllShaped(shares, nVec, N) && AreDealers(draws, nVec, t - 1, N, q)
    requires |ids| == |w| == |draws| && forall i :: 0 <= i < |ids| ==> ids[i] in shares
  {
    Total(seq(|ids|, i requires 0 <= i < |ids| =>
      assert IsCube(draws[i], nVec, t - 1, N, q);
      var id := ids[i];
      assert id in shares;
      w[i] * shares[id][p][k] + Total(seq(t - 1, d requires 0 <= d < t - 1 => draws[i][p][d][k] * Pow(x, d + 1)))))
  }

  /** Every party of the table holds what it is dealt, reduced. */
  ghost predicate AreShares(out: map<int, Share>, shares: map<int, Share>, ids: seq<int>, w: seq<int>, draws: seq<Cube>,
                            nVec: nat, t: nat, N: nat, q: nat)
    requires q > 0 && t >= 1 && AllShaped(shares, nVec, N) && AreDealers(draws, nVec, t - 1, N, q)
    requires |ids| == |w| == |draws| && forall i :: 0 <= i < |ids| ==> ids[i] in shares
  {
    && AllShaped(out, nVec, N)
    && forall j, p, k :: j in out && 0 <= p < nVec && 0 <= k < N ==>
         out[j][p][k] == DealtValue(shares, ids, w, draws, j, p, k, nVec, t, N, q) % q
  }

  lemma DealerValue(share: Share, weight: int, draws: Cube, x: int, p: nat, k: nat, nVec: nat, t: nat, N: nat, q: nat)
    requires q > 0 && t >= 1 && Shape(share, nVec, N) && IsCube(draws, nVec, t - 1, N, q) && p < nVec && k < N
    requires IsCube(Dealer(share, weight, draws, q), nVec, t, N, q)
    ensures Cong(Eval(CoeffColumn(Dealer(share, weight, draws, q)[p], k), x),
                 weight * share[p][k] + Total(seq(t - 1, d requires 0 <= d < t - 1 => draws[p][d][k] * Pow(x, d + 1))), q)
  {
    hide Dealer, Eval, Total, Pow, Cong;
    DealerCoefficients(share, weight, draws, nVec, t, N, q);
    var f := CoeffColumn(Dealer(share, weight, draws, q)[p], k);
    var high := CoeffColumn(draws[p], k);
    assert f == [f[0]] + high by {
      assert Dealer(share, weight, draws, q)[p][1..] == draws[p];
    }
    ConstantAndPowers(f[0], high, x);
    var terms := seq(t - 1, d requires 0 <= d < t - 1 => draws[p][d][k] * Pow(x, d + 1));
    assert terms == seq(|high|, d requires 0 <= d < |high| => high[d] * Pow(x, d + 1));
    ScaledTerm(share[p][k], weight, Total(terms), q);
  }

  lemma ScaledTerm(s: int, weight: int, rest: int, q: int)
    requires q > 0
    ensures Cong((s * weight) % q + rest, weight * s + rest, q)
  {
    CongMod(s * weight, q);
    CongAdd((s * weight) % q, s * weight, rest, rest, q);
    assert s * weight == weight * s;
  }

  /** The summed dealer polynomials, term by term: no coefficient drawn from the stream is left out. */
  lemma {:induction false} DealtAt(shares: map<int, Share>, ids: seq<int>, w: seq<int>, draws: seq<Cube>, dealers: seq<Cube>,
                                   x: int, p: nat, k: nat, nVec: nat, t: nat, N: nat, q: nat)
    requires q > 0 && t >= 1 && p < nVec && k < N && AllShaped(shares, nVec, N)
    requires AreDealings(dealers, shares, ids, w, draws, q)
    requires AreDealers(dealers, nVec, t, N, q) && AreDealers(draws, nVec, t - 1, N, q)
    ensures Cong(Eval(SlotPoly(dealers, p, k, nVec, t, N, q), x), DealtValue(shares, ids, w, draws, x, p, k, nVec, t, N, q), q)
  {
    hide Cong, Eval, Dealer, Pow;
    if ids == [] {
      EvalZeros(t, x);
      CongRefl(0, q);
    } else {
      var n := |ids| - 1;
      DealtAt(shares, ids[..n], w[..n], draws[..n], dealers[..n], x, p, k, nVec, t, N, q);
      var f, g := SlotPoly(dealers[..n], p, k, nVec, t, N, q), CoeffColumn(dealers[n][p], k);
      EvalAdd(f, g, x);
      var id := ids[n];
      assert id in shares;
      assert IsCube(dealers[n], nVec, t, N, q) && IsCube(draws[n], nVec, t - 1, N, q);
      DealerValue(shares[id], w[n], draws[n], x, p, k, nVec, t, N, q);
      DealtValueLast(shares, ids, w, draws, x, p, k, nVec, t, N, q);
      CongAdd(Eval(f, x), DealtValue(shares, ids[..n], w[..n], draws[..n], x, p, k, nVec, t, N, q), Eval(g, x),
              w[n] * shares[id][p][k] + Total(seq(t - 1, d requires 0 <= d < t - 1 => draws[n][p][d][k] * Pow(x, d + 1))), q);
    }
  }

  lemma DealtValueLast(shares: map<int, Share>, ids: seq<int>, w: seq<int>, draws: seq<Cube>, x: int,
                       p: nat, k: nat, nVec: nat, t: nat, N: nat, q: nat)
    requires t >= 1 && p < nVec && k < N && AllShaped(shares, nVec, N) && AreDealers(draws, nVec, t - 1, N, q)
    requires |ids| == |w| == |draws| >= 1 && forall i :: 0 <= i < |ids| ==> ids[i] in shares
    ensures var n := |ids| - 1;
            assert IsCube(draws[n], nVec, t - 1, N, q);
            var id := ids[n];
            assert id in shares;
            DealtValue(shares, ids, w, draws, x, p, k, nVec, t, N, q) ==
            DealtValue(shares, ids[..n], w[..n], draws[..n], x, p, k, nVec, t, N, q) +
            (w[n] * shares[id][p][k] + Total(seq(t - 1, d requires 0 <= d < t - 1 => draws[n][p][d][k] * Pow(x, d + 1))))
  {
    hide Pow;
    var n := |ids| - 1;
    var terms := seq(|ids|, i requires 0 <= i < |ids| =>
      assert IsCube(draws[i], nVec, t - 1, N, q);
      var id := ids[i];
      assert id in shares;
      w[i] * shares[id][p][k] + Total(seq(t - 1, d requires 0 <= d < t - 1 => draws[i][p][d][k] * Pow(x, d + 1))));
    var low := seq(n, i requires 0 <= i < n =>
      assert IsCube(draws[i], nVec, t - 1, N, q);
      var id := ids[..n][i];
      assert id in shares;
      w[..n][i] * shares[id][p][k] + Total(seq(t - 1, d requires 0 <= d < t - 1 => draws[..n][i][p][d][k] * Pow(x, d + 1))));
    forall i | 0 <= i < n ensures terms[..n][i] == low[i] {
      assert IsCube(draws[i], nVec, t - 1, N, q);
      assert seq(t - 1, d requires 0 <= d < t - 1 => draws[i][p][d][k] * Pow(x, d + 1)) ==
             seq(t - 1, d requires 0 <= d < t - 1 => draws[..n][i][p][d][k] * Pow(x, d + 1));
    }
    assert terms[..n] == low;
  }

  /** Every new share is what DealtValue says, reduced. */
  lemma NewShareValue(shares: map<int, Share>, tOld: nat, out: map<int, Share>, tNew: nat, w: seq<int>, draws: seq<Cube>,
                      dealers: seq<Cube>, j: int, p: nat, k: nat, N: nat, q: nat)
    requires q > 0 && ReshareStep(shares, tOld, out, tNew, w, draws, dealers, N, q) && AreDealers(draws, Dim(shares), tNew - 1, N, q)
    requires j in out && p < Dim(shares) && k < N
    ensures p < |out[j]| && k < |out[j][p]|
    ensures out[j][p][k] == DealtValue(shares, Enumerate(shares.Keys)[..tOld], w, draws, j, p, k, Dim(shares), tNew, N, q) % q
  {
    hide Cong, Eval, IsWeights, DistinctMod, DealtValue, SlotPoly, Dealer, IsCube, Enumerate, Dim;
    var nVec, ids := Dim(shares), Enumerate(shares.Keys)[..tOld];
    DealtAt(shares, ids, w, draws, dealers, j, p, k, nVec, tNew, N, q);
    assert Accumulated(out[j], dealers, j, nVec, tNew, N, q);
    SameResidue(Eval(SlotPoly(dealers, p, k, nVec, tNew, N, q), j), DealtValue(shares, ids, w, draws, j, p, k, nVec, tNew, N, q), q);
  }

  lemma SameResidue(a: int, b: int, q: int)
    requires q > 0 && Cong(a, b, q)
    ensures a % q == b % q
  {
  }

  /** Reshare keeps the secret: whatever the old shares were a sharing of, the new shares are a
      sharing of it, with polynomials of degree below tNew. */
  lemma ReshareKeepsSecret(shares: map<int, Share>, tOld: nat, out: map<int, Share>, tNew: nat, secret: Share,
                           w: seq<int>, draws: seq<Cube>, dealers: seq<Cube>, N: nat, q: nat)
    requires Prime(q) && ReshareStep(shares, tOld, out, tNew, w, draws, dealers, N, q)
    requires IsSharing(shares, tOld, secret, Dim(shares), N, q)
    ensures IsSharing(out, tNew, secret, Dim(shares), N, q)
  {
    var nVec := Dim(shares);
    var ids := Enumerate(shares.Keys)[..tOld];
    forall id | id in out ensures Shape(out[id], nVec, N) {
      assert Accumulated(out[id], dealers, id, nVec, tNew, N, q);
    }
    forall p, k | 0 <= p < nVec && 0 <= k < N ensures SlotSharing(out, tNew, p, k, secret[p][k], q) {
      var f := SlotPoly(dealers, p, k, nVec, tNew, N, q);
      forall id | id in out ensures Cong(out[id][p][k], Eval(f, id), q) {
        assert Accumulated(out[id], dealers, id, nVec, tNew, N, q);
        CongMod(Eval(f, id), q);
      }
      DealtConstant(shares, ids, w, draws, dealers, p, k, nVec, tNew, N, q);
      AnySubsetReconstructs(shares, tOld, secret, nVec, N, q, ids, w, p, k);
      assert SlotShares(out, p, k, f, q) && Cong(Eval(f, 0), secret[p][k], q);
    }
  }

  /** Reshare. It refuses exactly the arguments outside Accepts and panics exactly when two of the
      tOld smallest ids collide modulo q or the random stream runs dry; otherwise the new table is
      dealt as ReshareStep says and shares the same secret. */
  method Reshare(shares: map<int, Share>, tOld: int, newSet: seq<int>, tNew: int, rs: ByteReader, N: nat, q: nat)
    returns (r: Outcome<map<int, Share>>, ghost w: seq<int>, ghost draws: seq<Cube>, ghost dealers: seq<Cube>)
    requires Prime(q)
    requires forall id, p :: id in shares && 0 <= p < |shares[id]| ==> |shares[id][p]| == N
    modifies rs
    ensures r.Err? <==> !Accepts(shares, tOld, newSet, tNew)
    ensures Accepts(shares, tOld, newSet, tNew) ==>
              (r.Panic? <==> || !DistinctMod(Enumerate(shares.Keys)[..tOld], q)
                             || DrawDealers(rs.data, old(rs.pos), q, tOld, Dim(shares), tNew - 1, N).None?)
    ensures r.Ok? ==>
              && r.value.Keys == Elements(newSet)
              && DrawDealers(rs.data, old(rs.pos), q, tOld, Dim(shares), tNew - 1, N) == Some((draws, rs.pos))
              && ReshareStep(shares, tOld, r.value, tNew, w, draws, dealers, N, q)
    ensures r.Ok? ==> AreDealers(draws, Dim(shares), tNew - 1, N, q)
    ensures r.Ok? ==> CarryDraws(dealers, draws, Dim(shares), tNew, N, q)
    ensures r.Ok? ==> AreShares(r.value, shares, Enumerate(shares.Keys)[..tOld], w, draws, Dim(shares), tNew, N, q)
    ensures r.Ok? ==> forall secret :: IsSharing(shares, tOld, secret, Dim(shares), N, q)
                                   ==> IsSharing(r.value, tNew, secret, Dim(shares), N, q)
  {
    hide AreShares, IsSharing, DrawDealers, AllAccumulated, Prime, IsWeights, NoDuplicates, Dealer, Enumerate, DistinctMod, IsWeights, AreDealings, DealtSoFar, IsMatrix;
    w, draws, dealers := [], [], [];
    var err, nVec := CheckReshare(shares, tOld, newSet, tNew);
    if err.Some? {
      return Err(err.value), w, draws, dealers;
    }
    var quorum := SelectQuorum(shares, tOld);
    var weight := LagrangeAtZero(quorum, q);
    if weight.None? {
      return Panic, w, draws, dealers;
    }
    var ids := SortedKeys(quorum);
    assert forall i :: 0 <= i < |ids| ==> ids[i] in Elements(ids);
    var table;
    table, dealers, draws := Deal(shares, ids, weight.value, newSet, nVec, tNew, rs, N, q);
    if table.None? {
      return Panic, w, draws, dealers;
    }
    w := WeightsOf(weight.value, ids);
    r := Ok(table.value);
    StepAssembled(shares, tOld, r.value, tNew, weight.value, draws, dealers, N, q);
    ReshareKeepsEverySecret(shares, tOld, r.value, tNew, w, draws, dealers, N, q);
    NewShareValues(shares, tOld, r.value, tNew, w, draws, dealers, N, q);
  }

  lemma NewShareValues(shares: map<int, Share>, tOld: nat, out: map<int, Share>, tNew: nat, w: seq<int>,
                       draws: seq<Cube>, dealers: seq<Cube>, N: nat, q: nat)
    requires q > 0 && ReshareStep(shares, tOld, out, tNew, w, draws, dealers, N, q) && AreDealers(draws, Dim(shares), tNew - 1, N, q)
    ensures AreShares(out, shares, Enumerate(shares.Keys)[..tOld], w, draws, Dim(shares), tNew, N, q)
  {
    hide DealtValue, IsCube, IsWeights, DistinctMod, Enumerate, Dim, Dealer;
    forall j | j in out ensures Shape(out[j], Dim(shares), N) {
      assert Accumulated(out[j], dealers, j, Dim(shares), tNew, N, q);
    }
    forall j, p, k | j in out && 0 <= p < Dim(shares) && 0 <= k < N
      ensures out[j][p][k] == DealtValue(shares, Enumerate(shares.Keys)[..tOld], w, draws, j, p, k, Dim(shares), tNew, N, q) % q
    {
      NewShareValue(shares, tOld, out, tNew, w, draws, dealers, j, p, k, N, q);
    }
  }

  ghost predicate Assembled(shares: map<int, Share>, ids: seq<int>, out: map<int, Share>, tNew: nat, weight: map<int, int>,
                            draws: seq<Cube>, dealers: seq<Cube>, N: nat, q: nat)
    requires q > 0
  {
    && DistinctMod(ids, q)
    && DealtSoFar(dealers, shares, ids, weight, draws, |ids|, Dim(shares), tNew, N, q)
    && IsWeights(ids, WeightsOf(weight, ids), q)
    && AllAccumulated(out, dealers, Dim(shares), tNew, N, q)
  }

  lemma StepAssembled(shares: map<int, Share>, tOld: nat, out: map<int, Share>, tNew: nat, weight: map<int, int>,
                      draws: seq<Cube>, dealers: seq<Cube>, N: nat, q: nat)
    requires q > 0 && 1 <= tOld <= |shares| && tNew >= 1 && AllShaped(shares, Dim(shares), N)
    requires Assembled(shares, Enumerate(shares.Keys)[..tOld], out, tNew, weight, draws, dealers, N, q)
    ensures ReshareStep(shares, tOld, out, tNew, WeightsOf(weight, Enumerate(shares.Keys)[..tOld]), draws, dealers, N, q)
  {
    var ids := Enumerate(shares.Keys)[..tOld];
    assert AreDealings(dealers, shares, ids, WeightsOf(weight, ids), draws, q);
  }

  lemma ReshareKeepsEverySecret(shares: map<int, Share>, tOld: nat, out: map<int, Share>, tNew: nat,
                                w: seq<int>, draws: seq<Cube>, dealers: seq<Cube>, N: nat, q: nat)
    requires Prime(q) && ReshareStep(shares, tOld, out, tNew, w, draws, dealers, N, q)
    ensures forall secret :: IsSharing(shares, tOld, secret, Dim(shares), N, q)
                         ==> IsSharing(out, tNew, secret, Dim(shares), N, q)
  {
    forall secret | IsSharing(shares, tOld, secret, Dim(shares), N, q)
      ensures IsSharing(out, tNew, secret, Dim(shares), N, q)
    {
      ReshareKeepsSecret(shares, tOld, out, tNew, secret, w, draws, dealers, N, q);
    }
  }
}
