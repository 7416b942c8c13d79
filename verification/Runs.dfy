/** Reconstruction of the secret, and its invariance over whole runs of the kernel. */
module Runs {
  import opened Zq
  import opened Polynomials
  import opened Sorting
  import opened Randomness
  import opened Lagrange
  import opened Reshare
  import opened Refresh

  /** The weighted sum of one slot over the quorum. */
  method SumSlot(quorum: map<int, Share>, ids: seq<int>, weight: map<int, int>, p: nat, k: nat, q: nat) returns (v: nat)
    requires q > 0 && HasSlot(quorum, p, k)
    requires forall i :: 0 <= i < |ids| ==> ids[i] in quorum && ids[i] in weight
    ensures v == Dot(WeightsOf(weight, ids), SlotValues(quorum, ids, p, k)) % q
  {
    var acc := 0;
    ghost var w, ys := WeightsOf(weight, ids), SlotValues(quorum, ids, p, k);
    for n := 0 to |ids|
      invariant acc == Dot(w[..n], ys[..n])
    {
      assert w[..n + 1][..n] == w[..n] && ys[..n + 1][..n] == ys[..n];
      var id := ids[n];
      assert id in quorum;
      acc := acc + weight[id] * quorum[id][p][k];
    }
    assert w[..|ids|] == w && ys[..|ids|] == ys;
    v := acc % q;
    CongMod(acc, q);
  }

  ghost predicate Recovered(out: Share, shares: map<int, Share>, ids: seq<int>, w: seq<int>, nVec: nat, N: nat, q: nat)
    requires q > 0 && |w| == |ids| && AllShaped(shares, nVec, N)
    requires forall i :: 0 <= i < |ids| ==> ids[i] in shares
  {
    && Shape(out, nVec, N)
    && forall p, k :: 0 <= p < nVec && 0 <= k < N ==> out[p][k] == Dot(w, SlotValues(shares, ids, p, k)) % q
  }

  method RecoverAll(quorum: map<int, Share>, ids: seq<int>, weight: map<int, int>, nVec: nat, N: nat, q: nat) returns (out: Share)
    requires q > 0 && AllShaped(quorum, nVec, N)
    requires forall i :: 0 <= i < |ids| ==> ids[i] in quorum && ids[i] in weight
    ensures Recovered(out, quorum, ids, WeightsOf(weight, ids), nVec, N, q)
  {
    out := [];
    for p := 0 to nVec
      invariant Shape(out, p, N)
      invariant forall i, k :: 0 <= i < p && 0 <= k < N ==>
                  out[i][k] == Dot(WeightsOf(weight, ids), SlotValues(quorum, ids, i, k)) % q
    {
      var row: seq<nat> := [];
      for k := 0 to N
        invariant |row| == k
        invariant forall l :: 0 <= l < k ==> row[l] == Dot(WeightsOf(weight, ids), SlotValues(quorum, ids, p, l)) % q
      {
        var v := SumSlot(quorum, ids, weight, p, k, q);
        row := row + [v];
      }
      out := out + [row];
    }
  }

  lemma QuorumSharing(shares: map<int, Share>, quorum: map<int, Share>, t: nat, secret: Share, nVec: nat, N: nat, q: nat)
    requires q > 0 && IsSharing(shares, t, secret, nVec, N, q)
    requires quorum.Keys <= shares.Keys && forall i :: i in quorum ==> quorum[i] == shares[i]
    ensures IsSharing(quorum, t, secret, nVec, N, q)
  {
    assert AllShaped(quorum, nVec, N);
    forall p, k | 0 <= p < nVec && 0 <= k < N ensures SlotSharing(quorum, t, p, k, secret[p][k], q) {
      assert SlotSharing(shares, t, p, k, secret[p][k], q);
      var f :| |f| == t && SlotShares(shares, p, k, f, q) && Cong(Eval(f, 0), secret[p][k], q);
      assert SlotShares(quorum, p, k, f, q);
    }
  }

  lemma RecoveredSecret(out: Share, quorum: map<int, Share>, ids: seq<int>, w: seq<int>, t: nat, secret: Share, nVec: nat, N: nat, q: nat)
    requires Prime(q) && IsSharing(quorum, t, secret, nVec, N, q)
    requires forall i :: 0 <= i < |ids| ==> ids[i] in quorum
    requires t <= |ids| && DistinctMod(ids, q) && IsWeights(ids, w, q)
    requires Recovered(out, quorum, ids, w, nVec, N, q)
    ensures forall p, k :: 0 <= p < nVec && 0 <= k < N ==> out[p][k] == secret[p][k] % q
  {
    forall p, k | 0 <= p < nVec && 0 <= k < N ensures out[p][k] == secret[p][k] % q {
      AnySubsetReconstructs(quorum, t, secret, nVec, N, q, ids, w, p, k);
    }
  }

  /** Verify of the kernel: interpolation over the t smallest ids. It recovers whatever secret the table shares;
      a threshold below one leaves an empty quorum and an empty vector. */
  method VerifyShares(shares: map<int, Share>, t: int, nVec: nat, N: nat, q: nat) returns (r: Outcome<Share>)
    requires Prime(q) && AllShaped(shares, nVec, N)
    ensures r.Err? <==> t > |shares|
    ensures r.Panic? <==> 1 <= t <= |shares| && !DistinctMod(Enumerate(shares.Keys)[..t], q)
    ensures r.Ok? && t < 1 ==> r.value == []
    ensures r.Ok? && t >= 1 ==>
              forall secret :: IsSharing(shares, t, secret, nVec, N, q) ==>
                Shape(r.value, nVec, N) &&
                forall p, k :: 0 <= p < nVec && 0 <= k < N ==> r.value[p][k] == secret[p][k] % q
  {
    if t > |shares| {
      return Err(TOldShortfall);
    }
    if t < 1 {
      return Ok([]);
    }
    var quorum := SelectQuorum(shares, t);
    var weight := LagrangeAtZero(quorum, q);
    if weight.None? {
      return Panic;
    }
    var ids := SortedKeys(quorum);
    assert forall i :: 0 <= i < |ids| ==> ids[i] in Elements(ids);
    var out := RecoverAll(quorum, ids, weight.value, nVec, N, q);
    forall secret | IsSharing(shares, t, secret, nVec, N, q)
      ensures forall p, k :: 0 <= p < nVec && 0 <= k < N ==> out[p][k] == secret[p][k] % q
    {
      QuorumSharing(shares, quorum, t, secret, nVec, N, q);
      RecoveredSecret(out, quorum, ids, WeightsOf(weight.value, ids), t, secret, nVec, N, q);
    }
    return Ok(out);
  }

  // ----- runs ----------------------------------------------------------------------

  datatype Table = Table(shares: map<int, Share>, t: nat)

  ghost predicate IsReshare(a: Table, b: Table, N: nat, q: nat)
    requires q > 0
  {
    exists w, draws, dealers :: ReshareStep(a.shares, a.t, b.shares, b.t, w, draws, dealers, N, q)
  }

  ghost predicate IsRefresh(a: Table, b: Table, N: nat, q: nat)
    requires q > 0
  {
    a.t == b.t && (a.shares == b.shares || exists draws :: RefreshStep(a.shares, b.shares, a.t, draws, N, q))
  }

  /** One successful call of the kernel: Reshare to any committee and threshold, or Refresh. */
  ghost predicate KernelStep(a: Table, b: Table, N: nat, q: nat)
    requires q > 0
  {
    1 <= a.t <= |a.shares| && (IsReshare(a, b, N, q) || IsRefresh(a, b, N, q))
  }

  ghost predicate IsRun(run: seq<Table>, N: nat, q: nat)
    requires q > 0
  {
    forall i :: 0 <= i < |run| - 1 ==> KernelStep(run[i], run[i + 1], N, q)
  }

  lemma DimOfShaped(shares: map<int, Share>, nVec: nat, N: nat)
    requires |shares| > 0 && AllShaped(shares, nVec, N)
    ensures Dim(shares) == nVec
  {
    var ids := Enumerate(shares.Keys);
    assert ids[0] in Elements(ids);
  }

  lemma StepKeepsSecret(a: Table, b: Table, secret: Share, nVec: nat, N: nat, q: nat)
    requires Prime(q) && KernelStep(a, b, N, q) && IsSharing(a.shares, a.t, secret, nVec, N, q)
    ensures IsSharing(b.shares, b.t, secret, nVec, N, q)
  {
    DimOfShaped(a.shares, nVec, N);
    if IsReshare(a, b, N, q) {
      var w, draws, dealers :| ReshareStep(a.shares, a.t, b.shares, b.t, w, draws, dealers, N, q);
      ReshareKeepsSecret(a.shares, a.t, b.shares, b.t, secret, w, draws, dealers, N, q);
    } else if a.shares != b.shares {
      var draws :| RefreshStep(a.shares, b.shares, a.t, draws, N, q);
      RefreshKeepsSecret(a.shares, b.shares, a.t, secret, draws, N, q);
    }
  }

  /** Over every finite run of Reshare and Refresh, with any sequence of committees and thresholds,
      every table is a sharing of the secret the first one shared. */
  lemma {:induction false} RunKeepsSecret(run: seq<Table>, n: nat, secret: Share, nVec: nat, N: nat, q: nat)
    requires Prime(q) && IsRun(run, N, q) && n < |run|
    requires IsSharing(run[0].shares, run[0].t, secret, nVec, N, q)
    ensures IsSharing(run[n].shares, run[n].t, secret, nVec, N, q)
  {
    if n > 0 {
      RunKeepsSecret(run, n - 1, secret, nVec, N, q);
      assert KernelStep(run[n - 1], run[n - 1 + 1], N, q);
      StepKeepsSecret(run[n - 1], run[n], secret, nVec, N, q);
    }
  }

  /** Two committees anywhere in one run reconstruct the same value, whichever quorums they use. */
  lemma RunAgrees(run: seq<Table>, m: nat, n: nat, ids: seq<int>, w: seq<int>, ids': seq<int>, w': seq<int>,
                  secret: Share, p: nat, k: nat, nVec: nat, N: nat, q: nat)
    requires Prime(q) && IsRun(run, N, q) && m < |run| && n < |run| && p < nVec && k < N
    requires IsSharing(run[0].shares, run[0].t, secret, nVec, N, q)
    requires AllShaped(run[m].shares, nVec, N) && AllShaped(run[n].shares, nVec, N)
    requires run[m].t <= |ids| && DistinctMod(ids, q) && IsWeights(ids, w, q)
    requires forall i :: 0 <= i < |ids| ==> ids[i] in run[m].shares
    requires run[n].t <= |ids'| && DistinctMod(ids', q) && IsWeights(ids', w', q)
    requires forall i :: 0 <= i < |ids'| ==> ids'[i] in run[n].shares
    ensures Cong(Dot(w, SlotValues(run[m].shares, ids, p, k)), Dot(w', SlotValues(run[n].shares, ids', p, k)), q)
  {
    RunKeepsSecret(run, m, secret, nVec, N, q);
    RunKeepsSecret(run, n, secret, nVec, N, q);
    AnySubsetReconstructs(run[m].shares, run[m].t, secret, nVec, N, q, ids, w, p, k);
    AnySubsetReconstructs(run[n].shares, run[n].t, secret, nVec, N, q, ids', w', p, k);
  }
}
