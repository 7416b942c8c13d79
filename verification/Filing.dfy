/** The exact price of filing key shares by validator name, stated of the era's own share state. */
module Filing {
  import opened Zq
  import opened Polynomials
  import opened Sorting
  import opened Rq
  import opened Transform
  import opened SignAlgebra
  import opened Reshare
  import opened Era
  import opened Naming
  import opened Lifecycle

  /** Whatever table was dealt and installed under these names, the state's shares share its secret. */
  ghost predicate InstallSafe(p: Params, names: seq<string>, t: nat) {
    forall s: EpochState, out: map<int, Share>, w: seq<int>, gk: GroupKey, secret: Share ::
      s.validators == names && Installed(p, s, out, w, gk) && AllReduced(out, p.N, p.r.n, p.r.q)
      && IsSharing(out, t, secret, p.N, p.r.n, p.r.q)
      ==> StateShares(p, s, t, secret)
  }

  ghost predicate StateShares(p: Params, s: EpochState, t: nat, secret: Share) {
    Complete(s) && IsSharing(TableOf(p, s), t, secret, p.N, p.r.n, p.r.q)
  }

  /** Position i holds the share dealt to the last position of its name. */
  ghost predicate ReadsLast(p: Params, s: EpochState, out: map<int, Share>, i: nat)
    requires Complete(s) && i < |s.validators|
  {
    var last := LastOf(s.validators, i) + 1;
    last in out && ShareAtPoint(p, s, i + 1) == out[last]
  }

  /** The state reads back, at position i, the share dealt to the last position of its name. */
  lemma InstalledReads(p: Params, s: EpochState, out: map<int, Share>, w: seq<int>, gk: GroupKey)
    requires IsTransform(p.r, p.t) && Installed(p, s, out, w, gk) && AllReduced(out, p.N, p.r.n, p.r.q)
    ensures Complete(s)
    ensures forall i :: 0 <= i < |s.validators| ==> ReadsLast(p, s, out, i)
  {
    hide IsTransform, AllReduced, PartOk, LastOf, Standardized, Filed;
    var names := s.validators;
    var parts: seq<KeyShare> :| |parts| == |names| && Filed(names, parts, s.shares) && PartsOk(p, parts, out, w, gk);
    forall i | 0 <= i < |names| ensures names[i] in s.shares {
      FiledLast(names, parts, s.shares, i);
    }
    forall i | 0 <= i < |names| ensures ReadsLast(p, s, out, i) {
      ReadOne(p, s, parts, out, w, gk, i);
    }
  }

  lemma ReadOne(p: Params, s: EpochState, parts: seq<KeyShare>, out: map<int, Share>, w: seq<int>, gk: GroupKey, i: nat)
    requires IsTransform(p.r, p.t) && Complete(s) && |parts| == |s.validators| && i < |parts| && Filed(s.validators, parts, s.shares)
    requires PartsOk(p, parts, out, w, gk) && AllReduced(out, p.N, p.r.n, p.r.q)
    ensures ReadsLast(p, s, out, i)
  {
    hide IsTransform, AllReduced, PartOk, LastOf, Standardized, Filed;
    FiledLast(s.validators, parts, s.shares, i);
    var j := LastOf(s.validators, i);
    assert PartOk(p, parts[j], j, out, w, gk);
    PartPresent(p, parts[j], j, out, w, gk);
    PartRecord(p, parts[j], j, out, w, gk);
  }

  lemma PartPresent(p: Params, ks: KeyShare, i: nat, out: map<int, Share>, w: seq<int>, gk: GroupKey)
    requires PartOk(p, ks, i, out, w, gk)
    ensures i < |w| && i + 1 in out
  {
    hide VApply, Const;
  }

  // ----- distinct names or threshold one -------------------------------------------

  lemma SafeSlot(p: Params, s: EpochState, out: map<int, Share>, t: nat, v: nat, k: nat, x: int)
    requires Complete(s) && 1 <= t && (NoDuplicates(s.validators) || t == 1) && v < p.N && k < p.r.n
    requires AllShaped(out, p.N, p.r.n) && AllShaped(TableOf(p, s), p.N, p.r.n)
    requires forall i :: 0 <= i < |s.validators| ==> ReadsLast(p, s, out, i)
    requires SlotSharing(out, t, v, k, x, p.r.q)
    ensures SlotSharing(TableOf(p, s), t, v, k, x, p.r.q)
  {
    hide Cong, Eval, LastOf, ReadsAs, ShareAtPoint;
    var table, q := TableOf(p, s), p.r.q;
    var f :| |f| == t && SlotShares(out, v, k, f, q) && Cong(Eval(f, 0), x, q);
    ReadsOwn(s.validators, t, f, q);
    forall j | j in table ensures Cong(table[j][v][k], Eval(f, j), q) {
      var i := j - 1;
      var last := LastOf(s.validators, i) + 1;
      ReadsHere(s.validators, t, f, i, q);
      assert ReadsLast(p, s, out, i) && table[j] == ShareAtPoint(p, s, j);
      CongSwap(out[last][v][k], Eval(f, last), Eval(f, j), q);
    }
    assert SlotShares(table, v, k, f, q);
  }

  lemma ReadsHere(names: seq<string>, t: nat, f: seq<int>, i: nat, q: int)
    requires q > 0 && i < |names| && ReadsAs(names, t, f, f, q)
    ensures Cong(Eval(f, i + 1), Eval(f, LastOf(names, i) + 1), q)
  {
    hide Cong, Eval, LastOf;
    assert ReadsAt(names, f, f, i, q);
  }

  lemma SafeState(p: Params, s: EpochState, out: map<int, Share>, w: seq<int>, gk: GroupKey, t: nat, secret: Share)
    requires IsTransform(p.r, p.t) && 1 <= t && (NoDuplicates(s.validators) || t == 1)
    requires Installed(p, s, out, w, gk) && AllReduced(out, p.N, p.r.n, p.r.q) && IsSharing(out, t, secret, p.N, p.r.n, p.r.q)
    ensures StateShares(p, s, t, secret)
  {
    hide IsTransform, Installed, LastOf, SlotSharing, Standardized;
    InstalledReads(p, s, out, w, gk);
    var table := TableOf(p, s);
    forall j | j in table ensures Shape(table[j], p.N, p.r.n) {
      var i := j - 1;
      assert ReadsLast(p, s, out, i);
    }
    forall v, k | 0 <= v < p.N && 0 <= k < p.r.n ensures SlotSharing(table, t, v, k, secret[v][k], p.r.q) {
      SafeSlot(p, s, out, t, v, k, secret[v][k]);
    }
  }

  // ----- a repeated name -----------------------------------------------------------

  /** A share that is x in slot (0, 0) and zero elsewhere. */
  ghost function OneSlot(x: nat, N: nat, n: nat): (share: Share)
    ensures Shape(share, N, n)
    ensures forall v, k :: 0 <= v < N && 0 <= k < n ==> share[v][k] == if v == 0 && k == 0 then x else 0
  {
    seq(N, v => seq(n, k => if v == 0 && k == 0 then x else 0))
  }

  /** The values of f in slot (0, 0), at 1, ..., m. */
  ghost function SlotTable(f: seq<int>, m: nat, N: nat, n: nat, q: nat): (out: map<int, Share>)
    requires q > 0
    ensures forall j :: j in out <==> 1 <= j <= m
    ensures forall j :: j in out ==> out[j] == OneSlot(Eval(f, j) % q, N, n)
  {
    map j | 1 <= j <= m :: OneSlot(Eval(f, j) % q, N, n)
  }

  lemma SlotTableShares(f: seq<int>, m: nat, t: nat, N: nat, n: nat, q: nat)
    requires q > 0 && |f| == t >= 1
    ensures AllReduced(SlotTable(f, m, N, n, q), N, n, q)
    ensures IsSharing(SlotTable(f, m, N, n, q), t, OneSlot(Eval(f, 0) % q, N, n), N, n, q)
  {
    hide Cong, Eval;
    var out, secret := SlotTable(f, m, N, n, q), OneSlot(Eval(f, 0) % q, N, n);
    assert AllShaped(out, N, n);
    forall v, k | 0 <= v < N && 0 <= k < n ensures SlotSharing(out, t, v, k, secret[v][k], q) {
      var g := if v == 0 && k == 0 then f else Zeros(t);
      forall j ensures Cong(if v == 0 && k == 0 then Eval(f, j) % q else 0, Eval(g, j), q) {
        EvalZeros(t, j);
        CongRefl(0, q);
        CongMod(Eval(f, j), q);
      }
      CongFlip(secret[v][k], Eval(g, 0), q);
      assert SlotShares(out, v, k, g, q);
    }
  }

  lemma CongFlip(a: int, b: int, q: int)
    requires q > 0 && Cong(a, b, q)
    ensures Cong(b, a, q)
  {
  }

  /** Installing the table of f under the names gives a state that reads f at the last positions. */
  lemma InstallTable(p: Params, names: seq<string>, out: map<int, Share>, gk: GroupKey) returns (s: EpochState, w: seq<int>)
    requires forall j :: j in out <==> 1 <= j <= |names|
    ensures s.validators == names && Installed(p, s, out, w, gk)
  {
    hide PartOk, Filed;
    var n := |names|;
    w := seq(n, _ => 0);
    var parts := Records(p, out, n, gk);
    var shares := FilingExists(names, parts, n);
    assert names[..n] == names && parts[..n] == parts;
    s := EpochState(0, "", 0, 0, 0, names, 0, shares);
    forall i | 0 <= i < n ensures PartOk(p, parts[i], i, out, w, gk) {
      RecordIsPart(p, out, n, gk, i);
    }
    assert PartsOk(p, parts, out, w, gk);
  }

  ghost function Records(p: Params, out: map<int, Share>, n: nat, gk: GroupKey): (parts: seq<KeyShare>)
    requires forall j :: j in out <==> 1 <= j <= n
    ensures |parts| == n
  {
    seq(n, i requires 0 <= i < n => KeyShare(i, VApply(p.r, p.t.forward, out[i + 1]), map[], map[], Const(p.r, 0), gk))
  }

  lemma RecordIsPart(p: Params, out: map<int, Share>, n: nat, gk: GroupKey, i: nat)
    requires (forall j :: j in out <==> 1 <= j <= n) && i < n
    ensures PartOk(p, Records(p, out, n, gk)[i], i, out, seq(n, _ => 0), gk)
  {
    hide VApply, Const;
  }

  lemma UnsafeNames(p: Params, names: seq<string>, t: nat)
    requires IsTransform(p.r, p.t) && Prime(p.r.q) && p.N >= 1 && p.r.n >= 1
    requires 2 <= t <= |names| < p.r.q && !NoDuplicates(names)
    ensures !InstallSafe(p, names, t)
  {
    hide IsTransform, Installed, LastOf, ReadsAs, Eval, Cong, Prime, Standardized, AllReduced, SlotTable;
    var q, n := p.r.q, |names|;
    var f := SomeBreaks(names, t, q);
    var out, secret := SlotTable(f, n, p.N, p.r.n, q), OneSlot(Eval(f, 0) % q, p.N, p.r.n);
    SlotTableShares(f, n, t, p.N, p.r.n, q);
    var gk := GroupKey([], []);
    var s, w := InstallTable(p, names, out, gk);
    InstalledReads(p, s, out, w, gk);
    if StateShares(p, s, t, secret) {
      var g := ReadBack(p, s, f, t, out, secret);
      assert false;
    }
  }

  /** A state that shares the secret of f would read f back as ReadsAs says. */
  lemma ReadBack(p: Params, s: EpochState, f: seq<int>, t: nat, out: map<int, Share>, secret: Share) returns (g: seq<int>)
    requires p.N >= 1 && p.r.n >= 1 && StateShares(p, s, t, secret)
    requires out == SlotTable(f, |s.validators|, p.N, p.r.n, p.r.q) && secret == OneSlot(Eval(f, 0) % p.r.q, p.N, p.r.n)
    requires forall i :: 0 <= i < |s.validators| ==> ReadsLast(p, s, out, i)
    ensures ReadsAs(s.validators, t, f, g, p.r.q)
  {
    hide Cong, Eval, LastOf, Standardized;
    var table, q := TableOf(p, s), p.r.q;
    assert SlotSharing(table, t, 0, 0, secret[0][0], q);
    g :| |g| == t && SlotShares(table, 0, 0, g, q) && Cong(Eval(g, 0), secret[0][0], q);
    CongMod(Eval(f, 0), q);
    CongTrans(Eval(g, 0), secret[0][0], Eval(f, 0), q);
    forall i | 0 <= i < |s.validators| ensures ReadsAt(s.validators, f, g, i, q) {
      ReadBackAt(p, s, f, g, out, i);
    }
  }

  lemma ReadBackAt(p: Params, s: EpochState, f: seq<int>, g: seq<int>, out: map<int, Share>, i: nat)
    requires p.N >= 1 && p.r.n >= 1 && Complete(s) && i < |s.validators| && HasSlot(TableOf(p, s), 0, 0)
    requires out == SlotTable(f, |s.validators|, p.N, p.r.n, p.r.q) && ReadsLast(p, s, out, i)
    requires SlotShares(TableOf(p, s), 0, 0, g, p.r.q)
    ensures ReadsAt(s.validators, f, g, i, p.r.q)
  {
    hide Cong, Eval, LastOf, Standardized;
    var table, q, j, last := TableOf(p, s), p.r.q, i + 1, LastOf(s.validators, i) + 1;
    assert j in table && table[j] == ShareAtPoint(p, s, j);
    assert out[last] == OneSlot(Eval(f, last) % q, p.N, p.r.n);
    CongMod(Eval(f, last), q);
    CongSwap(table[j][0][0], Eval(f, last), Eval(g, j), q);
  }

  /** Installing by name is safe for every dealt table exactly when the names are distinct or the threshold is one. */
  lemma InstallSafeIff(p: Params, names: seq<string>, t: nat)
    requires IsTransform(p.r, p.t) && Prime(p.r.q) && p.N >= 1 && p.r.n >= 1 && 1 <= t <= |names| < p.r.q
    ensures InstallSafe(p, names, t) <==> NoDuplicates(names) || t == 1
  {
    hide IsTransform, Installed, AllReduced, IsSharing, StateShares, Prime;
    if NoDuplicates(names) || t == 1 {
      forall s: EpochState, out: map<int, Share>, w: seq<int>, gk: GroupKey, secret: Share |
        s.validators == names && Installed(p, s, out, w, gk) && AllReduced(out, p.N, p.r.n, p.r.q)
        && IsSharing(out, t, secret, p.N, p.r.n, p.r.q)
        ensures StateShares(p, s, t, secret)
      {
        SafeState(p, s, out, w, gk, t, secret);
      }
    } else {
      UnsafeNames(p, names, t);
    }
  }
}
