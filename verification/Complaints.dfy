/** Disqualification of misbehaving dealers: every party that saw the same accusations computes the same
    surviving quorum. */
module Complaints {
  import opened Zq
  import opened Sorting
  import opened Bytes

  datatype Complaint = Complaint(transcript: seq<Byte>, sender: int, complainer: int, reason: Byte, evidence: seq<Byte>)

  // ----- accusations ---------------------------------------------------------------

  /** Who accused whom. */
  ghost function Pairs(cs: seq<Complaint>): set<(int, int)> {
    set i | 0 <= i < |cs| :: (cs[i].sender, cs[i].complainer)
  }

  ghost function Complainers(pairs: set<(int, int)>, sender: int): set<int> {
    set p | p in pairs && p.0 == sender :: p.1
  }

  /** DisqualificationThreshold: max(1, t - 1). */
  function DisqualificationThreshold(tOld: int): (n: int)
    ensures n >= 1 && n >= tOld - 1 && (n == 1 || n == tOld - 1)
  {
    if tOld <= 1 then 1 else tOld - 1
  }

  ghost predicate Disqualified(pairs: set<(int, int)>, sender: int, tOld: int) {
    |Complainers(pairs, sender)| >= DisqualificationThreshold(tOld)
  }

  /** count[s] is the number of distinct complainers of s. */
  ghost predicate Counted(pairs: set<(int, int)>, count: map<int, int>) {
    && (forall s :: s in count ==> count[s] == |Complainers(pairs, s)|)
    && forall p :: p in pairs ==> p.0 in count
  }

  lemma CountOne(pairs: set<(int, int)>, count: map<int, int>, s: int, c: int)
    requires Counted(pairs, count) && (s, c) !in pairs
    ensures Counted(pairs + {(s, c)}, count[s := (if s in count then count[s] else 0) + 1])
  {
    var pairs' := pairs + {(s, c)};
    var count' := count[s := (if s in count then count[s] else 0) + 1];
    forall x | x in count' ensures count'[x] == |Complainers(pairs', x)| {
      ComplainersAdd(pairs, s, c, x);
      if x == s && s !in count {
        assert Complainers(pairs, s) == {};
      }
    }
  }

  lemma ComplainersAdd(pairs: set<(int, int)>, s: int, c: int, x: int)
    requires (s, c) !in pairs
    ensures Complainers(pairs + {(s, c)}, x) == Complainers(pairs, x) + (if x == s then {c} else {})
    ensures c !in Complainers(pairs, s)
  {
    var pairs' := pairs + {(s, c)};
    forall y ensures y in Complainers(pairs', x) <==> y in Complainers(pairs, x) || (x == s && y == c) {
      if y in Complainers(pairs', x) {
        assert (x, y) in pairs';
      }
      if y in Complainers(pairs, x) {
        assert (x, y) in pairs';
      }
      if x == s && y == c {
        assert (x, y) in pairs';
      }
    }
  }

  /** ComputeDisqualifiedSet: exactly the senders named by enough distinct complainers. */
  method ComputeDisqualifiedSet(cs: seq<Complaint>, tOld: int) returns (out: set<int>)
    ensures forall s :: s in out <==> Disqualified(Pairs(cs), s, tOld)
    ensures forall s :: s in out <==>
              |set i | 0 <= i < |cs| && cs[i].sender == s :: cs[i].complainer| >= if tOld <= 2 then 1 else tOld - 1
  {
    var threshold := DisqualificationThreshold(tOld);
    var seen: set<(int, int)> := {};
    var count: map<int, int> := map[];
    for i := 0 to |cs|
      invariant seen == Pairs(cs[..i]) && Counted(seen, count)
    {
      PairsSnoc(cs, i);
      var key := (cs[i].sender, cs[i].complainer);
      if key in seen {
        continue;
      }
      CountOne(seen, count, key.0, key.1);
      seen := seen + {key};
      count := count[key.0 := (if key.0 in count then count[key.0] else 0) + 1];
    }
    assert cs[..|cs|] == cs;
    out := {};
    var rest := count.Keys;
    while rest != {}
      invariant rest <= count.Keys
      invariant forall s :: s in out <==> s in count.Keys - rest && count[s] >= threshold
      decreases rest
    {
      var s := Pick(rest);
      rest := rest - {s};
      if count[s] >= threshold {
        out := out + {s};
      }
    }
    forall s | Disqualified(Pairs(cs), s, tOld) ensures s in count {
      NonemptyCounted(Pairs(cs), count, s);
    }
    forall s ensures s in out <==>
      |set i | 0 <= i < |cs| && cs[i].sender == s :: cs[i].complainer| >= if tOld <= 2 then 1 else tOld - 1
    {
      ComplainersOf(cs, s);
    }
  }

  /** Who complained about s, read off the list itself. */
  lemma ComplainersOf(cs: seq<Complaint>, s: int)
    ensures Complainers(Pairs(cs), s) == set i | 0 <= i < |cs| && cs[i].sender == s :: cs[i].complainer
  {
    var direct := set i | 0 <= i < |cs| && cs[i].sender == s :: cs[i].complainer;
    forall c | c in direct ensures c in Complainers(Pairs(cs), s) {
      var i :| 0 <= i < |cs| && cs[i].sender == s && cs[i].complainer == c;
      assert (s, c) in Pairs(cs);
    }
    forall c | c in Complainers(Pairs(cs), s) ensures c in direct {
      assert (s, c) in Pairs(cs);
      var i :| 0 <= i < |cs| && (s, c) == (cs[i].sender, cs[i].complainer);
    }
  }

  lemma PairsSnoc(cs: seq<Complaint>, i: nat)
    requires i < |cs|
    ensures Pairs(cs[..i + 1]) == Pairs(cs[..i]) + {(cs[i].sender, cs[i].complainer)}
  {
    assert cs[..i + 1] == cs[..i] + [cs[i]];
    forall p | p in Pairs(cs[..i]) ensures p in Pairs(cs[..i + 1]) {
      var k :| 0 <= k < i && p == (cs[..i][k].sender, cs[..i][k].complainer);
      assert cs[..i + 1][k] == cs[..i][k];
    }
    assert cs[..i + 1][i] == cs[i];
    forall p | p in Pairs(cs[..i + 1]) ensures p in Pairs(cs[..i]) || p == (cs[i].sender, cs[i].complainer) {
      var k :| 0 <= k < i + 1 && p == (cs[..i + 1][k].sender, cs[..i + 1][k].complainer);
      if k < i {
        assert cs[..i][k] == cs[..i + 1][k];
      }
    }
  }

  lemma NonemptyCounted(pairs: set<(int, int)>, count: map<int, int>, s: int)
    requires Counted(pairs, count) && |Complainers(pairs, s)| >= 1
    ensures s in count
  {
    var c := Choose(Complainers(pairs, s));
    assert (s, c) in pairs;
  }

  /** Order and repetition of complaints do not matter. */
  lemma SamePairs(cs: seq<Complaint>, cs': seq<Complaint>)
    requires forall c :: c in cs <==> c in cs'
    ensures Pairs(cs) == Pairs(cs')
  {
    PairsWithin(cs, cs');
    PairsWithin(cs', cs);
  }

  lemma PairsWithin(cs: seq<Complaint>, cs': seq<Complaint>)
    requires forall c :: c in cs ==> c in cs'
    ensures Pairs(cs) <= Pairs(cs')
  {
    forall p | p in Pairs(cs) ensures p in Pairs(cs') {
      var k :| 0 <= k < |cs| && p == (cs[k].sender, cs[k].complainer);
      assert cs[k] in cs';
      var l :| 0 <= l < |cs'| && cs'[l] == cs[k];
    }
  }

  lemma SizeWithin(a: set<int>, b: set<int>)
    requires a <= b
    ensures |a| <= |b|
  {
    assert b == a + (b - a);
  }

  /** More complaints never rehabilitate a sender. */
  lemma DisqualifiedMonotone(cs: seq<Complaint>, cs': seq<Complaint>, s: int, tOld: int)
    requires forall c :: c in cs ==> c in cs'
    requires Disqualified(Pairs(cs), s, tOld)
    ensures Disqualified(Pairs(cs'), s, tOld)
  {
    PairsWithin(cs, cs');
    SizeWithin(Complainers(Pairs(cs), s), Complainers(Pairs(cs'), s));
  }

  /** A coalition can get a sender disqualified on its own word exactly when it has max(1, t - 1) members. */
  lemma CoalitionPower(coalition: set<int>, s: int, tOld: int)
    ensures |coalition| >= DisqualificationThreshold(tOld) <==>
            exists pairs: set<(int, int)> :: (forall p :: p in pairs ==> p.1 in coalition) && Disqualified(pairs, s, tOld)
  {
    var all := set c | c in coalition :: (s, c);
    forall c | c in coalition ensures c in Complainers(all, s) {
      assert (s, c) in all;
    }
    SizeWithin(coalition, Complainers(all, s));
    forall pairs: set<(int, int)> | (forall p :: p in pairs ==> p.1 in coalition) && Disqualified(pairs, s, tOld)
      ensures |coalition| >= DisqualificationThreshold(tOld)
    {
      SizeWithin(Complainers(pairs, s), coalition);
    }
    if |coalition| >= DisqualificationThreshold(tOld) {
      assert Disqualified(all, s, tOld);
    }
  }

  // ----- the surviving quorum ------------------------------------------------------

  ghost predicate Survivors(out: seq<int>, quorum: seq<int>, dq: set<int>) {
    forall id :: multiset(out)[id] == if id in dq then 0 else multiset(quorum)[id]
  }

  ghost function CountOut(quorum: seq<int>, dq: set<int>): nat {
    if quorum == [] then 0 else CountOut(quorum[..|quorum| - 1], dq) + if quorum[|quorum| - 1] in dq then 0 else 1
  }

  method Surviving(quorum: seq<int>, dq: set<int>) returns (out: seq<int>)
    ensures Survivors(out, quorum, dq) && |out| == CountOut(quorum, dq)
  {
    out := [];
    for i := 0 to |quorum|
      invariant Survivors(out, quorum[..i], dq) && |out| == CountOut(quorum[..i], dq)
    {
      assert quorum[..i + 1] == quorum[..i] + [quorum[i]];
      assert quorum[..i + 1][..i] == quorum[..i];
      if quorum[i] !in dq {
        out := out + [quorum[i]];
      }
    }
    assert quorum[..|quorum|] == quorum;
  }

  /** FilterQualifiedQuorum: the survivors in ascending order, or nothing when fewer than tOld remain. */
  method FilterQualifiedQuorum(quorum: seq<int>, dq: set<int>, tOld: int) returns (r: Option<seq<int>>)
    ensures r.Some? <==> CountOut(quorum, dq) >= tOld
    ensures r.Some? ==> Sorted(r.value) && Survivors(r.value, quorum, dq)
  {
    var out := Surviving(quorum, dq);
    if |out| < tOld {
      return None;
    }
    var a := new int[|out|](i requires 0 <= i < |out| => out[i]);
    assert a[..] == out;
    InsertionSortInts(a);
    return Some(a[..]);
  }

  /** However the survivors are listed, they are as many as CountOut says. */
  lemma {:induction false} SurvivorsCount(out: seq<int>, quorum: seq<int>, dq: set<int>)
    requires Survivors(out, quorum, dq)
    ensures |out| == CountOut(quorum, dq)
    decreases |quorum|
  {
    if quorum == [] {
      forall id ensures multiset(out)[id] == 0 {
        assert multiset(quorum)[id] == 0;
      }
      assert multiset(out) == multiset{};
      assert |out| == |multiset(out)|;
    } else {
      var n := |quorum| - 1;
      var last := quorum[n];
      assert quorum == quorum[..n] + [last];
      if last in dq {
        SurvivorsCount(out, quorum[..n], dq);
      } else {
        var rest := WithoutOne(out, last);
        SurvivorsCount(rest, quorum[..n], dq);
      }
    }
  }

  lemma WithoutOne(s: seq<int>, x: int) returns (rest: seq<int>)
    requires multiset(s)[x] > 0
    ensures |s| == |rest| + 1 && multiset(s) == multiset(rest) + multiset{x}
  {
    assert x in multiset(s);
    var k :| 0 <= k < |s| && s[k] == x;
    rest := s[..k] + s[k + 1..];
    assert s == s[..k] + [x] + s[k + 1..];
  }

  lemma SameSurvivors(quorum: seq<int>, quorum': seq<int>, out: seq<int>, out': seq<int>, dq: set<int>)
    requires multiset(quorum) == multiset(quorum')
    requires Sorted(out) && Survivors(out, quorum, dq) && Sorted(out') && Survivors(out', quorum', dq)
    ensures out == out'
  {
    forall id ensures multiset(out)[id] == multiset(out')[id] {
    }
    assert multiset(out) == multiset(out');
    SortedCanonical(out, out');
  }

  /** Agreement: parties that hold the same set of accusations and the same quorum, each in its own order, filter to
      the same list. */
  lemma QuorumAgreement(cs: seq<Complaint>, cs': seq<Complaint>, dq: set<int>, dq': set<int>, quorum: seq<int>, quorum': seq<int>,
                        out: seq<int>, out': seq<int>, tOld: int)
    requires (forall p :: p in Pairs(cs) <==> p in Pairs(cs')) && multiset(quorum) == multiset(quorum')
    requires forall s :: s in dq <==> Disqualified(Pairs(cs), s, tOld)
    requires forall s :: s in dq' <==> Disqualified(Pairs(cs'), s, tOld)
    requires Sorted(out) && Survivors(out, quorum, dq) && Sorted(out') && Survivors(out', quorum', dq')
    ensures dq == dq' && out == out'
  {
    assert Pairs(cs) == Pairs(cs');
    forall s ensures s in dq <==> s in dq' {
      assert Disqualified(Pairs(cs), s, tOld) <==> Disqualified(Pairs(cs'), s, tOld);
    }
    assert dq == dq';
    SameSurvivors(quorum, quorum', out, out', dq);
  }

  // ----- the signed payload --------------------------------------------------------

  /** int converted to uint32. */
  function Low32(x: int): nat {
    x % U32
  }

  function ComplaintBytes(c: Complaint, tag: seq<Byte>): seq<Byte> {
    tag + c.transcript + BigEndian(Low32(c.sender), 4) + BigEndian(Low32(c.complainer), 4) + [c.reason]
    + BigEndian(Low32(|c.evidence|), 4) + c.evidence
  }

  lemma Fixed32Injective(x: nat, y: nat)
    requires x < U32 && y < U32 && BigEndian(x, 4) == BigEndian(y, 4)
    ensures x == y
  {
    U32Bytes();
    BigEndianDecode(x, 4);
    BigEndianDecode(y, 4);
  }

  /** Two complaints sign the same bytes exactly when they agree in every field, ids taken modulo 2^32. */
  lemma ComplaintBytesIff(c: Complaint, d: Complaint, tag: seq<Byte>)
    requires |c.transcript| == |d.transcript| == 32
    ensures ComplaintBytes(c, tag) == ComplaintBytes(d, tag) <==>
            && c.transcript == d.transcript && Low32(c.sender) == Low32(d.sender) && Low32(c.complainer) == Low32(d.complainer)
            && c.reason == d.reason && c.evidence == d.evidence
  {
    hide BigEndian;
    var b, b' := ComplaintBytes(c, tag), ComplaintBytes(d, tag);
    var n := |tag|;
    if b == b' {
      assert b[n..n + 32] == c.transcript && b'[n..n + 32] == d.transcript;
      assert b[n + 32..n + 36] == BigEndian(Low32(c.sender), 4) && b'[n + 32..n + 36] == BigEndian(Low32(d.sender), 4);
      assert b[n + 36..n + 40] == BigEndian(Low32(c.complainer), 4) && b'[n + 36..n + 40] == BigEndian(Low32(d.complainer), 4);
      assert b[n + 40] == c.reason && b'[n + 40] == d.reason;
      assert b[n + 45..] == c.evidence && b'[n + 45..] == d.evidence;
      Fixed32Injective(Low32(c.sender), Low32(d.sender));
      Fixed32Injective(Low32(c.complainer), Low32(d.complainer));
    }
  }
}
