/** The part lists that bind a resharing: what the exchange and the invocation transcripts commit to. */
module Transcripts {
  import opened Zq
  import opened Bytes
  import opened Sorting
  import opened Rounding
  import opened Wire

  type Part = seq<Byte>

  /** The bytes of an ASCII label. */
  function Ascii(s: string): (b: Part)
    ensures |b| == |s| && forall i :: 0 <= i < |s| ==> b[i] == s[i] as int % 256
  {
    seq(|s|, i requires 0 <= i < |s| => s[i] as int % 256)
  }

  /** The low 32 bits, big-endian; a negative integer in two's complement. */
  function Enc32(v: int): (b: Part)
    ensures |b| == 4
  {
    BigEndian(v % U32, 4)
  }

  /** The low 64 bits, big-endian. */
  function Enc64(v: int): (b: Part)
    ensures |b| == 8
  {
    BigEndian(v % WORD, 8)
  }

  ghost predicate IsId(id: int) {
    0 <= id < U32
  }

  lemma Enc32Injective(x: int, y: int)
    requires IsId(x) && IsId(y) && Enc32(x) == Enc32(y)
    ensures x == y
  {
    hide BigEndian;
    U32Bytes();
    assert x % U32 == x && y % U32 == y;
    BigEndianDecode(x, 4);
    BigEndianDecode(y, 4);
  }

  lemma Enc64Injective(x: nat, y: nat)
    requires x < WORD && y < WORD && Enc64(x) == Enc64(y)
    ensures x == y
  {
    hide BigEndian;
    WordBytes();
    assert x % WORD == x && y % WORD == y;
    BigEndianDecode(x, 8);
    BigEndianDecode(y, 8);
  }

  // ----- sorted lists --------------------------------------------------------------

  ghost function Insert(r: seq<int>, x: int): (t: seq<int>)
    ensures multiset(t) == multiset(r) + multiset{x}
  {
    if r == [] || r[|r| - 1] <= x then r + [x]
    else
      var n := |r| - 1;
      assert r == r[..n] + [r[n]];
      Insert(r[..n], x) + [r[n]]
  }

  lemma SnocSorted(t: seq<int>, y: int)
    requires Sorted(t) && forall i :: 0 <= i < |t| ==> t[i] <= y
    ensures Sorted(t + [y])
  {
  }

  lemma InsertBound(r: seq<int>, x: int, y: int)
    requires x <= y && forall i :: 0 <= i < |r| ==> r[i] <= y
    ensures forall i :: 0 <= i < |Insert(r, x)| ==> Insert(r, x)[i] <= y
  {
    hide Insert;
    var t := Insert(r, x);
    forall i | 0 <= i < |t| ensures t[i] <= y {
      assert t[i] in multiset(t);
      assert t[i] in multiset(r) || t[i] == x;
    }
  }

  lemma {:induction false} InsertSorted(r: seq<int>, x: int)
    requires Sorted(r)
    ensures Sorted(Insert(r, x))
    decreases |r|
  {
    if r == [] || r[|r| - 1] <= x {
      SnocSorted(r, x);
    } else {
      var n := |r| - 1;
      InsertSorted(r[..n], x);
      InsertBound(r[..n], x, r[n]);
      SnocSorted(Insert(r[..n], x), r[n]);
    }
  }

  /** The one ascending arrangement of a list. */
  ghost function SortedOf(s: seq<int>): (r: seq<int>)
    ensures Sorted(r) && multiset(r) == multiset(s)
  {
    if s == [] then []
    else
      var n := |s| - 1;
      assert s == s[..n] + [s[n]];
      InsertSorted(SortedOf(s[..n]), s[n]);
      Insert(SortedOf(s[..n]), s[n])
  }

  /** Sorting forgets exactly the order. */
  lemma SortedOfIff(s: seq<int>, t: seq<int>)
    ensures SortedOf(s) == SortedOf(t) <==> multiset(s) == multiset(t)
  {
    if multiset(s) == multiset(t) {
      SortedCanonical(SortedOf(s), SortedOf(t));
    }
  }

  method SortCopy(s: seq<int>) returns (r: seq<int>)
    ensures r == SortedOf(s)
  {
    var a := new int[|s|](i requires 0 <= i < |s| => s[i]);
    assert a[..] == s;
    InsertionSortInts(a);
    r := a[..];
    SortedCanonical(r, SortedOf(s));
  }

  // ----- labelled sections ---------------------------------------------------------

  /** label, item, label, item, ... */
  function Section(name: Part, items: seq<Part>): (ps: seq<Part>)
    ensures |ps| == 2 * |items|
  {
    if items == [] then [] else [name, items[0]] + Section(name, items[1..])
  }

  ghost predicate NotLabel(rest: seq<Part>, name: Part) {
    rest == [] || rest[0] != name
  }

  /** A section ends where its label stops, so it can be read back from what follows. */
  lemma {:induction false} SectionSplit(name: Part, xs: seq<Part>, ys: seq<Part>, r: seq<Part>, r': seq<Part>)
    requires NotLabel(r, name) && NotLabel(r', name) && Section(name, xs) + r == Section(name, ys) + r'
    ensures xs == ys && r == r'
    decreases |xs|
  {
    SectionHead(name, xs, r);
    SectionHead(name, ys, r');
    if xs != [] {
      var t, t' := Section(name, xs[1..]) + r, Section(name, ys[1..]) + r';
      assert Section(name, xs) + r == [name, xs[0]] + t && Section(name, ys) + r' == [name, ys[0]] + t';
      SplitEqual([name, xs[0]], [name, ys[0]], t, t');
      assert [name, xs[0]][1] == [name, ys[0]][1];
      SectionSplit(name, xs[1..], ys[1..], r, r');
      assert xs == [xs[0]] + xs[1..] && ys == [ys[0]] + ys[1..];
    } else {
      assert Section(name, xs) + r == r && Section(name, ys) + r' == r';
    }
  }

  lemma SectionHead(name: Part, xs: seq<Part>, r: seq<Part>)
    requires NotLabel(r, name)
    ensures xs != [] <==> Section(name, xs) + r != [] && (Section(name, xs) + r)[0] == name
  {
    if xs == [] {
      assert Section(name, xs) + r == r;
    }
  }

  method WriteSection(parts: seq<Part>, name: Part, items: seq<Part>) returns (out: seq<Part>)
    ensures out == parts + Section(name, items)
  {
    out := parts;
    for i := 0 to |items|
      invariant out + Section(name, items[i..]) == parts + Section(name, items)
    {
      assert items[i..][1..] == items[i + 1..];
      assert out + ([name, items[i]] + Section(name, items[i + 1..])) == out + [name, items[i]] + Section(name, items[i + 1..]);
      out := out + [name, items[i]];
    }
  }

  function EncIds(ids: seq<int>): (items: seq<Part>)
    ensures |items| == |ids|
  {
    seq(|ids|, i requires 0 <= i < |ids| => Enc32(ids[i]))
  }

  lemma EncIdsInjective(ids: seq<int>, ids': seq<int>)
    requires EncIds(ids) == EncIds(ids') && forall i :: 0 <= i < |ids| ==> IsId(ids[i])
    requires forall i :: 0 <= i < |ids'| ==> IsId(ids'[i])
    ensures ids == ids'
  {
    hide Enc32;
    forall i | 0 <= i < |ids| ensures ids[i] == ids'[i] {
      assert EncIds(ids)[i] == EncIds(ids')[i];
      Enc32Injective(ids[i], ids'[i]);
    }
  }

  // ----- the exchange transcript ---------------------------------------------------

  datatype ReshareTranscript = ReshareTranscript(
    digests: map<int, Part>, complaints: seq<Part>, disqualified: seq<int>, qualified: seq<int>)

  /** Ids fit uint32; digests are 32 bytes. */
  ghost predicate IsTranscript(x: ReshareTranscript) {
    && (forall id :: id in x.digests ==> IsId(id))
    && (forall i :: 0 <= i < |x.disqualified| ==> IsId(x.disqualified[i]))
    && forall i :: 0 <= i < |x.qualified| ==> IsId(x.qualified[i])
  }

  function CommitEntry(id: int, digest: Part): (ps: seq<Part>)
    ensures |ps| == 4 && ps[0] == Ascii("commit_party")
  {
    [Ascii("commit_party"), Enc32(id), Ascii("commit_digest"), digest]
  }

  lemma EntrySplit(id: int, d: Part, id': int, d': Part, t: seq<Part>, t': seq<Part>)
    requires IsId(id) && IsId(id') && CommitEntry(id, d) + t == CommitEntry(id', d') + t'
    ensures id == id' && d == d' && t == t'
  {
    hide Enc32, Ascii;
    SplitEqual(CommitEntry(id, d), CommitEntry(id', d'), t, t');
    assert CommitEntry(id, d)[1] == Enc32(id) && CommitEntry(id', d')[1] == Enc32(id');
    assert CommitEntry(id, d)[3] == d && CommitEntry(id', d')[3] == d';
    Enc32Injective(id, id');
  }

  function Entries(es: seq<(int, Part)>): (ps: seq<Part>)
    ensures |ps| == 4 * |es|
  {
    if es == [] then [] else CommitEntry(es[0].0, es[0].1) + Entries(es[1..])
  }

  lemma EntriesHead(es: seq<(int, Part)>, r: seq<Part>)
    requires NotLabel(r, Ascii("commit_party"))
    ensures es != [] <==> Entries(es) + r != [] && (Entries(es) + r)[0] == Ascii("commit_party")
  {
    hide Ascii, CommitEntry;
    if es == [] {
      assert Entries(es) + r == r;
    }
  }

  lemma {:induction false} EntriesSplit(es: seq<(int, Part)>, es': seq<(int, Part)>, r: seq<Part>, r': seq<Part>)
    requires (forall i :: 0 <= i < |es| ==> IsId(es[i].0)) && forall i :: 0 <= i < |es'| ==> IsId(es'[i].0)
    requires NotLabel(r, Ascii("commit_party")) && NotLabel(r', Ascii("commit_party"))
    requires Entries(es) + r == Entries(es') + r'
    ensures es == es' && r == r'
    decreases |es|
  {
    hide CommitEntry, Ascii;
    EntriesHead(es, r);
    EntriesHead(es', r');
    if es != [] {
      var t, t' := Entries(es[1..]) + r, Entries(es'[1..]) + r';
      assert Entries(es) + r == CommitEntry(es[0].0, es[0].1) + t;
      assert Entries(es') + r' == CommitEntry(es'[0].0, es'[0].1) + t';
      EntrySplit(es[0].0, es[0].1, es'[0].0, es'[0].1, t, t');
      EntriesSplit(es[1..], es'[1..], r, r');
      assert es == [es[0]] + es[1..] && es' == [es'[0]] + es'[1..];
    } else {
      assert Entries(es) + r == r && Entries(es') + r' == r';
    }
  }

  function EntriesOf(digests: map<int, Part>, ids: seq<int>): (es: seq<(int, Part)>)
    requires forall i :: 0 <= i < |ids| ==> ids[i] in digests
    ensures |es| == |ids|
  {
    seq(|ids|, i requires 0 <= i < |ids| => (ids[i], digests[ids[i]]))
  }

  /** The commit section: four parts per party. */
  function Commits(digests: map<int, Part>, ids: seq<int>): (ps: seq<Part>)
    requires forall i :: 0 <= i < |ids| ==> ids[i] in digests
    ensures |ps| == 4 * |ids|
  {
    Entries(EntriesOf(digests, ids))
  }

  lemma CommitsSplit(m: map<int, Part>, ids: seq<int>, m': map<int, Part>, ids': seq<int>, r: seq<Part>, r': seq<Part>)
    requires forall i :: 0 <= i < |ids| ==> ids[i] in m && IsId(ids[i])
    requires forall i :: 0 <= i < |ids'| ==> ids'[i] in m' && IsId(ids'[i])
    requires NotLabel(r, Ascii("commit_party")) && NotLabel(r', Ascii("commit_party"))
    requires Commits(m, ids) + r == Commits(m', ids') + r'
    ensures ids == ids' && r == r' && forall i :: 0 <= i < |ids| ==> m[ids[i]] == m'[ids[i]]
  {
    hide Ascii, Entries;
    var es, es' := EntriesOf(m, ids), EntriesOf(m', ids');
    EntriesSplit(es, es', r, r');
    forall i | 0 <= i < |ids| ensures ids[i] == ids'[i] && m[ids[i]] == m'[ids'[i]] {
      assert es[i] == es'[i];
    }
  }

  ghost function SortedIds(digests: map<int, Part>): (ids: seq<int>)
    ensures Elements(ids) == digests.Keys && forall i :: 0 <= i < |ids| ==> ids[i] in digests
  {
    var ids := Enumerate(digests.Keys);
    assert forall i :: 0 <= i < |ids| ==> ids[i] in Elements(ids);
    ids
  }

  ghost function QualifiedParts(x: ReshareTranscript): (ps: seq<Part>)
    ensures |ps| >= 2 && ps[0] == Ascii("qualified_count")
  {
    [Ascii("qualified_count"), Enc32(|x.qualified|)] + Section(Ascii("qualified_id"), EncIds(SortedOf(x.qualified)))
  }

  ghost function DisqualifiedParts(x: ReshareTranscript): (ps: seq<Part>)
    ensures |ps| >= 2 && ps[0] == Ascii("disqualified_count")
  {
    [Ascii("disqualified_count"), Enc32(|x.disqualified|)] + (Section(Ascii("disqualified_id"), EncIds(SortedOf(x.disqualified))) + QualifiedParts(x))
  }

  ghost function ComplaintParts(x: ReshareTranscript): (ps: seq<Part>)
    ensures |ps| >= 2 && ps[0] == Ascii("complaint_count")
  {
    [Ascii("complaint_count"), Enc32(|x.complaints|)] + (Section(Ascii("complaint_hash"), x.complaints) + DisqualifiedParts(x))
  }

  /** buildExchangeTranscriptParts. */
  ghost function ExchangeParts(x: ReshareTranscript): (ps: seq<Part>) {
    [Ascii("corona.reshare.exchange-transcript.v1"), Ascii("commit_count"), Enc32(|x.digests|)] +
    (Commits(x.digests, SortedIds(x.digests)) + ComplaintParts(x))
  }

  method WriteCommits(parts: seq<Part>, digests: map<int, Part>, ids: seq<int>) returns (out: seq<Part>)
    requires forall i :: 0 <= i < |ids| ==> ids[i] in digests
    ensures out == parts + Commits(digests, ids)
  {
    hide CommitEntry, Ascii;
    out := parts;
    ghost var es := EntriesOf(digests, ids);
    for i := 0 to |ids|
      invariant out + Entries(es[i..]) == parts + Entries(es)
    {
      var id := ids[i];
      var h := CommitEntry(id, digests[id]);
      assert es[i..][1..] == es[i + 1..] && es[i] == (id, digests[id]);
      assert out + (h + Entries(es[i + 1..])) == out + h + Entries(es[i + 1..]);
      out := out + h;
    }
  }

  method AppendQualified(parts: seq<Part>, x: ReshareTranscript) returns (out: seq<Part>)
    ensures out == parts + QualifiedParts(x)
  {
    hide Enc32, Ascii, Section, EncIds, SortedOf;
    var q := SortCopy(x.qualified);
    SortedLength(x.qualified);
    out := parts + [Ascii("qualified_count"), Enc32(|q|)];
    out := WriteSection(out, Ascii("qualified_id"), EncIds(q));
  }

  method AppendDisqualified(parts: seq<Part>, x: ReshareTranscript) returns (out: seq<Part>)
    ensures out == parts + DisqualifiedParts(x)
  {
    hide Enc32, Ascii, Section, EncIds, SortedOf, QualifiedParts;
    var dq := SortCopy(x.disqualified);
    SortedLength(x.disqualified);
    out := parts + [Ascii("disqualified_count"), Enc32(|dq|)];
    out := WriteSection(out, Ascii("disqualified_id"), EncIds(dq));
    out := AppendQualified(out, x);
  }

  method AppendComplaints(parts: seq<Part>, x: ReshareTranscript) returns (out: seq<Part>)
    ensures out == parts + ComplaintParts(x)
  {
    hide Enc32, Ascii, Section, DisqualifiedParts;
    out := parts + [Ascii("complaint_count"), Enc32(|x.complaints|)];
    out := WriteSection(out, Ascii("complaint_hash"), x.complaints);
    out := AppendDisqualified(out, x);
  }

  /** The part list as it is appended, section by section, over sorted copies. */
  method BuildExchangeTranscriptParts(x: ReshareTranscript) returns (parts: seq<Part>)
    ensures parts == ExchangeParts(x)
  {
    hide Enc32, Ascii, Commits, ComplaintParts;
    var ids := SortedKeys(x.digests);
    EnumeratedLength(x.digests);
    parts := [Ascii("corona.reshare.exchange-transcript.v1"), Ascii("commit_count"), Enc32(|ids|)];
    parts := WriteCommits(parts, x.digests, ids);
    parts := AppendComplaints(parts, x);
  }

  lemma SortedLength(s: seq<int>)
    ensures |SortedOf(s)| == |s|
  {
    assert |multiset(SortedOf(s))| == |SortedOf(s)| && |multiset(s)| == |s|;
  }

  lemma EnumeratedLength(digests: map<int, Part>)
    ensures |SortedIds(digests)| == |digests|
  {
    var ids := Enumerate(digests.Keys);
    NoDuplicatesSize(ids);
  }

  // ----- what the exchange transcript commits to -----------------------------------

  lemma SortedIdsInRange(s: seq<int>)
    requires forall i :: 0 <= i < |s| ==> IsId(s[i])
    ensures forall i :: 0 <= i < |SortedOf(s)| ==> IsId(SortedOf(s)[i])
  {
    forall i | 0 <= i < |SortedOf(s)| ensures IsId(SortedOf(s)[i]) {
      assert SortedOf(s)[i] in multiset(SortedOf(s));
      assert SortedOf(s)[i] in multiset(s);
    }
  }

  lemma LabelsDiffer()
    ensures Ascii("complaint_count") != Ascii("commit_party")
    ensures Ascii("disqualified_count") != Ascii("complaint_hash")
    ensures Ascii("qualified_count") != Ascii("disqualified_id")
  {
    assert |"complaint_count"| != |"commit_party"| && |"disqualified_count"| != |"complaint_hash"|;
    assert Ascii("qualified_count")[0] == 'q' as int % 256 && Ascii("disqualified_id")[0] == 'd' as int % 256;
  }

  lemma QualifiedSplit(x: ReshareTranscript, y: ReshareTranscript)
    requires IsTranscript(x) && IsTranscript(y) && QualifiedParts(x) == QualifiedParts(y)
    ensures multiset(x.qualified) == multiset(y.qualified)
  {
    hide Ascii, Enc32, Section, EncIds, SortedOf;
    var name := Ascii("qualified_id");
    var s, t := Section(name, EncIds(SortedOf(x.qualified))), Section(name, EncIds(SortedOf(y.qualified)));
    SplitEqual([Ascii("qualified_count"), Enc32(|x.qualified|)], [Ascii("qualified_count"), Enc32(|y.qualified|)], s, t);
    assert s + [] == t + [];
    SectionSplit(name, EncIds(SortedOf(x.qualified)), EncIds(SortedOf(y.qualified)), [], []);
    SortedIdsInRange(x.qualified);
    SortedIdsInRange(y.qualified);
    EncIdsInjective(SortedOf(x.qualified), SortedOf(y.qualified));
    SortedOfIff(x.qualified, y.qualified);
  }

  lemma DisqualifiedSplit(x: ReshareTranscript, y: ReshareTranscript)
    requires IsTranscript(x) && IsTranscript(y) && DisqualifiedParts(x) == DisqualifiedParts(y)
    ensures multiset(x.disqualified) == multiset(y.disqualified) && QualifiedParts(x) == QualifiedParts(y)
  {
    hide Ascii, Enc32, Section, EncIds, SortedOf, QualifiedParts;
    LabelsDiffer();
    var name := Ascii("disqualified_id");
    var i, j := EncIds(SortedOf(x.disqualified)), EncIds(SortedOf(y.disqualified));
    SplitEqual([Ascii("disqualified_count"), Enc32(|x.disqualified|)], [Ascii("disqualified_count"), Enc32(|y.disqualified|)],
               Section(name, i) + QualifiedParts(x), Section(name, j) + QualifiedParts(y));
    SectionSplit(name, i, j, QualifiedParts(x), QualifiedParts(y));
    SortedIdsInRange(x.disqualified);
    SortedIdsInRange(y.disqualified);
    EncIdsInjective(SortedOf(x.disqualified), SortedOf(y.disqualified));
    SortedOfIff(x.disqualified, y.disqualified);
  }

  lemma ComplaintSplit(x: ReshareTranscript, y: ReshareTranscript)
    requires ComplaintParts(x) == ComplaintParts(y)
    ensures x.complaints == y.complaints && DisqualifiedParts(x) == DisqualifiedParts(y)
  {
    hide Ascii, Enc32, Section, DisqualifiedParts;
    LabelsDiffer();
    var name := Ascii("complaint_hash");
    SplitEqual([Ascii("complaint_count"), Enc32(|x.complaints|)], [Ascii("complaint_count"), Enc32(|y.complaints|)],
               Section(name, x.complaints) + DisqualifiedParts(x), Section(name, y.complaints) + DisqualifiedParts(y));
    SectionSplit(name, x.complaints, y.complaints, DisqualifiedParts(x), DisqualifiedParts(y));
  }

  lemma CommitSplit(x: ReshareTranscript, y: ReshareTranscript)
    requires IsTranscript(x) && IsTranscript(y) && ExchangeParts(x) == ExchangeParts(y)
    ensures x.digests == y.digests && ComplaintParts(x) == ComplaintParts(y)
  {
    hide Ascii, Enc32, Commits, ComplaintParts;
    LabelsDiffer();
    var tag := Ascii("corona.reshare.exchange-transcript.v1");
    var ids, ids' := SortedIds(x.digests), SortedIds(y.digests);
    SplitEqual([tag, Ascii("commit_count"), Enc32(|x.digests|)], [tag, Ascii("commit_count"), Enc32(|y.digests|)],
               Commits(x.digests, ids) + ComplaintParts(x), Commits(y.digests, ids') + ComplaintParts(y));
    CommitsSplit(x.digests, ids, y.digests, ids', ComplaintParts(x), ComplaintParts(y));
    assert x.digests.Keys == y.digests.Keys;
    forall id | id in x.digests ensures x.digests[id] == y.digests[id] {
      assert id in Elements(ids);
      var i :| 0 <= i < |ids| && ids[i] == id;
    }
    assert x.digests == y.digests;
  }

  /** The part lists of two exchanges are equal exactly when the digest tables and complaint lists are equal and the
      disqualified and qualified lists hold the same ids, in whatever order. */
  lemma ExchangePartsIff(x: ReshareTranscript, y: ReshareTranscript)
    requires IsTranscript(x) && IsTranscript(y)
    ensures ExchangeParts(x) == ExchangeParts(y) <==>
            && x.digests == y.digests && x.complaints == y.complaints
            && multiset(x.disqualified) == multiset(y.disqualified) && multiset(x.qualified) == multiset(y.qualified)
  {
    hide Ascii, Enc32, Commits, Section, EncIds;
    if ExchangeParts(x) == ExchangeParts(y) {
      CommitSplit(x, y);
      ComplaintSplit(x, y);
      DisqualifiedSplit(x, y);
      QualifiedSplit(x, y);
    }
    SortedOfIff(x.disqualified, y.disqualified);
    SortedOfIff(x.qualified, y.qualified);
    SortedLength(x.disqualified);
    SortedLength(y.disqualified);
    SortedLength(x.qualified);
    SortedLength(y.qualified);
  }
}
