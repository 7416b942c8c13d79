/** Coefficient rounding and restoring at the parameters of the signature scheme. */
module Rounding {
  const Q := 0x1000000004A01
  const QNu := 0x80000
  const QXi := 0x40000
  const Nu := 29
  const Xi := 30
  const WORD := 0x1_0000_0000_0000_0000

  type Word = x: int | 0 <= x < WORD

  /** The two rounding amounts the scheme uses: Nu for commitments, Xi for the public key. */
  predicate IsShift(k: int) {
    k == Nu || k == Xi
  }

  /** 2^k. */
  function Step(k: int): (s: Word)
    requires IsShift(k)
    ensures s * Modulus(k) == 0x1000000000000
  {
    if k == Nu then 0x20000000 else 0x40000000
  }

  /** The modulus the rounded values are read in. */
  function Modulus(k: int): Word
    requires IsShift(k)
  {
    if k == Nu then QNu else QXi
  }

  /** (coeff + (1 << (k-1))) >> k on a 64-bit word. */
  function Round(x: Word, k: int): Word
    requires IsShift(k)
  {
    if k == Nu then ((x + 0x10000000) % WORD) / 0x20000000
    else ((x + 0x20000000) % WORD) / 0x40000000
  }

  /** coeff << k on a 64-bit word. */
  function Restore(x: Word, k: int): Word
    requires IsShift(k)
  {
    if k == Nu then (x * 0x20000000) % WORD else (x * 0x40000000) % WORD
  }

  function Abs(x: int): nat {
    if x < 0 then -x else x
  }

  /** Distance on a circle of circumference m, for points at most m apart. */
  function CircDist(x: int, y: int, m: int): int {
    var d := Abs(x - y);
    if d <= m - d then d else m - d
  }

  function CeilDiv(d: int, s: int): int
    requires s > 0
  {
    (d + s - 1) / s
  }

  /** RoundCoefficients. */
  method RoundCoefficients(poly: seq<Word>, k: int) returns (rounded: seq<Word>)
    requires IsShift(k)
    ensures |rounded| == |poly| && forall i :: 0 <= i < |poly| ==> rounded[i] == Round(poly[i], k)
  {
    rounded := [];
    for i := 0 to |poly|
      invariant |rounded| == i && forall j :: 0 <= j < i ==> rounded[j] == Round(poly[j], k)
    {
      rounded := rounded + [Round(poly[i], k)];
    }
  }

  /** RestoreCoefficients. */
  method RestoreCoefficients(poly: seq<Word>, k: int) returns (restored: seq<Word>)
    requires IsShift(k)
    ensures |restored| == |poly| && forall i :: 0 <= i < |poly| ==> restored[i] == Restore(poly[i], k)
  {
    restored := [];
    for i := 0 to |poly|
      invariant |restored| == i && forall j :: 0 <= j < i ==> restored[j] == Restore(poly[j], k)
    {
      restored := restored + [Restore(poly[i], k)];
    }
  }

  /** Rounded coefficients lie in [0, Modulus] and hit the modulus itself exactly on the top half step. */
  lemma RoundRange(x: Word, k: int)
    requires IsShift(k) && x < Q
    ensures 0 <= Round(x, k) <= Modulus(k)
    ensures Round(x, k) == Modulus(k) <==> x >= 0x1000000000000 - Step(k) / 2
  {
  }

  /** Restoring a rounded coefficient stays below q and within half a step of the original. */
  lemma RestoreClose(x: Word, k: int)
    requires IsShift(k) && x < Q
    ensures Restore(Round(x, k), k) == Round(x, k) * Step(k) < Q
    ensures Abs(Restore(Round(x, k), k) - x) <= Step(k) / 2
  {
  }

  /** Rounding undoes restoring, for every value a rounding can produce. */
  lemma RoundRestore(y: Word, k: int)
    requires IsShift(k) && y <= Modulus(k)
    ensures Round(Restore(y, k), k) == y
  {
  }

  lemma RoundMonotone(x: Word, y: Word, k: int)
    requires IsShift(k) && x <= y < Q
    ensures 0 <= Round(y, k) - Round(x, k) <= CeilDiv(y - x, Step(k))
  {
    if k == Nu {
      assert CeilDiv(y - x, Step(k)) == (y - x + 0x1FFFFFFF) / 0x20000000;
    } else {
      assert CeilDiv(y - x, Step(k)) == (y - x + 0x3FFFFFFF) / 0x40000000;
    }
  }

  lemma RoundWraps(x: Word, y: Word, k: int)
    requires IsShift(k) && x <= y < Q
    ensures Modulus(k) - (Round(y, k) - Round(x, k)) <= CeilDiv(Q - (y - x), Step(k))
  {
    if k == Nu {
      assert CeilDiv(Q - (y - x), Step(k)) == (Q - (y - x) + 0x1FFFFFFF) / 0x20000000;
    } else {
      assert CeilDiv(Q - (y - x), Step(k)) == (Q - (y - x) + 0x3FFFFFFF) / 0x40000000;
    }
  }

  /** Coefficients at circular distance d modulo q round to values at circular distance at most
      ceil(d / 2^k) modulo the rounding modulus, across the wrap at q as well. */
  lemma RoundLipschitz(x: Word, y: Word, k: int)
    requires IsShift(k) && x < Q && y < Q
    ensures CircDist(Round(x, k), Round(y, k), Modulus(k)) <= CeilDiv(CircDist(x, y, Q), Step(k))
  {
    if x <= y {
      RoundMonotone(x, y, k);
      RoundWraps(x, y, k);
    } else {
      RoundMonotone(y, x, k);
      RoundWraps(y, x, k);
    }
  }
}
