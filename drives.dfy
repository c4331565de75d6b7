/**
 * `get_logical_drives` (find_jpgs.py:8-12): the `GetLogicalDrives` bitmask,
 * taken here as a parameter, decoded into drive roots "A:\", "B:\", ...
 */
module Drives {

  /** Number of drive letters the loop looks at: `range(26)`. */
  const Letters: nat := 26

  function Pow2(i: nat): (r: nat)
    ensures r >= 1
  {
    if i == 0 then 1 else 2 * Pow2(i - 1)
  }

  /** `bitmask & (1 << i)` is non-zero. */
  predicate BitSet(mask: nat, i: nat) {
    if i == 0 then mask % 2 == 1 else BitSet(mask / 2, i - 1)
  }

  lemma {:induction false} ProductAtLeast(d: nat, k: nat)
    requires k >= 1
    ensures d * k >= d
  {
    if k > 1 {
      ProductAtLeast(d, k - 1);
      assert d * k == d * (k - 1) + d;
    }
  }

  lemma DivisionUnique(m: nat, d: nat, q: nat, r: nat)
    requires d > 0 && m == d * q + r && r < d
    ensures m / d == q
  {
    var q', r' := m / d, m % d;
    assert m == d * q' + r';
    if q > q' {
      ProductAtLeast(d, q - q');
    } else if q < q' {
      ProductAtLeast(d, q' - q);
    }
  }

  lemma HalveThenDivide(m: nat, p: nat)
    requires p > 0
    ensures (m / 2) / p == m / (2 * p)
  {
    var q, r := m / (2 * p), m % (2 * p);
    var h := r / 2;
    assert r == 2 * h + r % 2;
    assert m == 2 * (p * q + h) + r % 2;
    DivisionUnique(m, 2, p * q + h, r % 2);
    assert 0 <= h < p;
    DivisionUnique(m / 2, p, q, h);
  }

  /** The recursive bit test is the arithmetic one: bit i of mask is (mask / 2^i) % 2. */
  lemma {:induction false} BitSetIsArithmetic(mask: nat, i: nat)
    ensures BitSet(mask, i) <==> (mask / Pow2(i)) % 2 == 1
  {
    if i > 0 {
      BitSetIsArithmetic(mask / 2, i - 1);
      HalveThenDivide(mask, Pow2(i - 1));
    }
  }

  /** The root of drive number `i`: `chr(65 + i)` followed by ":\". */
  function DriveRoot(i: nat): (root: string)
    requires i < Letters
    ensures |root| == 3 && 'A' <= root[0] <= 'Z' && root[1..] == ":\\"
  {
    [(65 + i) as char, ':', '\\']
  }

  /** The roots the loop has produced after looking at bits 0 .. n-1. */
  function DrivesBelow(mask: nat, n: nat): (roots: seq<string>)
    requires n <= Letters
    ensures |roots| <= n
    ensures forall k :: 0 <= k < |roots| ==> |roots[k]| == 3 && roots[k][0] as int < 65 + n
  {
    if n == 0 then []
    else DrivesBelow(mask, n - 1) + (if BitSet(mask, n - 1) then [DriveRoot(n - 1)] else [])
  }

  /** The generator's whole output for `mask`. */
  function Drives(mask: nat): seq<string> {
    DrivesBelow(mask, Letters)
  }

  /** The loop of find_jpgs.py:10-12, collecting what it yields. */
  method GetLogicalDrives(mask: nat) returns (roots: seq<string>)
    ensures roots == Drives(mask)
  {
    roots := [];
    for i := 0 to Letters
      invariant roots == DrivesBelow(mask, i)
    {
      if BitSet(mask, i) {
        roots := roots + [DriveRoot(i)];
      }
    }
  }

  /** Exactly one root per set bit among 0 .. n-1, and nothing else. */
  lemma {:induction false} DrivesBelowMembers(mask: nat, n: nat)
    requires n <= Letters
    ensures forall i :: 0 <= i < Letters ==> (DriveRoot(i) in DrivesBelow(mask, n) <==> i < n && BitSet(mask, i))
    ensures forall r :: r in DrivesBelow(mask, n) ==> exists i :: 0 <= i < n && BitSet(mask, i) && r == DriveRoot(i)
  {
    if n > 0 {
      DrivesBelowMembers(mask, n - 1);
      forall i | 0 <= i < Letters && DriveRoot(i) in DrivesBelow(mask, n)
        ensures i < n && BitSet(mask, i)
      {
        if DriveRoot(i) !in DrivesBelow(mask, n - 1) {
          assert DriveRoot(i)[0] == DriveRoot(n - 1)[0];
        }
      }
    }
  }

  /** The roots come in strictly ascending letter order. */
  lemma {:induction false} DrivesBelowAscending(mask: nat, n: nat)
    requires n <= Letters
    ensures forall j, k :: 0 <= j < k < |DrivesBelow(mask, n)| ==> DrivesBelow(mask, n)[j][0] < DrivesBelow(mask, n)[k][0]
  {
    if n > 0 {
      DrivesBelowAscending(mask, n - 1);
    }
  }

  /**
   * The drive roots: "X:\" is listed exactly when bit X - 'A' is set, in
   * ascending letter order, and every listed string is such a root.
   */
  lemma DrivesSpec(mask: nat)
    ensures forall i :: 0 <= i < Letters ==> (DriveRoot(i) in Drives(mask) <==> BitSet(mask, i))
    ensures forall r :: r in Drives(mask) ==> exists i :: 0 <= i < Letters && BitSet(mask, i) && r == DriveRoot(i)
    ensures forall j, k :: 0 <= j < k < |Drives(mask)| ==> Drives(mask)[j][0] < Drives(mask)[k][0]
  {
    DrivesBelowMembers(mask, Letters);
    DrivesBelowAscending(mask, Letters);
  }

  /** Only bits 0 .. 25 are looked at: masks that agree there give the same roots. */
  lemma {:induction false} HighBitsIgnored(m1: nat, m2: nat, n: nat)
    requires n <= Letters
    requires forall i :: 0 <= i < n ==> (BitSet(m1, i) <==> BitSet(m2, i))
    ensures DrivesBelow(m1, n) == DrivesBelow(m2, n)
  {
    if n > 0 {
      HighBitsIgnored(m1, m2, n - 1);
    }
  }

  lemma {:induction false} BitOfPow2(k: nat, i: nat)
    ensures BitSet(Pow2(k), i) <==> i == k
  {
    if i == 0 {
      if k > 0 {
        assert Pow2(k) == 2 * Pow2(k - 1);
      }
    } else if k == 0 {
      assert BitSet(0, i - 1) == false by { BitOfZero(i - 1); }
    } else {
      assert Pow2(k) / 2 == Pow2(k - 1);
      BitOfPow2(k - 1, i - 1);
    }
  }

  lemma {:induction false} BitOfZero(i: nat)
    ensures !BitSet(0, i)
  {
    if i > 0 {
      BitOfZero(i - 1);
    }
  }

  /** A zero mask yields no roots at all. */
  lemma NoDrivesForZeroMask()
    ensures Drives(0) == []
  {
    forall i | 0 <= i < Letters ensures !BitSet(0, i) {
      BitOfZero(i);
    }
    NoneBelow(0, Letters);
  }

  /** A mask with only bit k set yields drive k alone, or nothing when k >= 26. */
  lemma SingleBitMask(k: nat)
    ensures k < Letters ==> Drives(Pow2(k)) == [DriveRoot(k)]
    ensures k >= Letters ==> Drives(Pow2(k)) == []
  {
    forall i | 0 <= i < Letters ensures BitSet(Pow2(k), i) <==> i == k {
      BitOfPow2(k, i);
    }
    forall i | 0 <= i < Letters ensures !BitSet(0, i) {
      BitOfZero(i);
    }
    if k >= Letters {
      HighBitsIgnored(Pow2(k), 0, Letters);
      NoDrivesForZeroMask();
    } else {
      SingleBitBelow(k, Letters);
    }
  }

  lemma {:induction false} SingleBitBelow(k: nat, n: nat)
    requires k < n <= Letters
    requires forall i :: 0 <= i < Letters ==> (BitSet(Pow2(k), i) <==> i == k)
    ensures DrivesBelow(Pow2(k), n) == [DriveRoot(k)]
  {
    if n - 1 == k {
      NoneBelow(Pow2(k), k);
    } else {
      SingleBitBelow(k, n - 1);
    }
  }

  lemma {:induction false} NoneBelow(mask: nat, n: nat)
    requires n <= Letters
    requires forall i :: 0 <= i < n ==> !BitSet(mask, i)
    ensures DrivesBelow(mask, n) == []
  {
    if n > 0 {
      NoneBelow(mask, n - 1);
    }
  }
}
