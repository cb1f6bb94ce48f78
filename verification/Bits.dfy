// Powers of two, population counts and bit masks on natural numbers, as the
// 64-bit helpers of blake3_impl.h compute them. Everything recurses on n / 2,
// so that the arithmetic stays linear.
module Bits {
  import opened Sequences

  predicate IsPow2(n: nat) {
    n == 1 || (n > 1 && n % 2 == 0 && IsPow2(n / 2))
  }

  /** Largest power of two that is at most n; 1 when n is 0. */
  function RoundDown(n: nat): (p: nat)
    ensures IsPow2(p)
    ensures 1 <= p
    ensures n >= 1 ==> p <= n < 2 * p
  {
    if n <= 1 then 1 else 2 * RoundDown(n / 2)
  }

  /** Number of one bits. */
  function PopCnt(n: nat): nat {
    if n == 0 then 0 else n % 2 + PopCnt(n / 2)
  }

  /** Bitwise and. */
  function BitAnd(a: nat, b: nat): nat {
    if a == 0 || b == 0 then 0 else 2 * BitAnd(a / 2, b / 2) + if a % 2 == 1 && b % 2 == 1 then 1 else 0
  }

  /** The power of two p divides n. */
  predicate Aligned(n: nat, p: nat)
    requires IsPow2(p)
  {
    p == 1 || (n % 2 == 0 && Aligned(n / 2, p / 2))
  }

  lemma {:induction false} RoundDownUnique(n: nat, p: nat)
    requires IsPow2(p) && p <= n < 2 * p
    ensures p == RoundDown(n)
  {
    if n > 1 && p > 1 {
      RoundDownUnique(n / 2, p / 2);
    }
  }

  lemma {:induction false} Pow2Aligned(p: nat, q: nat)
    requires IsPow2(p) && IsPow2(q) && p <= q
    ensures Aligned(q, p)
  {
    if p > 1 {
      Pow2Aligned(p / 2, q / 2);
    }
  }

  lemma {:induction false} AlignedZero(p: nat)
    requires IsPow2(p)
    ensures Aligned(0, p)
  {
    if p > 1 {
      AlignedZero(p / 2);
    }
  }

  lemma {:induction false} AlignedSum(a: nat, b: nat, p: nat)
    requires IsPow2(p) && Aligned(a, p) && Aligned(b, p)
    ensures Aligned(a + b, p)
    ensures b <= a ==> Aligned(a - b, p)
  {
    if p > 1 {
      AlignedSum(a / 2, b / 2, p / 2);
      assert (a + b) / 2 == a / 2 + b / 2;
      if b <= a {
        assert (a - b) / 2 == a / 2 - b / 2;
      }
    }
  }

  // Two multiples of p that differ, differ by at least p.
  lemma {:induction false} AlignedGap(a: nat, b: nat, p: nat)
    requires IsPow2(p) && Aligned(a, p) && Aligned(b, p) && a < b
    ensures a + p <= b
  {
    if p > 1 {
      AlignedGap(a / 2, b / 2, p / 2);
    }
  }

  // A multiple of p is either a multiple of 2p or p more than one.
  lemma {:induction false} AlignedStep(n: nat, p: nat)
    requires IsPow2(p)
    ensures IsPow2(2 * p)
    ensures Aligned(n, 2 * p) ==> Aligned(n, p)
    ensures Aligned(n, p) && !Aligned(n, 2 * p) ==> p <= n && Aligned(n - p, 2 * p)
  {
    assert (2 * p) / 2 == p;
    if p > 1 {
      AlignedStep(n / 2, p / 2);
      assert 2 * (p / 2) == p;
      if Aligned(n, p) && !Aligned(n, 2 * p) {
        assert (n - p) / 2 == n / 2 - p / 2;
        assert (n - p) % 2 == 0;
        assert Aligned((n - p) / 2, p);
      }
    } else {
      assert Aligned(n / 2, 1);
      assert n % 2 == 1 ==> (n - 1) % 2 == 0 && Aligned((n - 1) / 2, 1);
    }
  }

  lemma {:induction false} AlignedWeaker(n: nat, p: nat, q: nat)
    requires IsPow2(p) && IsPow2(q) && p <= q && Aligned(n, q)
    ensures Aligned(n, p)
  {
    if p > 1 {
      AlignedWeaker(n / 2, p / 2, q / 2);
    }
  }

  lemma {:induction false} AlignedScale(n: nat, p: nat)
    requires IsPow2(p)
    ensures IsPow2(1024 * p)
    ensures Aligned(1024 * n, 1024 * p) <==> Aligned(n, p)
  {
    hide IsPow2, Aligned;
    AlignedTimes32(n, p);
    AlignedTimes32(32 * n, 32 * p);
  }

  lemma {:induction false} AlignedTimes32(n: nat, p: nat)
    requires IsPow2(p)
    ensures IsPow2(32 * p)
    ensures Aligned(32 * n, 32 * p) <==> Aligned(n, p)
  {
    hide IsPow2, Aligned;
    AlignedDouble(n, p);
    AlignedDouble(2 * n, 2 * p);
    AlignedDouble(4 * n, 4 * p);
    AlignedDouble(8 * n, 8 * p);
    AlignedDouble(16 * n, 16 * p);
  }

  lemma {:induction false} AlignedDouble(n: nat, p: nat)
    requires IsPow2(p)
    ensures IsPow2(2 * p)
    ensures Aligned(2 * n, 2 * p) <==> Aligned(n, p)
  {
    assert (2 * n) / 2 == n && (2 * n) % 2 == 0;
    assert (2 * p) / 2 == p && (2 * p) % 2 == 0;
  }

  // The mask test of the update loop is the divisibility test.
  lemma {:induction false} MaskIsAlignment(p: nat, n: nat)
    requires IsPow2(p)
    ensures BitAnd(p - 1, n) == 0 <==> Aligned(n, p)
  {
    if p > 1 && n > 0 {
      MaskIsAlignment(p / 2, n / 2);
      assert (p - 1) / 2 == p / 2 - 1;
      assert (p - 1) % 2 == 1;
      if p == 2 {
        assert BitAnd(0, n / 2) == 0;
      }
    } else if n == 0 {
      AlignedZero(p);
    }
  }

  // x & (x - 1) clears exactly one bit: the step of the portable popcnt loop.
  lemma {:induction false} ClearLowestBit(x: nat)
    requires x > 0
    ensures PopCnt(BitAnd(x, x - 1)) == PopCnt(x) - 1
    ensures BitAnd(x, x - 1) < x
  {
    hide BitAnd, PopCnt;
    BitAndHalves(x, x - 1);
    var rest := BitAnd(x, x - 1);
    PopCntHalves(rest);
    PopCntHalves(x);
    if x % 2 == 1 {
      BitAndSelf(x / 2);
      assert rest == 2 * (x / 2);
    } else {
      assert (x - 1) / 2 == x / 2 - 1;
      ClearLowestBit(x / 2);
      assert rest == 2 * BitAnd(x / 2, x / 2 - 1);
    }
  }

  lemma {:induction false} BitAndHalves(a: nat, b: nat)
    ensures BitAnd(a, b) == 2 * BitAnd(a / 2, b / 2) + if a % 2 == 1 && b % 2 == 1 then 1 else 0
  {
  }

  lemma {:induction false} PopCntHalves(x: nat)
    ensures PopCnt(x) == x % 2 + PopCnt(x / 2)
  {
  }

  lemma {:induction false} BitAndSelf(x: nat)
    ensures BitAnd(x, x) == x
  {
    if x > 0 {
      BitAndSelf(x / 2);
    }
  }

  /** The portable popcnt: one loop turn per one bit. */
  method PopCntLoop(x: nat) returns (count: nat)
    ensures count == PopCnt(x)
  {
    count := 0;
    var rest := x;
    while rest != 0
      invariant count + PopCnt(rest) == PopCnt(x)
      decreases rest
    {
      count := count + 1;
      ClearLowestBit(rest);
      rest := BitAnd(rest, rest - 1);
    }
  }

  // ---------- binary decomposition ----------

  function Sum(s: seq<nat>): nat {
    if s == [] then 0 else s[0] + Sum(s[1..])
  }

  lemma {:induction false} SumAppend(s: seq<nat>, t: seq<nat>)
    ensures Sum(s + t) == Sum(s) + Sum(t)
  {
    if s == [] {
      assert s + t == t;
    } else {
      SumAppend(s[1..], t);
      assert (s + t)[1..] == s[1..] + t;
    }
  }

  /** The powers of two that make up n, largest first. */
  function Decompose(n: nat): (s: seq<nat>)
    ensures Sum(s) == n
    ensures forall d :: d in s ==> 1 <= d && IsPow2(d)
  {
    if n == 0 then [] else [RoundDown(n)] + Decompose(n - RoundDown(n))
  }

  lemma {:induction false} DecomposeLength(n: nat)
    ensures |Decompose(n)| == PopCnt(n)
  {
    if n > 0 {
      var p := RoundDown(n);
      DecomposeLength(n - p);
      PopCntTopBit(n);
    }
  }

  lemma {:induction false} PopCntTopBit(n: nat)
    requires n > 0
    ensures PopCnt(n) == 1 + PopCnt(n - RoundDown(n))
  {
    if n > 1 {
      PopCntTopBit(n / 2);
      assert (n - RoundDown(n)) / 2 == n / 2 - RoundDown(n / 2);
      assert (n - RoundDown(n)) % 2 == n % 2;
    }
  }

  lemma {:induction false} DecomposeSnoc(m: nat, h: nat)
    requires IsPow2(h) && IsPow2(2 * h) && Aligned(m, 2 * h)
    ensures Decompose(m + h) == Decompose(m) + [h]
  {
    hide Aligned, IsPow2, Decompose, RoundDown, Sum;
    Pow2Positive(h);
    DecomposeTop(m + h);
    if m == 0 {
      RoundDownUnique(h, h);
      DecomposeNothing();
      JoinNothing(h);
    } else {
      var p := RoundDown(m);
      DecomposeTop(m);
      TopPart(m, h);
      DecomposeSnoc(m - p, h);
      assert m + h - p == (m - p) + h;
      ConcatAssoc([p], Decompose(m - p), [h]);
    }
  }

  lemma {:induction false} Pow2Positive(p: nat)
    requires IsPow2(p)
    ensures p > 0
  {
  }

  lemma {:induction false} JoinNothing(h: nat)
    ensures [h] + [] == [] + [h]
  {
  }

  lemma {:induction false} DecomposeTop(n: nat)
    requires n > 0
    ensures Decompose(n) == [RoundDown(n)] + Decompose(n - RoundDown(n))
  {
  }

  lemma {:induction false} DecomposeNothing()
    ensures Decompose(0) == []
  {
  }

  // Adding h below the alignment of m leaves the largest part of m in place.
  lemma {:induction false} TopPart(m: nat, h: nat)
    requires m > 0 && IsPow2(h) && IsPow2(2 * h) && Aligned(m, 2 * h)
    ensures RoundDown(m + h) == RoundDown(m)
    ensures Aligned(m - RoundDown(m), 2 * h)
  {
    var p := RoundDown(m);
    AlignedZero(2 * h);
    AlignedGap(0, m, 2 * h);
    RoundDownBound(m, 2 * h);
    Pow2Aligned(2 * h, p);
    AlignedSum(m, p, 2 * h);
    Pow2Aligned(2 * h, 2 * p);
    AlignedGap(m, 2 * p, 2 * h);
    RoundDownUnique(m + h, p);
  }

  lemma {:induction false} RoundDownBound(m: nat, q: nat)
    requires IsPow2(q) && q <= m
    ensures RoundDown(m) >= q
  {
    if q > 1 {
      RoundDownBound(m / 2, q / 2);
    }
  }

  lemma {:induction false} PopCntSnoc(m: nat, h: nat)
    requires IsPow2(h) && IsPow2(2 * h) && Aligned(m, 2 * h)
    ensures PopCnt(m + h) == PopCnt(m) + 1
  {
    DecomposeSnoc(m, h);
    DecomposeLength(m);
    DecomposeLength(m + h);
  }

  // Adding an aligned power of two never raises the bit count by more than one.
  lemma {:induction false} PopCntAdd(m: nat, h: nat)
    requires IsPow2(h) && Aligned(m, h)
    ensures PopCnt(m + h) <= PopCnt(m) + 1
    decreases m
  {
    AlignedStep(m, h);
    if Aligned(m, 2 * h) {
      PopCntSnoc(m, h);
    } else {
      PopCntSnoc(m - h, h);
      PopCntAdd(m - h, 2 * h);
      assert m - h + 2 * h == m + h && m - h + h == m;
    }
  }

  // Each part is at least the sum of the later parts plus any common alignment.
  lemma {:induction false} DecomposeDominates(m: nat, g: nat, i: nat)
    requires IsPow2(g) && Aligned(m, g)
    requires i < |Decompose(m)|
    ensures Decompose(m)[i] >= m - Sum(Decompose(m)[..i + 1]) + g
    ensures Sum(Decompose(m)[..i + 1]) <= m
  {
    var p := RoundDown(m);
    var rest := Decompose(m - p);
    TopGap(m, g);
    assert Decompose(m) == [p] + rest;
    if i == 0 {
      assert Decompose(m)[..1] == [p];
    } else {
      DecomposeDominates(m - p, g, i - 1);
      assert Decompose(m)[..i + 1] == [p] + rest[..i];
      SumAppend([p], rest[..i]);
    }
  }

  lemma {:induction false} TopGap(m: nat, g: nat)
    requires m > 0 && IsPow2(g) && Aligned(m, g)
    ensures var p := RoundDown(m); Aligned(m - p, g) && m - p + g <= p
  {
    hide Aligned;
    var p := RoundDown(m);
    AlignedZero(g);
    AlignedGap(0, m, g);
    RoundDownBound(m, g);
    Pow2Aligned(g, p);
    AlignedSum(m, p, g);
    AlignedGap(m - p, p, g);
  }

  lemma {:induction false} PopCntBound(n: nat, k: nat)
    requires n < Exp2(k)
    ensures PopCnt(n) <= k
  {
    if n > 0 {
      PopCntBound(n / 2, k - 1);
    }
  }

  function Exp2(k: nat): nat {
    if k == 0 then 1 else 2 * Exp2(k - 1)
  }

  lemma {:induction false} Exp2Of54()
    ensures Exp2(54) == 0x40_0000_0000_0000
  {
    assert Exp2(6) == 0x40;
    assert Exp2(12) == 0x1000;
    assert Exp2(18) == 0x4_0000;
    assert Exp2(24) == 0x100_0000;
    assert Exp2(30) == 0x4000_0000;
    assert Exp2(36) == 0x10_0000_0000;
    assert Exp2(42) == 0x400_0000_0000;
    assert Exp2(48) == 0x1_0000_0000_0000;
  }

  // A power of two of at least 1024 is 1024 times a power of two.
  lemma {:induction false} Pow2Chunks(q: nat)
    requires IsPow2(q) && q >= 1024
    ensures q % 1024 == 0 && IsPow2(q / 1024)
    ensures q > 1024 ==> q / 2 >= 1024 && IsPow2(q / 2) && q / 1024 > 1
  {
    hide IsPow2;
    var q1 := Half(q, 1024);
    var q2 := Half(q1, 512);
    var q3 := Half(q2, 256);
    var q4 := Half(q3, 128);
    var q5 := Half(q4, 64);
    var q6 := Half(q5, 32);
    var q7 := Half(q6, 16);
    var q8 := Half(q7, 8);
    var q9 := Half(q8, 4);
    var q10 := Half(q9, 2);
    assert q == 1024 * q10;
  }

  lemma {:induction false} Half(q: nat, b: nat) returns (h: nat)
    requires IsPow2(q) && q >= b > 1
    ensures q == 2 * h && IsPow2(h) && h >= b / 2 && h == q / 2
  {
    h := q / 2;
  }
}
