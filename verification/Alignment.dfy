/** Rounding to alignments in 64-bit arithmetic. */
module Alignments {
  import opened Words

  /** The value of a 64-bit word after wrap-around. */
  function Word(x: int): (w: int)
    ensures 0 <= w < WORD64
    ensures 0 <= x < WORD64 ==> w == x
  {
    x % WORD64
  }

  /** The largest multiple of `a` that is at most `x`. */
  function RoundDown(x: int, a: int): (r: int)
    requires 0 <= x && a > 0
    ensures 0 <= r <= x < r + a
  {
    if x < a then 0 else a + RoundDown(x - a, a)
  }

  /** Rounds a word up to a multiple of a power of two, wrapping at the top of the 64-bit range. */
  function AlignUp(value: int, a: int): (r: int)
    requires a > 0
    ensures 0 <= r < WORD64
    ensures 0 <= value && value + a - 1 < WORD64 ==> value <= r < value + a
  {
    RoundDown(Word(value + a - 1), a)
  }

  lemma {:induction false} RoundDownMultiple(x: int, a: int) returns (q: int)
    requires 0 <= x && a > 0
    ensures RoundDown(x, a) == a * q
  {
    q := 0;
    if x >= a {
      q := RoundDownMultiple(x - a, a);
      q := q + 1;
    }
  }

  /** Rounding down by counting is clearing the remainder. */
  lemma RoundDownIsMod(x: int, a: int)
    requires 0 <= x && a > 0
    ensures RoundDown(x, a) == x - x % a
    ensures RoundDown(x, a) % a == 0
  {
    var q := RoundDownMultiple(x, a);
    ModUnique(q, x - RoundDown(x, a), a);
    ModUnique(q, 0, a);
  }

  function Pow2(k: nat): (p: int)
    ensures p >= 1
  {
    if k == 0 then 1 else 2 * Pow2(k - 1)
  }

  /** The bits that two numbers have in common. */
  function And(x: nat, y: nat): nat {
    if x == 0 || y == 0 then 0
    else 2 * And(x / 2, y / 2) + if x % 2 == 1 && y % 2 == 1 then 1 else 0
  }

  lemma {:induction false} AllBits(x: nat, n: nat)
    requires x < Pow2(n)
    ensures And(x, Pow2(n) - 1) == x
    decreases n
  {
    if x != 0 {
      assert (Pow2(n) - 1) / 2 == Pow2(n - 1) - 1;
      AllBits(x / 2, n - 1);
    }
  }

  lemma {:induction false} RoundDownHalves(x: nat, p: int)
    requires p > 0
    ensures RoundDown(x, 2 * p) == 2 * RoundDown(x / 2, p)
  {
    if x >= 2 * p {
      RoundDownHalves(x - 2 * p, p);
      assert (x - 2 * p) / 2 == x / 2 - p;
    }
  }

  /** Masking the low `k` of `n` bits away rounds down to a multiple of two to the power `k`. */
  lemma {:induction false} MaskRoundsDown(x: nat, k: nat, n: nat)
    requires k <= n && x < Pow2(n)
    ensures Pow2(k) <= Pow2(n) && And(x, Pow2(n) - Pow2(k)) == RoundDown(x, Pow2(k))
    decreases k
  {
    if k == 0 {
      AllBits(x, n);
      RoundDownToOne(x);
    } else {
      MaskRoundsDown(x / 2, k - 1, n - 1);
      RoundDownHalves(x, Pow2(k - 1));
      assert (Pow2(n) - Pow2(k)) / 2 == Pow2(n - 1) - Pow2(k - 1);
    }
  }

  lemma {:induction false} RoundDownToOne(x: nat)
    ensures RoundDown(x, 1) == x
  {
    if x > 0 {
      RoundDownToOne(x - 1);
    }
  }

  /** The alignments a caller may pass once the minimum is enforced: powers of two that fit a signed
      32-bit number. */
  ghost predicate Alignment(a: int) {
    4 <= a <= 0x4000_0000 && exists k: nat :: 2 <= k <= 30 && a == Pow2(k)
  }

  lemma Pow2Times16(k: nat)
    ensures Pow2(k + 4) == 16 * Pow2(k)
  {
    assert Pow2(k + 2) == 4 * Pow2(k);
  }

  lemma {:induction false} Pow2Divides(k: nat, n: nat) returns (q: int)
    requires k <= n
    ensures q * Pow2(k) == Pow2(n) && q >= 1
  {
    if k == n {
      q := 1;
    } else {
      q := Pow2Divides(k, n - 1);
      MulAssoc(2, q, Pow2(k));
      q := 2 * q;
    }
  }

  /** Every alignment divides two to the thirtieth. */
  lemma AlignmentDivides(a: int) returns (q: int)
    requires Alignment(a)
    ensures q * a == 0x4000_0000 && q >= 1
  {
    var k: nat :| 2 <= k <= 30 && a == Pow2(k);
    assert Pow2(2) == 4;
    Pow2Times16(2);
    Pow2Times16(6);
    Pow2Times16(10);
    Pow2Times16(14);
    Pow2Times16(18);
    Pow2Times16(22);
    Pow2Times16(26);
    q := Pow2Divides(k, 30);
  }

  /** An aligned word leaves room for the bytes an alignment can skip: adding them never wraps. */
  lemma AlignedLeavesRoom(value: int, a: int)
    requires Alignment(a)
    ensures AlignUp(value, a) + a - 1 < WORD64
  {
    var q := AlignmentDivides(a);
    var top := 0x4_0000_0000 * q;
    MulAssoc(0x4_0000_0000, q, a);
    var m := RoundDownMultiple(Word(value + a - 1), a);
    MultipleBelow(m, top, a);
  }

  /** Of two multiples the smaller one is smaller by at least one step. */
  lemma MultipleBelow(m: int, top: int, a: int)
    requires a > 0 && m * a < top * a
    ensures m * a + a <= top * a
  {
    if m >= top {
      MulMono(top, m, a);
    }
    MulMono(m + 1, top, a);
    MulStep(m, a);
  }

  lemma MulStep(m: int, a: int)
    ensures (m + 1) * a == m * a + a
  {
  }

  lemma MulAssoc(x: int, y: int, z: int)
    ensures (x * y) * z == x * (y * z)
  {
  }

  lemma MulMono(x: int, y: int, a: int)
    requires x <= y && a > 0
    ensures x * a <= y * a
  {
  }

  lemma ModUnique(q: int, r: int, a: int)
    requires a > 0 && 0 <= r < a
    ensures (a * q + r) % a == r
  {
    var x := a * q + r;
    var d := q - x / a;
    assert x == a * (x / a) + x % a;
    assert a * d == x % a - r;
    if d >= 1 { MulMono(1, d, a); } else if d <= -1 { MulMono(d, -1, a); }
  }

  lemma AlignedIsMultiple(value: int, a: int)
    requires a > 0
    ensures AlignUp(value, a) % a == 0
  {
    RoundDownIsMod(Word(value + a - 1), a);
  }

  /** Rounding up leaves a multiple as it is. */
  lemma MultipleAligned(value: int, a: int)
    requires a > 0 && value % a == 0 && 0 <= value && value + a - 1 < WORD64
    ensures AlignUp(value, a) == value
  {
    assert value == a * (value / a);
    var raised := value + a - 1;
    assert raised == a * (value / a) + (a - 1);
    ModUnique(value / a, a - 1, a);
    RoundDownIsMod(raised, a);
  }

  lemma RoundingFits(value: int, a: int)
    requires a > 0 && 0 <= value && value + a - 1 < WORD64
    ensures AlignUp(value, a) <= value <==> value % a == 0
  {
    AlignedIsMultiple(value, a);
    if value % a == 0 {
      MultipleAligned(value, a);
    }
  }

  /** Rounding a size within one alignment of the top of the 64-bit range wraps to zero bytes. */
  lemma WrappedRequest(size: int, a: int)
    requires Alignment(a) && WORD64 - a < size < WORD64
    ensures AlignUp(size, a) == 0
  {
    assert Word(size + a - 1) == size + a - 1 - WORD64;
  }

  /** Rounding up is adding the alignment less one, and masking the bits below the alignment away. */
  lemma AlignUpIsMask(value: int, a: int)
    requires Alignment(a)
    ensures AlignUp(value, a) == And(Word(value + a - 1), WORD64 - a)
  {
    var k: nat :| 2 <= k <= 30 && a == Pow2(k);
    WordIsPow2();
    MaskRoundsDown(Word(value + a - 1), k, 64);
  }

  lemma WordIsPow2()
    ensures Pow2(64) == WORD64
  {
    Pow2Times16(0);
    Pow2Times16(4);
    Pow2Times16(8);
    Pow2Times16(12);
    Pow2Times16(16);
    Pow2Times16(20);
    Pow2Times16(24);
    Pow2Times16(28);
    Pow2Times16(32);
    Pow2Times16(36);
    Pow2Times16(40);
    Pow2Times16(44);
    Pow2Times16(48);
    Pow2Times16(52);
    Pow2Times16(56);
    Pow2Times16(60);
  }
}
