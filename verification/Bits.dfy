/** Bits of natural numbers, with the shift, mask and OR of the source's unsigned arithmetic.  Every
    operation is defined by halving, so each law is a short induction.
 */
module Bits {

  /** Bit `j` of `x`. */
  predicate Bit(x: nat, j: nat) {
    if j == 0 then x % 2 == 1 else Bit(x / 2, j - 1)
  }

  function Shr(x: nat, k: nat): (r: nat)
    ensures r <= x
  {
    if k == 0 then x else Shr(x / 2, k - 1)
  }

  function Shl(x: nat, k: nat): nat { if k == 0 then x else 2 * Shl(x, k - 1) }

  /** The low `m` bits: `x & (2^m - 1)`, and truncation to `m` bits. */
  function Low(x: nat, m: nat): nat { if m == 0 then 0 else x % 2 + 2 * Low(x / 2, m - 1) }

  function Or(a: nat, b: nat): nat {
    if a == 0 && b == 0 then 0
    else (if a % 2 == 1 || b % 2 == 1 then 1 else 0) + 2 * Or(a / 2, b / 2)
  }

  function Pow2(k: nat): (r: nat)
    ensures r > 0
  {
    if k == 0 then 1 else 2 * Pow2(k - 1)
  }

  lemma {:induction false} BitShr(x: nat, k: nat, j: nat)
    ensures Bit(Shr(x, k), j) == Bit(x, k + j)
  {
    if k > 0 { BitShr(x / 2, k - 1, j); }
  }

  lemma {:induction false} BitShl(x: nat, k: nat, j: nat)
    ensures Bit(Shl(x, k), j) == (j >= k && Bit(x, j - k))
  {
    if k > 0 {
      var y := Shl(x, k - 1);
      assert (2 * y) / 2 == y;
      if j > 0 { BitShl(x, k - 1, j - 1); }
    }
  }

  lemma {:induction false} BitLow(x: nat, m: nat, j: nat)
    ensures Bit(Low(x, m), j) == (j < m && Bit(x, j))
  {
    if m == 0 {
      BitZero(j);
    } else if j > 0 {
      var y := Low(x / 2, m - 1);
      assert (x % 2 + 2 * y) / 2 == y;
      BitLow(x / 2, m - 1, j - 1);
    }
  }

  lemma {:induction false} BitZero(j: nat)
    ensures !Bit(0, j)
  {
    if j > 0 { BitZero(j - 1); }
  }

  lemma {:induction false} BitOr(a: nat, b: nat, j: nat)
    ensures Bit(Or(a, b), j) == (Bit(a, j) || Bit(b, j))
    decreases j
  {
    if a == 0 && b == 0 {
      BitZero(j);
    } else {
      var y := Or(a / 2, b / 2);
      var h := if a % 2 == 1 || b % 2 == 1 then 1 else 0;
      assert (h + 2 * y) % 2 == h && (h + 2 * y) / 2 == y;
      if j > 0 { BitOr(a / 2, b / 2, j - 1); }
    }
  }

  /** Numbers with the same bits are equal. */
  lemma {:induction false} SameBits(x: nat, y: nat)
    requires forall j: nat :: Bit(x, j) == Bit(y, j)
    ensures x == y
    decreases x + y
  {
    if x != 0 || y != 0 {
      assert Bit(x, 0) == Bit(y, 0);
      forall j: nat ensures Bit(x / 2, j) == Bit(y / 2, j) {
        assert Bit(x, j + 1) == Bit(y, j + 1);
      }
      SameBits(x / 2, y / 2);
    }
  }

  lemma {:induction false} LowIsMod(x: nat, m: nat)
    ensures Low(x, m) == x % Pow2(m)
  {
    if m > 0 {
      LowIsMod(x / 2, m - 1);
      HalveMod(x, Pow2(m - 1));
    }
  }

  lemma HalveMod(x: nat, p: nat)
    requires p > 0
    ensures x % 2 + 2 * ((x / 2) % p) == x % (2 * p)
  {
    var q, r := (x / 2) / p, (x / 2) % p;
    assert x / 2 == q * p + r;
    var s := x % 2 + 2 * r;
    assert x == q * (2 * p) + s;
    ModUnique(x, 2 * p, q, s);
  }

  lemma ModUnique(x: nat, m: nat, q: nat, s: nat)
    requires m > 0 && x == q * m + s && s < m
    ensures x % m == s
  {
    var q', s' := x / m, x % m;
    DivisionLaw(x, m);
    Distribute(q', q, m);
    if q' - q >= 1 {
      AtLeastOnce(q' - q, m);
    } else if q - q' >= 1 {
      Distribute(q, q', m);
      AtLeastOnce(q - q', m);
    }
  }

  lemma QuotientUnique(x: nat, m: nat, q: nat, s: nat)
    requires m > 0 && x == q * m + s && s < m
    ensures x / m == q
  {
    var q' := x / m;
    DivisionLaw(x, m);
    ModUnique(x, m, q, s);
    Distribute(q', q, m);
    if q' - q >= 1 {
      AtLeastOnce(q' - q, m);
    } else if q - q' >= 1 {
      Distribute(q, q', m);
      AtLeastOnce(q - q', m);
    }
  }

  lemma DivideTwice(n: nat, a: nat, b: nat)
    requires a > 0 && b > 0
    ensures a * b > 0 && n / a / b == n / (a * b)
  {
    var q, r := n / a, n % a;
    var x, y := q / b, q % b;
    DivisionLaw(n, a);
    DivisionLaw(q, b);
    Regroup(x, y, r, a, b);
    AtLeastOnce(b, a);
    AtLeastOnce(b - y, a);
    Distribute(b, y, a);
    QuotientUnique(n, a * b, x, y * a + r);
  }

  lemma Regroup(x: nat, y: nat, r: nat, a: nat, b: nat)
    ensures (x * b + y) * a + r == x * (a * b) + (y * a + r)
  {
  }

  lemma DivisionLaw(x: nat, m: nat)
    requires m > 0
    ensures x == (x / m) * m + x % m
  {
  }

  lemma Distribute(a: int, b: int, m: int)
    ensures (a - b) * m == a * m - b * m
  {
  }

  lemma AtLeastOnce(k: int, m: int)
    requires k >= 1 && m > 0
    ensures k * m >= m
  {
  }

  /** Taking the low bits changes nothing exactly when there are no others. */
  lemma LowKeeps(x: nat, m: nat)
    requires forall j: nat :: j >= m ==> !Bit(x, j)
    ensures Low(x, m) == x
  {
    forall j: nat ensures Bit(Low(x, m), j) == Bit(x, j) { BitLow(x, m, j); }
    SameBits(Low(x, m), x);
  }

  lemma {:induction false} LowBound(x: nat, m: nat)
    ensures Low(x, m) < Pow2(m)
  {
    if m > 0 { LowBound(x / 2, m - 1); }
  }

  lemma {:induction false} SmallHasNoBit(x: nat, m: nat, j: nat)
    requires x < Pow2(m) && j >= m
    ensures !Bit(x, j)
  {
    if m == 0 {
      BitZero(j);
    } else {
      SmallHasNoBit(x / 2, m - 1, j - 1);
    }
  }

  /** `b` in the low `m` bits, `r` above them. */
  lemma {:induction false} BitConcat(b: nat, r: nat, m: nat, p: nat)
    requires b < Pow2(m)
    ensures Bit(b + Shl(r, m), p) == if p < m then Bit(b, p) else Bit(r, p - m)
  {
    if m > 0 {
      var y := Shl(r, m - 1);
      assert (b + 2 * y) % 2 == b % 2 && (b + 2 * y) / 2 == b / 2 + y;
      if p > 0 { BitConcat(b / 2, r, m - 1, p - 1); }
    }
  }

  lemma ShlFive(r: nat)
    ensures Shl(r, 5) == 32 * r && Pow2(5) == 32
  {
    assert Shl(r, 1) == 2 * r && Shl(r, 2) == 4 * r && Shl(r, 3) == 8 * r && Shl(r, 4) == 16 * r;
    assert Pow2(1) == 2 && Pow2(2) == 4 && Pow2(3) == 8 && Pow2(4) == 16;
  }

  lemma ShlEight(r: nat)
    ensures Shl(r, 8) == 256 * r && Pow2(8) == 256
  {
    ShlFive(r);
    assert Shl(r, 6) == 64 * r && Shl(r, 7) == 128 * r;
    assert Pow2(6) == 64 && Pow2(7) == 128;
  }
}
