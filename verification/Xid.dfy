/**
 * DHCP transaction ids: a 32 bit linear congruential generator.  Its period is
 * shown to be exactly 2^32 through the powers of two dividing 1 + a + ... + a^(n-1).
 */
module Xid {
  import opened Arith
  import opened Bytes

  const SEED: u32 := 0x8008a5a5
  const A: nat := 1103515245
  const C: nat := 12345
  const M: nat := 0x1_0000_0000

  function Next(x: u32): u32 {
    (x * A + C) % M
  }

  /** The id drawn `n` calls after the state was `x`. */
  function Draw(x: u32, n: nat): u32 {
    if n == 0 then x else Next(Draw(x, n - 1))
  }

  class Generator {
    var x: u32

    constructor ()
      ensures x == Draw(SEED, 0)
    {
      x := SEED;
    }

    method NextXid() returns (xid: u32)
      modifies this
      ensures xid == x == Next(old(x)) && x == (1103515245 * old(x) + 12345) % 0x1_0000_0000
    {
      x := (x * A + C) % M;
      return x;
    }
  }

  // ---- the closed form ---------------------------------------------------------

  /** A to the power `n`. */
  function Pow(n: nat): nat {
    if n == 0 then 1 else A * Pow(n - 1)
  }

  /** 1 + A + ... + A^(n-1) */
  function Geo(n: nat): nat {
    if n == 0 then 0 else A * Geo(n - 1) + 1
  }

  /** The factor that is always odd. */
  function Kick(x: u32): (k: nat)
    ensures k % 2 == 1
  {
    (A - 1) * x + C
  }

  lemma {:induction false} DrawClosedForm(x: u32, n: nat)
    ensures (x + Geo(n) * Kick(x)) % M == Draw(x, n)
  {
    hide Draw, Kick, Geo, Next;
    if n == 0 {
      NoDraw(x);
    } else {
      DrawClosedForm(x, n - 1);
      var g, k, d := Geo(n - 1), Kick(x), Draw(x, n - 1);
      KickIs(x);
      GeoUnfold(n);
      OneStepAlgebra(A, C, x, g, k);
      StepModM(x + g * k, d);
      DrawUnfold(x, n);
    }
  }

  lemma NoDraw(x: u32)
    ensures (x + Geo(0) * Kick(x)) % M == Draw(x, 0)
  {
  }

  lemma KickIs(x: u32)
    ensures Kick(x) == (A - 1) * x + C
  {
  }

  lemma DrawUnfold(x: u32, n: nat)
    requires n > 0
    ensures Draw(x, n) == Next(Draw(x, n - 1))
  {
  }

  lemma OneStepAlgebra(a: int, c: int, x: int, g: int, k: int)
    requires k == (a - 1) * x + c
    ensures x + (a * g + 1) * k == a * (x + g * k) + c
  {
    assert (a * g + 1) * k == a * g * k + k;
    assert a * g * k == a * (g * k);
    assert a * (x + g * k) == a * x + a * (g * k);
    assert (a - 1) * x == a * x - x;
  }

  lemma StepModM(v: nat, d: u32)
    requires v % M == d
    ensures (A * v + C) % M == Next(d)
  {
    var q := v / M;
    assert A * v + C == (d * A + C) + M * (A * q);
    ModAddMultiple(d * A + C, M, A * q);
  }

  // ---- powers of two ---------------------------------------------------------------

  /** 2^k divides v. */
  predicate Pow2Divides(k: nat, v: nat) {
    k == 0 || (v % 2 == 0 && Pow2Divides(k - 1, v / 2))
  }

  function Pow2(k: nat): (p: nat)
    ensures p > 0
  {
    if k == 0 then 1 else 2 * Pow2(k - 1)
  }

  lemma {:induction false} Pow2DividesIsMod(k: nat, v: nat)
    ensures Pow2Divides(k, v) <==> v % Pow2(k) == 0
  {
    if k > 0 {
      Pow2DividesIsMod(k - 1, v / 2);
      HalveMod(v, Pow2(k - 1));
    }
  }

  lemma HalveMod(v: nat, p: nat)
    requires p > 0
    ensures v % (2 * p) == 2 * (v / 2 % p) + v % 2
  {
    var h := v / 2;
    var q, r := h / p, h % p;
    assert v == 2 * h + v % 2;
    assert h == p * q + r;
    assert 2 * h == 2 * (p * q) + 2 * r;
    assert 2 * (p * q) == (2 * p) * q;
    assert v == q * (2 * p) + (2 * r + v % 2);
    ModUnique(v, 2 * p, q, 2 * r + v % 2);
  }

  /** An odd factor neither gives nor takes a factor two. */
  lemma {:induction false} OddFactor(k: nat, u: nat, w: nat)
    requires w % 2 == 1
    ensures Pow2Divides(k, u * w) <==> Pow2Divides(k, u)
  {
    if k > 0 {
      OddParity(u, w);
      if u % 2 == 0 {
        HalfProduct(u, w);
        OddFactor(k - 1, u / 2, w);
      }
    }
  }

  lemma OddParity(u: nat, w: nat)
    requires w % 2 == 1
    ensures (u * w) % 2 == u % 2
  {
    var h := w / 2;
    assert u * w == u + 2 * (u * h) by {
      assert w == 2 * h + 1;
    }
  }

  lemma HalfProduct(u: nat, w: nat)
    requires u % 2 == 0
    ensures u * w / 2 == u / 2 * w
  {
    assert u * w == 2 * (u / 2 * w);
  }

  // ---- the sum carries exactly the factors two of its length -----------------------------

  lemma {:induction false} GeoSplit(i: nat, j: nat)
    ensures Geo(i + j) == Pow(j) * Geo(i) + Geo(j)
    decreases j
  {
    if j > 0 {
      GeoSplit(i, j - 1);
      SplitAlgebra(A, Pow(j - 1), Geo(i), Geo(j - 1));
    }
  }

  lemma SplitAlgebra(a: int, p: int, g: int, h: int)
    ensures a * (p * g + h) + 1 == a * p * g + (a * h + 1)
  {
    assert a * (p * g + h) == a * (p * g) + a * h;
    assert a * (p * g) == a * p * g;
  }

  lemma {:induction false} PowIsOneMod4(n: nat)
    ensures Pow(n) % 4 == 1
  {
    if n > 0 {
      PowIsOneMod4(n - 1);
      var p := Pow(n - 1);
      ModAddMultiple(p, 4, 275878811 * p);
      assert Pow(n) == p + 4 * (275878811 * p);
    }
  }

  lemma {:induction false} GeoParity(n: nat)
    ensures Geo(n) % 2 == n % 2
  {
    if n > 0 {
      GeoParity(n - 1);
      var g := Geo(n - 1);
      hide Geo;
      GeoUnfold(n);
      ModAddMultiple(g + 1, 2, 551757622 * g);
      assert A * g + 1 == g + 1 + 2 * (551757622 * g);
      SuccParity(g, n - 1);
    }
  }

  lemma GeoUnfold(n: nat)
    requires n > 0
    ensures Geo(n) == A * Geo(n - 1) + 1
  {
  }

  lemma SuccParity(a: nat, b: nat)
    requires a % 2 == b % 2
    ensures (a + 1) % 2 == (b + 1) % 2
  {
  }

  /** Halving the length takes out one factor two and an odd number. */
  lemma GeoHalves(j: nat) returns (odd: nat)
    ensures odd % 2 == 1 && Geo(2 * j) == 2 * (Geo(j) * odd)
  {
    hide Geo, Pow;
    GeoSplit(j, j);
    PowIsOneMod4(j);
    odd := (Pow(j) + 1) / 2;
    Double(Pow(j), Geo(j), odd);
    assert j + j == 2 * j;
  }

  lemma Double(p: nat, g: nat, odd: nat)
    requires p + 1 == 2 * odd
    ensures p * g + g == 2 * (g * odd)
  {
    assert p * g + g == (p + 1) * g;
  }

  lemma {:induction false} GeoFactors(k: nat, n: nat)
    ensures Pow2Divides(k, Geo(n)) <==> Pow2Divides(k, n)
  {
    if k > 0 {
      GeoParity(n);
      if n % 2 == 0 {
        var j := n / 2;
        var odd := GeoHalves(j);
        assert n == 2 * j;
        OddFactor(k - 1, Geo(j), odd);
        GeoFactors(k - 1, j);
      }
    }
  }

  lemma Pow2Of32()
    ensures Pow2(32) == M
  {
    assert Pow2(8) == 0x100;
    assert Pow2(16) == 0x1_0000;
    assert Pow2(24) == 0x100_0000;
  }

  lemma DrawReturns(x: u32, n: nat)
    ensures Draw(x, n) == x <==> n % M == 0
  {
    hide Pow2Divides, Geo, Kick, Draw, Pow2;
    var t := Geo(n) * Kick(x);
    DrawClosedForm(x, n);
    ReturnsMod(x, t);
    Pow2Of32();
    Pow2DividesIsMod(32, t);
    Pow2DividesIsMod(32, n);
    OddFactor(32, Geo(n), Kick(x));
    GeoFactors(32, n);
  }

  lemma ReturnsMod(x: u32, t: nat)
    ensures (x + t) % M == x <==> t % M == 0
  {
  }

  lemma {:induction false} DrawAdd(x: u32, i: nat, n: nat)
    ensures Draw(x, i + n) == Draw(Draw(x, i), n)
    decreases n
  {
    if n > 0 {
      DrawAdd(x, i, n - 1);
    }
  }

  /** Two draws agree exactly when a multiple of 2^32 calls lies between them. */
  lemma DrawsRepeatExactly(x: u32, i: nat, j: nat)
    requires i <= j
    ensures Draw(x, i) == Draw(x, j) <==> (j - i) % M == 0
  {
    DrawAdd(x, i, j - i);
    DrawReturns(Draw(x, i), j - i);
  }
}
