/** The Internet checksum: 32 bit accumulation, folding, and what a receiver re-sums. */
module Checksum {
  import opened Arith
  import opened Bytes

  /** The sum of the first `n` big-endian 16 bit words. */
  function SumTo(b: Bytes, n: nat): nat
    requires 2 * n <= |b|
  {
    if n == 0 then 0 else SumTo(b, n - 1) + U16At(b, 2 * (n - 1))
  }

  /** The sum of all whole words; an odd last byte is not counted. */
  function Sum(b: Bytes): nat {
    SumTo(b, |b| / 2)
  }

  /** The 16 bit one's-complement value of a sum: zero only for zero, else in 1..0xffff. */
  function Ones(s: nat): u16 {
    if s == 0 then 0 else 1 + (s - 1) % 0xffff
  }

  /** The transmitted checksum: the complement, with 0 sent as 0xffff. */
  function Complement(s: nat): u16 {
    if Ones(s) == 0xffff then 0xffff else 0xffff - Ones(s)
  }

  lemma OnesStep(s: nat, q: nat, m: nat)
    requires s == 0x1_0000 * q + m
    ensures Ones(q + m) == Ones(s)
  {
    if s > 0 {
      assert s - 1 == q + m - 1 + 0xffff * q;
      ModAddMultiple(q + m - 1, 0xffff, q);
    }
  }

  /** Folding a partial sum early changes nothing: sums may be chained. */
  lemma OnesChain(a: nat, b: nat)
    ensures Ones(Ones(a) + b) == Ones(a + b)
  {
    if a > 0 {
      var q := (a - 1) / 0xffff;
      assert a == Ones(a) + 0xffff * q;
      ModAddMultiple(Ones(a) + b - 1, 0xffff, q);
      assert a + b - 1 == Ones(a) + b - 1 + 0xffff * q;
    }
  }

  /** A message that carries its complement sums to all ones, and the carried word is never zero. */
  lemma ComplementVerifies(s: nat)
    ensures Complement(s) != 0
    ensures Ones(s + Complement(s)) == 0xffff
  {
    OnesChain(s, Complement(s));
    assert Ones(s) + Complement(s) == 0xffff || Ones(s) + Complement(s) == 0xffff + 0xffff;
  }

  // ---- the reference: one's-complement addition word by word -----------------------

  /** 16 bit addition with end-around carry. */
  function OnesAdd(a: u16, b: u16): u16 {
    if a + b > 0xffff then a + b - 0xffff else a + b
  }

  function OnesSumTo(b: Bytes, n: nat): u16
    requires 2 * n <= |b|
  {
    if n == 0 then 0 else OnesAdd(OnesSumTo(b, n - 1), U16At(b, 2 * (n - 1)))
  }

  /** Deferring the carries to the end agrees with carrying after every word. */
  lemma {:induction false} DeferredCarries(b: Bytes, n: nat)
    requires 2 * n <= |b|
    ensures Ones(SumTo(b, n)) == OnesSumTo(b, n)
  {
    if n > 0 {
      DeferredCarries(b, n - 1);
      var s, w := SumTo(b, n - 1), U16At(b, 2 * (n - 1));
      OnesChain(s, w);
      OnesOfSmall(Ones(s), w);
    }
  }

  lemma OnesOfSmall(a: u16, b: u16)
    ensures Ones(a + b) == OnesAdd(a, b)
  {
    if a + b > 0xffff {
      ModAddMultiple(a + b - 1 - 0xffff, 0xffff, 1);
    }
  }

  // ---- sums of pieces ------------------------------------------------------------------

  lemma {:induction false} SumToAppend(a: Bytes, b: Bytes, n: nat)
    requires |a| % 2 == 0 && 2 * n <= |b|
    ensures SumTo(a + b, |a| / 2 + n) == SumTo(a + b, |a| / 2) + SumTo(b, n)
  {
    hide U16At;
    if n > 0 {
      SumToAppend(a, b, n - 1);
      U16Tail(a, b, 2 * (n - 1));
      assert 2 * (|a| / 2 + n - 1) == |a| + 2 * (n - 1);
    }
  }

  lemma U16Tail(a: Bytes, b: Bytes, at: nat)
    requires at + 2 <= |b|
    ensures U16At(a + b, |a| + at) == U16At(b, at)
  {
    assert (a + b)[|a| + at] == b[at] && (a + b)[|a| + at + 1] == b[at + 1];
    U16Same(a + b, |a| + at, b, at);
  }

  lemma U16Same(a: Bytes, i: nat, b: Bytes, j: nat)
    requires i + 2 <= |a| && j + 2 <= |b| && a[i] == b[j] && a[i + 1] == b[j + 1]
    ensures U16At(a, i) == U16At(b, j) == 0x100 * (b[j] as int) + b[j + 1]
  {
    assert At(a, i, 1) == a[i] && At(b, j, 1) == b[j];
  }

  lemma {:induction false} SumToPrefix(a: Bytes, b: Bytes, n: nat)
    requires 2 * n <= |a|
    ensures SumTo(a + b, n) == SumTo(a, n)
  {
    if n > 0 {
      SumToPrefix(a, b, n - 1);
      U16Same(a + b, 2 * (n - 1), a, 2 * (n - 1));
    }
  }

  /** Whole-word pieces sum independently. */
  lemma SumAppend(a: Bytes, b: Bytes)
    requires |a| % 2 == 0
    ensures Sum(a + b) == Sum(a) + Sum(b)
  {
    SumToAppend(a, b, |b| / 2);
    SumToPrefix(a, b, |a| / 2);
  }

  lemma SumWord(v: u16)
    ensures Sum(Be16(v)) == v
  {
    assert Stored(Be16(v), 0, Be16(v)) by {
      StoredSlice(Be16(v), 0, Be16(v));
    }
    Be16RoundTrip(Be16(v), 0, v);
    assert SumTo(Be16(v), 0) == 0;
  }

  /** Filling in a word that was zero adds its value. */
  lemma SumFillIn(a: Bytes, v: u16, b: Bytes)
    requires |a| % 2 == 0
    ensures Sum(a + Be16(v) + b) == Sum(a + Be16(0) + b) + v
  {
    SumAppend(a, Be16(v));
    SumAppend(a, Be16(0));
    SumAppend(a + Be16(v), b);
    SumAppend(a + Be16(0), b);
    SumWord(v);
    SumWord(0);
  }

  // ---- the loop ----------------------------------------------------------------------------

  /** ip_checksum: accumulate in 32 bits from `r`, fold, and complement when `complete`. */
  method IpChecksum(r: u32, buffer: Bytes, complete: bool) returns (c: u16)
    ensures var total := (r + Sum(buffer)) % 0x1_0000_0000;
            c == if complete then Complement(total) else Ones(total)
  {
    hide U16At;
    var acc := r;
    var words := |buffer| / 2;
    for i := 0 to words
      invariant 0 <= acc && acc == (r + SumTo(buffer, i)) % 0x1_0000_0000
    {
      Wrap(r + SumTo(buffer, i), U16At(buffer, 2 * i));
      acc := (acc + U16At(buffer, 2 * i)) % 0x1_0000_0000;
    }
    ghost var total := acc;
    while acc / 0x1_0000 != 0
      invariant acc >= 0 && Ones(acc) == Ones(total)
      decreases acc
    {
      OnesStep(acc, acc / 0x1_0000, acc % 0x1_0000);
      acc := acc % 0x1_0000 + acc / 0x1_0000;
    }
    assert Ones(acc) == acc;
    if complete {
      acc := 0xffff - acc;
      if acc == 0 {
        acc := 0xffff;
      }
    }
    c := acc;
  }

  lemma Wrap(a: nat, w: u16)
    ensures (a % 0x1_0000_0000 + w) % 0x1_0000_0000 == (a + w) % 0x1_0000_0000
  {
  }

  /** No sum over a frame slot leaves 32 bits. */
  lemma {:induction false} SumFits(b: Bytes, n: nat)
    requires 2 * n <= |b|
    ensures SumTo(b, n) <= 0xffff * n
  {
    if n > 0 {
      SumFits(b, n - 1);
    }
  }
}
