/** Bytes, the fixed-width integers of the firmware, and their big-endian wire form. */
module Bytes {

  type byte = x: int | 0 <= x < 0x100
  type u16 = x: int | 0 <= x < 0x1_0000
  type u32 = x: int | 0 <= x < 0x1_0000_0000

  type Bytes = seq<byte>

  datatype Option<+T> = None | Some(value: T)

  // ---- big-endian words ---------------------------------------------------------

  /** 256 to the power `n`. */
  function Bound(n: nat): (m: nat)
    ensures m > 0
  {
    if n == 0 then 1 else 0x100 * Bound(n - 1)
  }

  /** The `n` low bytes of `v`, most significant first. */
  function Be(v: nat, n: nat): (b: Bytes)
    ensures |b| == n
    decreases n
  {
    if n == 0 then [] else Be(v / 0x100, n - 1) + [v % 0x100]
  }

  /** The number written in the `n` bytes at offset `at`. */
  function At(b: Bytes, at: nat, n: nat): (v: nat)
    requires at + n <= |b|
    ensures v < Bound(n)
    decreases n
  {
    if n == 0 then 0 else 0x100 * At(b, at, n - 1) + b[at + n - 1]
  }

  function Be16(v: u16): (b: Bytes)
    ensures |b| == 2
  {
    Be(v, 2)
  }

  function Be32(v: u32): (b: Bytes)
    ensures |b| == 4
  {
    Be(v, 4)
  }

  function U16At(b: Bytes, at: nat): u16
    requires at + 2 <= |b|
  {
    Bounds();
    At(b, at, 2)
  }

  function U32At(b: Bytes, at: nat): u32
    requires at + 4 <= |b|
  {
    Bounds();
    At(b, at, 4)
  }

  lemma Bounds()
    ensures Bound(2) == 0x1_0000 && Bound(4) == 0x1_0000_0000
  {
    assert Bound(1) == 0x100 && Bound(3) == 0x100 * Bound(2);
  }

  lemma {:induction false} BeRoundTrip(b: Bytes, at: nat, v: nat, n: nat)
    requires v < Bound(n) && Stored(b, at, Be(v, n))
    ensures At(b, at, n) == v
    decreases n
  {
    hide Stored;
    if n > 0 {
      StoredSplit(b, at, Be(v / 0x100, n - 1), [v % 0x100]);
      BeRoundTrip(b, at, v / 0x100, n - 1);
      StoredAt(b, at + n - 1, [v % 0x100], 0);
    }
  }

  lemma Be32Bytes(v: u32)
    ensures Be32(v) == [v / 0x100_0000, v / 0x1_0000 % 0x100, v / 0x100 % 0x100, v % 0x100]
  {
    var v1, v2, v3 := v / 0x100, v / 0x1_0000, v / 0x100_0000;
    assert v1 / 0x100 == v2 && v2 / 0x100 == v3 && v3 % 0x100 == v3;
    assert Be(v3, 1) == Be(v3 / 0x100, 0) + [v3];
    assert Be(v2, 2) == Be(v3, 1) + [v2 % 0x100];
    assert Be(v1, 3) == Be(v2, 2) + [v1 % 0x100];
    assert Be(v, 4) == Be(v1, 3) + [v % 0x100];
  }

  lemma Be16RoundTrip(b: Bytes, at: nat, v: u16)
    requires Stored(b, at, Be16(v))
    ensures U16At(b, at) == v
  {
    Bounds();
    BeRoundTrip(b, at, v, 2);
  }

  lemma Be32RoundTrip(b: Bytes, at: nat, v: u32)
    requires Stored(b, at, Be32(v))
    ensures U32At(b, at) == v
  {
    Bounds();
    BeRoundTrip(b, at, v, 4);
  }

  lemma {:induction false} AtPrefix(b: Bytes, cut: nat, at: nat, n: nat)
    requires at + n <= cut <= |b|
    ensures At(b[..cut], at, n) == At(b, at, n)
    decreases n
  {
    if n > 0 {
      AtPrefix(b, cut, at, n - 1);
    }
  }

  /** `s` is written in `b` from offset `at` on. */
  predicate Stored(b: Bytes, at: nat, s: Bytes)
    decreases |s|
  {
    at + |s| <= |b| && (s == [] || (b[at] == s[0] && Stored(b, at + 1, s[1..])))
  }

  lemma {:induction false} StoredAt(b: Bytes, at: nat, s: Bytes, k: nat)
    requires Stored(b, at, s) && k < |s|
    ensures b[at + k] == s[k]
    decreases k
  {
    if k > 0 {
      StoredAt(b, at + 1, s[1..], k - 1);
    }
  }

  lemma {:induction false} StoredSplit(b: Bytes, at: nat, s: Bytes, t: Bytes)
    ensures Stored(b, at, s + t) <==> Stored(b, at, s) && Stored(b, at + |s|, t)
    decreases |s|
  {
    if s == [] {
      assert s + t == t;
    } else {
      assert (s + t)[1..] == s[1..] + t;
      StoredSplit(b, at + 1, s[1..], t);
    }
  }

  lemma {:induction false} StoredSlice(b: Bytes, at: nat, s: Bytes)
    requires at + |s| <= |b| && b[at..at + |s|] == s
    ensures Stored(b, at, s)
    decreases |s|
  {
    if s != [] {
      assert b[at..at + |s|][1..] == b[at + 1..at + |s|];
      StoredSlice(b, at + 1, s[1..]);
    }
  }

  lemma {:induction false} SliceStored(b: Bytes, at: nat, s: Bytes)
    requires Stored(b, at, s)
    ensures b[at..at + |s|] == s
    decreases |s|
  {
    if s != [] {
      SliceStored(b, at + 1, s[1..]);
      assert b[at..at + |s|] == [b[at]] + b[at + 1..at + |s|];
    }
  }

  // ---- runs of 32 bit words -------------------------------------------------

  /** The big-endian image of a list of words. */
  function Flat(ws: seq<u32>): (b: Bytes)
    ensures |b| == 4 * |ws|
  {
    if ws == [] then [] else Be32(ws[0]) + Flat(ws[1..])
  }

  /** The `n` words stored from offset `at` on. */
  function WordsAt(b: Bytes, at: nat, n: nat): (ws: seq<u32>)
    requires at + 4 * n <= |b|
    ensures |ws| == n
  {
    if n == 0 then [] else WordsAt(b, at, n - 1) + [U32At(b, at + 4 * (n - 1))]
  }

  lemma {:induction false} FlatWord(b: Bytes, at: nat, ws: seq<u32>, i: nat)
    requires i < |ws| && Stored(b, at, Flat(ws))
    ensures U32At(b, at + 4 * i) == ws[i]
    decreases i
  {
    StoredSplit(b, at, Be32(ws[0]), Flat(ws[1..]));
    if i == 0 {
      Be32RoundTrip(b, at, ws[0]);
    } else {
      FlatWord(b, at + 4, ws[1..], i - 1);
    }
  }

  /** Words read back from where they were written. */
  lemma FlatRoundTrip(b: Bytes, at: nat, ws: seq<u32>)
    requires Stored(b, at, Flat(ws))
    ensures WordsAt(b, at, |ws|) == ws
  {
    FlatRoundTripTo(b, at, ws, |ws|);
  }

  lemma {:induction false} FlatRoundTripTo(b: Bytes, at: nat, ws: seq<u32>, n: nat)
    requires n <= |ws| && Stored(b, at, Flat(ws))
    ensures WordsAt(b, at, n) == ws[..n]
  {
    if n > 0 {
      FlatRoundTripTo(b, at, ws, n - 1);
      FlatWord(b, at, ws, n - 1);
    }
  }

  lemma {:induction false} FlatAppend(a: seq<u32>, b: seq<u32>)
    ensures Flat(a + b) == Flat(a) + Flat(b)
  {
    if a == [] {
      assert a + b == b;
    } else {
      assert (a + b)[1..] == a[1..] + b;
      FlatAppend(a[1..], b);
    }
  }

  /** Words depend only on the bytes they cover. */
  lemma {:induction false} WordsAtPrefix(b: Bytes, cut: nat, at: nat, n: nat)
    requires at + 4 * n <= cut <= |b|
    ensures WordsAt(b[..cut], at, n) == WordsAt(b, at, n)
  {
    if n > 0 {
      WordsAtPrefix(b, cut, at, n - 1);
      AtPrefix(b, cut, at + 4 * (n - 1), 4);
    }
  }

  function Zeros(n: nat): (z: Bytes)
    ensures |z| == n
  {
    seq(n, _ => 0)
  }
}
