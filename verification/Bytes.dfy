/**
  Bytes and little-endian integers, as the protocol encoder and decoder use them.

  A machine integer is modelled by its mathematical value; `LE(n, k)` is the k-byte
  little-endian form of `n` in two's complement, so a value outside the k-byte range wraps
  exactly as a Go conversion does.
 */
module Bytes {

  datatype Option<+T> = None | Some(value: T)

  type byte = b: int | 0 <= b < 256

  function Min(a: int, b: int): (m: int)
    ensures m == a || m == b
    ensures m <= a && m <= b
  {
    if a <= b then a else b
  }

  lemma Assoc<T>(a: seq<T>, b: seq<T>, c: seq<T>)
    ensures a + (b + c) == (a + b) + c
  {
  }

  /** 256 to the power `k`. */
  function Pow256(k: nat): (p: nat)
    ensures p >= 1
  {
    if k == 0 then 1 else 256 * Pow256(k - 1)
  }

  /** The `k` low-order bytes of `n`, least significant first (two's complement for `n < 0`). */
  function LE(n: int, k: nat): (s: seq<byte>)
    ensures |s| == k
    decreases k
  {
    if k == 0 then [] else [n % 256] + LE(n / 256, k - 1)
  }

  /** The least significant byte comes first. */
  lemma LittleEndian()
    ensures LE(0x01020304, 4) == [4, 3, 2, 1] && LE(-2, 2) == [254, 255]
  {
    assert LE(0x010203, 3) == [3, 2, 1] by { assert LE(0x0102, 2) == [2, 1] by { assert LE(1, 1) == [1]; } }
    assert LE(-1, 1) == [255];
  }

  /** The unsigned value of a little-endian byte sequence. */
  function LEValue(s: seq<byte>): (v: nat)
  {
    if |s| == 0 then 0 else s[0] + 256 * LEValue(s[1..])
  }

  /** The signed (two's complement) reading of an unsigned `k`-byte value. */
  function Signed(v: nat, k: nat): (i: int)
  {
    if 2 * v >= Pow256(k) then v - Pow256(k) else v
  }

  function Zeroes(n: nat): (s: seq<byte>)
    ensures |s| == n
    ensures forall i :: 0 <= i < n ==> s[i] == 0
  {
    seq(n, _ => 0)
  }

  lemma {:induction false} LEValueBound(s: seq<byte>)
    ensures LEValue(s) < Pow256(|s|)
  {
    if |s| != 0 {
      LEValueBound(s[1..]);
    }
  }

  lemma {:induction false} ModSplit(n: int, p: nat)
    requires p >= 1
    ensures n % (256 * p) == n % 256 + 256 * ((n / 256) % p)
  {
    var q, r := n / 256, n % 256;
    var q', r' := q / p, q % p;
    assert n == 256 * (p * q' + r') + r;
    assert n == (256 * p) * q' + (256 * r' + r);
    DivModUnique(n, 256 * p, q', 256 * r' + r);
  }

  lemma {:induction false} DivModUnique(n: int, d: int, q: int, r: int)
    requires d > 0 && n == d * q + r && 0 <= r < d
    ensures n / d == q && n % d == r
  {
    assert d * (q - n / d) == n % d - r;
    MulSmall(d, q - n / d);
  }

  lemma MulSmall(d: int, x: int)
    requires -d < d * x < d
    ensures x == 0
  {
  }

  /** Decoding inverts encoding: modulo the width for the unsigned value ... */
  lemma {:induction false} LERoundTrip(n: int, k: nat)
    ensures LEValue(LE(n, k)) == n % Pow256(k)
    decreases k
  {
    if k != 0 {
      LERoundTrip(n / 256, k - 1);
      ModSplit(n, Pow256(k - 1));
    }
  }

  /** ... and exactly, for every value a signed k-byte integer can hold. */
  lemma {:induction false} SignedRoundTrip(n: int, k: nat)
    requires -2 * n <= Pow256(k) && 2 * n < Pow256(k)
    ensures Signed(LEValue(LE(n, k)), k) == n
  {
    LERoundTrip(n, k);
    if n < 0 {
      DivModUnique(n, Pow256(k), -1, n + Pow256(k));
    } else {
      DivModUnique(n, Pow256(k), 0, n);
    }
  }

  lemma {:induction false} UnsignedRoundTrip(n: nat, k: nat)
    requires n < Pow256(k)
    ensures LEValue(LE(n, k)) == n
  {
    LERoundTrip(n, k);
    DivModUnique(n, Pow256(k), 0, n);
  }

  /** A byte sequence is determined by its value and its length. */
  lemma {:induction false} LEInjective(s: seq<byte>)
    ensures LE(LEValue(s), |s|) == s
  {
    if |s| != 0 {
      LEInjective(s[1..]);
      DivModUnique(LEValue(s), 256, LEValue(s[1..]), s[0]);
      assert s == [s[0]] + s[1..];
    }
  }

  lemma {:induction false} Pow256Add(a: nat, b: nat)
    ensures Pow256(a + b) == Pow256(a) * Pow256(b)
  {
    if a != 0 {
      Pow256Add(a - 1, b);
      assert Pow256(a + b) == 256 * Pow256(a - 1 + b);
    }
  }

  lemma Distribute(v: int, p: int, w: int)
    ensures 256 * (v + p * w) == 256 * v + (256 * p) * w
  {
  }

  lemma {:induction false} LEValueConcat(s: seq<byte>, t: seq<byte>)
    ensures LEValue(s + t) == LEValue(s) + Pow256(|s|) * LEValue(t)
  {
    if |s| == 0 {
      assert s + t == t;
    } else {
      LEValueConcat(s[1..], t);
      assert (s + t)[1..] == s[1..] + t && (s + t)[0] == s[0];
      Distribute(LEValue(s[1..]), Pow256(|s| - 1), LEValue(t));
    }
  }
}
