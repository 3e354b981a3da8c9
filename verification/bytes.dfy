/**
 * Bytes, the sync pair and the alternating checksum shared by the Lunar
 * scale's frame builder and frame decoder, and the arithmetic reading of
 * the bit masks the decoder applies.
 */
module Bytes {

  /** An unsigned octet. The gateway stores frame bytes in `uint8_t` and
      `char`; all of them are read here as values 0..255. */
  type byte = b: int | 0 <= b < 256

  /** The sync pair that opens every frame, in both directions. */
  const SyncFirst: byte := 0xEF
  const SyncSecond: byte := 0xDD

  /** A value that may be missing: `_substr` answers None where it returns
      NULL, for a reversed range. */
  datatype Option<+T> = None | Some(value: T)

  /** Sum of the bytes at the even positions 0, 2, 4, ... of `s`. */
  function EvenSum(s: seq<byte>): nat
  {
    if |s| == 0 then 0 else s[0] + OddSum(s[1..])
  }

  /** Sum of the bytes at the odd positions 1, 3, 5, ... of `s`. */
  function OddSum(s: seq<byte>): nat
  {
    if |s| == 0 then 0 else EvenSum(s[1..])
  }

  /** Appending a byte adds it to the sum of the parity its position has,
      and leaves the other sum alone. */
  lemma {:induction false} ParitySumsSnoc(s: seq<byte>, x: byte)
    ensures EvenSum(s + [x]) == EvenSum(s) + (if |s| % 2 == 0 then x else 0)
    ensures OddSum(s + [x]) == OddSum(s) + (if |s| % 2 == 1 then x else 0)
  {
    if |s| == 0 {
      assert (s + [x])[1..] == [];
    } else {
      assert (s + [x])[1..] == s[1..] + [x];
      ParitySumsSnoc(s[1..], x);
    }
  }

  /** Concatenation: the positions of `b` keep their parity inside `a + b`
      when `a` has even length and swap it when `a` has odd length. */
  lemma {:induction false} ParitySumsAppend(a: seq<byte>, b: seq<byte>)
    ensures EvenSum(a + b) == EvenSum(a) + (if |a| % 2 == 0 then EvenSum(b) else OddSum(b))
    ensures OddSum(a + b) == OddSum(a) + (if |a| % 2 == 0 then OddSum(b) else EvenSum(b))
  {
    if |a| == 0 {
      assert a + b == b;
    } else {
      assert (a + b)[1..] == a[1..] + b;
      ParitySumsAppend(a[1..], b);
    }
  }

  /** Bitwise AND of two naturals, bit by bit from the least significant. */
  function BitAnd(a: nat, b: nat): (r: nat)
    ensures r <= a && r <= b
    decreases a
  {
    if a == 0 || b == 0 then 0 else 2 * BitAnd(a / 2, b / 2) + (a % 2) * (b % 2)
  }

  /** The number whose `k` low bits are one: 2^k - 1. */
  function Ones(k: nat): nat
  {
    if k == 0 then 0 else 2 * Ones(k - 1) + 1
  }

  /** The `k` low bits of `a`, taken one at a time. */
  function LowBits(a: nat, k: nat): nat
  {
    if k == 0 then 0 else 2 * LowBits(a / 2, k - 1) + a % 2
  }

  /** Masking with `k` one bits keeps the `k` low bits. */
  lemma {:induction false} OnesMask(a: nat, k: nat)
    ensures BitAnd(a, Ones(k)) == LowBits(a, k)
  {
    if k > 0 {
      OnesMask(a / 2, k - 1);
      var m := Ones(k - 1);
      assert Ones(k) == 2 * m + 1;
      assert Ones(k) / 2 == m && Ones(k) % 2 == 1;
      if a == 0 {
        LowBitsOfZero(k);
      } else {
        assert BitAnd(a, Ones(k)) == 2 * BitAnd(a / 2, m) + a % 2;
      }
    }
  }

  /** Zero has no bit set. */
  lemma {:induction false} LowBitsOfZero(k: nat)
    ensures LowBits(0, k) == 0
  {
    if k > 0 {
      LowBitsOfZero(k - 1);
    }
  }

  /** 2 to the power `k`. */
  function Pow2(k: nat): (r: nat)
    ensures r >= 1
  {
    if k == 0 then 1 else 2 * Pow2(k - 1)
  }

  /** The `k` low bits of `a` are `a` modulo 2^k. */
  lemma {:induction false} LowBitsMod(a: nat, k: nat)
    ensures LowBits(a, k) == a % Pow2(k)
  {
    if k > 0 {
      LowBitsMod(a / 2, k - 1);
      DivModHalf(a, Pow2(k - 1));
    }
  }

  /** The remainder modulo 2p, computed from the halved value. */
  lemma DivModHalf(a: nat, p: nat)
    requires p >= 1
    ensures a % (2 * p) == 2 * ((a / 2) % p) + a % 2
  {
    var q := (a / 2) / p;
    var r := (a / 2) % p;
    assert a / 2 == p * q + r;
    assert a == (2 * p) * q + (2 * r + a % 2);
    ModUnique(a, 2 * p, q, 2 * r + a % 2);
  }

  /** Quotient and remainder are the only pair that rebuilds `a`. */
  lemma ModUnique(a: int, m: int, q: int, r: int)
    requires m > 0 && 0 <= r < m && a == m * q + r
    ensures a / m == q && a % m == r
  {
    var q', r' := a / m, a % m;
    if q > q' {
      MulAtLeast(m, q - q');
    } else if q < q' {
      MulAtLeast(m, q' - q);
    }
  }

  lemma MulAtLeast(m: int, x: int)
    requires m > 0 && x >= 1
    ensures m * x >= m
  {
  }

  /** Masking with two tests bit 1. */
  lemma BitOneMask(a: nat)
    ensures BitAnd(a, 2) == (if (a / 2) % 2 == 1 then 2 else 0)
  {
    if a > 0 {
      assert BitAnd(a, 2) == 2 * BitAnd(a / 2, 1);
      if a / 2 > 0 {
        assert BitAnd(a / 2, 1) == 2 * BitAnd(a / 4, 0) + (a / 2) % 2;
      }
    }
  }
}
