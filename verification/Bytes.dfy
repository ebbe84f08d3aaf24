/**
 Machine bytes and the big-endian numbers they stand for.  Arithmetic on `u8` and `u16` is
 checked to stay in range.
 */
module Bytes {

  newtype u8 = x: int | 0 <= x < 0x100
  newtype u16 = x: int | 0 <= x < 0x1_0000

  function Pow256(n: nat): (p: nat)
    ensures p > 0
  {
    if n == 0 then 1 else 256 * Pow256(n - 1)
  }

  /** The big-endian value. */
  function Value(s: seq<u8>): nat {
    if s == [] then 0 else Value(s[..|s| - 1]) * 256 + s[|s| - 1] as nat
  }

  lemma PowStep(n: nat)
    ensures Pow256(n + 1) == 256 * Pow256(n)
  {
  }

  lemma MulLe(a: nat, b: nat, c: nat)
    requires a <= b
    ensures a * c <= b * c
  {
  }

  lemma DivUnique(q: nat, r: nat, n: nat)
    requires r < n
    ensures (q * n + r) / n == q && (q * n + r) % n == r
  {
    var a := q * n + r;
    var p := a / n;
    assert a == p * n + a % n;
    assert (q + 1) * n == q * n + n && (p + 1) * n == p * n + n;
    if p > q {
      MulLe(q + 1, p, n);
    } else if p < q {
      MulLe(p + 1, q, n);
    }
  }

  lemma {:induction false} ValueBound(s: seq<u8>)
    ensures Value(s) < Pow256(|s|)
  {
    if s != [] {
      ValueBound(s[..|s| - 1]);
      PowStep(|s| - 1);
    }
  }

  lemma {:induction false} ValueConcat(a: seq<u8>, b: seq<u8>)
    ensures Value(a + b) == Value(a) * Pow256(|b|) + Value(b)
  {
    if b == [] {
      assert a + b == a;
    } else {
      var n := |b| - 1;
      var front := b[..n];
      assert (a + b)[..|a + b| - 1] == a + front && (a + b)[|a + b| - 1] == b[n];
      ValueConcat(a, front);
      PowStep(n);
      Distribute(Value(a), Pow256(n), Value(front), b[n] as nat);
    }
  }

  lemma Distribute(a: nat, p: nat, f: nat, d: nat)
    ensures (a * p + f) * 256 + d == a * (256 * p) + (f * 256 + d)
  {
  }

  /** A most significant byte in front. */
  lemma ValueCons(x: u8, s: seq<u8>)
    ensures Value([x] + s) == x as nat * Pow256(|s|) + Value(s)
  {
    ValueConcat([x], s);
    assert Value([x]) == x as nat by { assert [x][..0] == []; }
  }

  lemma ValueZeros(s: seq<u8>)
    requires forall i :: 0 <= i < |s| ==> s[i] == 0
    ensures Value(s) == 0
    decreases |s|
  {
    if s != [] {
      ValueZeros(s[..|s| - 1]);
    }
  }

  /** The big-endian bytes of a number in a fixed width. */
  function ToBytes(x: nat, n: nat): (s: seq<u8>)
    ensures |s| == n
  {
    if n == 0 then [] else ToBytes(x / 256, n - 1) + [(x % 256) as u8]
  }

  lemma {:induction false} ToBytesValue(x: nat, n: nat)
    requires x < Pow256(n)
    ensures Value(ToBytes(x, n)) == x
  {
    if n > 0 {
      PowStep(n - 1);
      ToBytesValue(x / 256, n - 1);
      var s := ToBytes(x, n);
      assert s[..n - 1] == ToBytes(x / 256, n - 1);
    }
  }

  lemma {:induction false} ValueToBytes(s: seq<u8>)
    ensures ToBytes(Value(s), |s|) == s
  {
    if s != [] {
      ValueToBytes(s[..|s| - 1]);
      assert s == s[..|s| - 1] + [s[|s| - 1]];
    }
  }
}
