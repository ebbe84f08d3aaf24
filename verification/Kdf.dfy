/**
 The PKCS#12 key derivation of RFC 7292 Appendix B.2.
 */
module Kdf {
  import opened Bytes

  // ---------------------------------------------------------------- the derivation in numbers

  /** The least multiple of `v` that is at least `n`. */
  function RoundUp(n: nat, v: nat): nat
    requires v > 0
  {
    (n + v - 1) / v * v
  }

  lemma RoundUpIsLeast(n: nat, v: nat)
    requires v > 0
    ensures RoundUp(n, v) % v == 0 && n <= RoundUp(n, v) < n + v
    ensures forall m: nat :: m % v == 0 && m >= n ==> m >= RoundUp(n, v)
  {
    var q := (n + v - 1) / v;
    assert n + v - 1 == q * v + (n + v - 1) % v;
    DivUnique(q, 0, v);
    forall m: nat | m % v == 0 && m >= n ensures m >= q * v {
      NoSmallerMultiple(m, q, v, n);
    }
  }

  lemma NoSmallerMultiple(m: nat, q: nat, v: nat, n: nat)
    requires v > 0 && m % v == 0 && m >= n && q * v < n + v
    ensures m >= q * v
  {
    var k := m / v;
    assert m == k * v && (k + 1) * v == k * v + v;
    if k < q {
      MulLe(k + 1, q, v);
    } else {
      MulLe(q, k, v);
    }
  }

  /** The data repeated up to the next multiple of `v`. */
  function Extended(data: seq<u8>, v: nat): (s: seq<u8>)
    requires v > 0
  {
    if data == [] then []
    else seq(RoundUp(|data|, v), i requires 0 <= i < RoundUp(|data|, v) => data[i % |data|])
  }

  /** The hash applied `n` times, at least once. */
  function Iterated(h: seq<u8> -> seq<u8>, x: seq<u8>, n: nat): seq<u8> {
    if n <= 1 then h(x) else h(Iterated(h, x, n - 1))
  }

  /** One block of I: (I_j + B + 1) mod 256^v as big-endian numbers. */
  function NextBlock(block: seq<u8>, b: seq<u8>): (s: seq<u8>)
    ensures |s| == |block|
  {
    ToBytes((Value(block) + Value(b) + 1) % Pow256(|block|), |block|)
  }

  /** I for the next round. */
  function NextI(i: seq<u8>, b: seq<u8>, v: nat): (s: seq<u8>)
    requires v > 0 && |b| == v
    ensures |s| == |i|
    decreases |i|
  {
    if |i| < v then i else NextBlock(i[..v], b) + NextI(i[v..], b, v)
  }

  /** The concatenated rounds A_1 A_2 ... A_n. */
  function Stream(h: seq<u8> -> seq<u8>, d: seq<u8>, i: seq<u8>, c: nat, v: nat, n: nat): seq<u8>
    requires v > 0
    decreases n
  {
    if n == 0 then []
    else
      var a := Iterated(h, d + i, c);
      var b := Extended(a, v);
      a + if |b| == v then Stream(h, d, NextI(i, b, v), c, v, n - 1) else []
  }

  /** The hash gives `u` octets, at most a block. */
  ghost predicate Sized(h: seq<u8> -> seq<u8>, u: nat, v: nat) {
    0 < u <= v && forall x :: |h(x)| == u
  }

  lemma {:induction false} IteratedSize(h: seq<u8> -> seq<u8>, u: nat, v: nat, x: seq<u8>, n: nat)
    requires Sized(h, u, v)
    ensures |Iterated(h, x, n)| == u
  {
  }

  lemma ExtendedSize(a: seq<u8>, v: nat)
    requires 0 < |a| <= v
    ensures |Extended(a, v)| == v
  {
    RoundUpIsLeast(|a|, v);
    assert v % v == 0;
  }

  lemma {:induction false} StreamSize(h: seq<u8> -> seq<u8>, d: seq<u8>, i: seq<u8>, c: nat, u: nat, v: nat, n: nat)
    requires Sized(h, u, v)
    ensures |Stream(h, d, i, c, v, n)| == n * u
    decreases n
  {
    if n > 0 {
      var a := Iterated(h, d + i, c);
      IteratedSize(h, u, v, d + i, c);
      ExtendedSize(a, v);
      StreamSize(h, d, NextI(i, Extended(a, v), v), c, u, v, n - 1);
      assert n * u == u + (n - 1) * u;
    }
  }

  /** More rounds only append. */
  lemma {:induction false} StreamGrows(h: seq<u8> -> seq<u8>, d: seq<u8>, i: seq<u8>, c: nat, v: nat, m: nat, n: nat)
    requires v > 0 && m <= n
    ensures Stream(h, d, i, c, v, m) <= Stream(h, d, i, c, v, n)
    decreases m
  {
    if m > 0 {
      var a := Iterated(h, d + i, c);
      var b := Extended(a, v);
      if |b| == v {
        StreamGrows(h, d, NextI(i, b, v), c, v, m - 1, n - 1);
      }
    }
  }

  function Rounds(length: nat, u: nat): nat
    requires u > 0
  {
    (length + u - 1) / u
  }

  /** The derived key. */
  function Derived(h: seq<u8> -> seq<u8>, id: u8, password: seq<u8>, salt: seq<u8>, c: nat, length: nat, u: nat, v: nat): seq<u8>
    requires u > 0 && v > 0
  {
    var d := seq(v, _ => id);
    var s := Stream(h, d, Extended(salt, v) + Extended(password, v), c, v, Rounds(length, u));
    if |s| < length then s else s[..length]
  }

  lemma RoundsSuffice(length: nat, u: nat)
    requires u > 0
    ensures length <= Rounds(length, u) * u
  {
    RoundUpIsLeast(length, u);
  }

  lemma RoundsGrow(m: nat, n: nat, u: nat)
    requires u > 0 && m <= n
    ensures Rounds(m, u) <= Rounds(n, u)
  {
    RoundUpIsLeast(m, u);
    RoundUpIsLeast(n, u);
    var a, b := Rounds(m, u), Rounds(n, u);
    assert (b + 1) * u == b * u + u;
    if b < a {
      MulLe(b + 1, a, u);
    }
  }

  /** The result has the length asked for, and a shorter request is a prefix of a longer one. */
  lemma DerivedPrefix(h: seq<u8> -> seq<u8>, id: u8, password: seq<u8>, salt: seq<u8>, c: nat, m: nat, n: nat, u: nat, v: nat)
    requires Sized(h, u, v) && m <= n
    ensures |Derived(h, id, password, salt, c, n, u, v)| == n
    ensures Derived(h, id, password, salt, c, m, u, v) == Derived(h, id, password, salt, c, n, u, v)[..m]
  {
    hide Stream, Rounds, Extended;
    var d := seq(v, _ => id);
    var i := Extended(salt, v) + Extended(password, v);
    RoundsSuffice(m, u);
    RoundsSuffice(n, u);
    RoundsGrow(m, n, u);
    StreamSize(h, d, i, c, u, v, Rounds(m, u));
    StreamSize(h, d, i, c, u, v, Rounds(n, u));
    StreamGrows(h, d, i, c, v, Rounds(m, u), Rounds(n, u));
    var a, b := Stream(h, d, i, c, v, Rounds(m, u)), Stream(h, d, i, c, v, Rounds(n, u));
    assert a == b[..|a|];
    assert a[..m] == b[..m];
  }

  // ---------------------------------------------------------------- what is hashed

  /** `r` is what `n` applications of the hash to `x` give, one after the other; `steps` are the results. */
  ghost predicate HashedTimes(h: seq<u8> -> seq<u8>, x: seq<u8>, n: nat, steps: seq<seq<u8>>, r: seq<u8>) {
    && |steps| == (if n == 0 then 1 else n) && steps[0] == h(x) && steps[|steps| - 1] == r
    && forall k :: 0 < k < |steps| ==> steps[k] == h(steps[k - 1])
  }

  ghost predicate Hashed(h: seq<u8> -> seq<u8>, x: seq<u8>, n: nat, r: seq<u8>) {
    exists steps :: HashedTimes(h, x, n, steps, r)
  }

  /** `s` is `data` over and over, in the least multiple of `v` octets that holds it once. */
  ghost predicate Repeats(s: seq<u8>, data: seq<u8>, v: nat)
    requires v > 0
  {
    && |s| % v == 0 && |data| <= |s| < |data| + v
    && forall k :: 0 <= k < |s| ==> |data| > 0 && s[k] == data[k % |data|]
  }

  /** The first text that is hashed: a block of the ID octet, then the salt, then the password. */
  ghost predicate FirstText(x: seq<u8>, id: u8, password: seq<u8>, salt: seq<u8>, v: nat)
    requires v > 0
  {
    exists n: nat :: v <= n <= |x|
      && (forall k :: 0 <= k < v ==> x[k] == id)
      && Repeats(x[v..n], salt, v) && Repeats(x[n..], password, v)
  }

  /** The block of `y` from `at` on is (I_j + B + 1) mod 256^v for the block I_j of `x` there. */
  ghost predicate SumAt(y: seq<u8>, x: seq<u8>, b: seq<u8>, v: nat, at: nat) {
    at + v <= |x| && at + v <= |y| ==> Value(y[at..at + v]) == (Value(x[at..at + v]) + Value(b) + 1) % Pow256(v)
  }

  /** So is block `m`. */
  ghost predicate BlockSum(y: seq<u8>, x: seq<u8>, b: seq<u8>, v: nat, m: nat) {
    SumAt(y, x, b, v, m * v)
  }

  /** The text of the next round: the same first block, and in the place of each other one its sum
      with B, which is the hash over and over. */
  ghost predicate NextText(y: seq<u8>, x: seq<u8>, a: seq<u8>, v: nat)
    requires v > 0
  {
    && |y| == |x| && v <= |x| && y[..v] == x[..v]
    && exists b :: |b| == v && Repeats(b, a, v) && forall m: nat :: m >= 1 ==> BlockSum(y, x, b, v, m)
  }

  /** From octet `at` on the key holds `a`, as far as it goes. */
  ghost predicate KeyPart(key: seq<u8>, at: nat, a: seq<u8>) {
    forall j :: 0 <= j < |a| && at + j < |key| ==> key[at + j] == a[j]
  }

  /** The rounds behind a key: `xs` are the texts that are hashed and `hs` the hashes of `u` octets;
      these make up the key, the last one cut off. */
  ghost predicate Rounded(h: seq<u8> -> seq<u8>, id: u8, password: seq<u8>, salt: seq<u8>, c: nat, u: nat, v: nat,
                          key: seq<u8>, xs: seq<seq<u8>>, hs: seq<seq<u8>>)
    requires v > 0
  {
    && |xs| == |hs| && |key| <= |xs| * u && (xs != [] ==> FirstText(xs[0], id, password, salt, v))
    && (forall n :: 0 <= n < |xs| ==> |hs[n]| == u && Hashed(h, xs[n], c, hs[n]))
    && (forall n :: 0 < n < |xs| ==> NextText(xs[n], xs[n - 1], hs[n - 1], v))
    && forall n :: 0 <= n < |hs| ==> KeyPart(key, n * u, hs[n])
  }

  lemma {:induction false} IteratedSteps(h: seq<u8> -> seq<u8>, x: seq<u8>, n: nat) returns (steps: seq<seq<u8>>)
    ensures HashedTimes(h, x, n, steps, Iterated(h, x, n))
  {
    if n <= 1 {
      steps := [h(x)];
    } else {
      var front := IteratedSteps(h, x, n - 1);
      steps := front + [h(Iterated(h, x, n - 1))];
    }
  }

  lemma ExtendedRepeats(data: seq<u8>, v: nat)
    requires v > 0
    ensures Repeats(Extended(data, v), data, v)
  {
    RoundUpIsLeast(|data|, v);
    assert 0 % v == 0 by { DivUnique(0, 0, v); }
  }

  lemma BlockStart(m: nat, v: nat)
    ensures m * v >= 0 && (m >= 1 ==> (m - 1) * v == m * v - v && m * v >= v)
  {
    MulLe(0, m, v);
    if m >= 1 {
      MulLe(0, m - 1, v);
    }
  }

  /** What updating I does to each of its blocks. */
  lemma {:induction false} NextIBlock(i: seq<u8>, b: seq<u8>, v: nat, m: nat)
    requires v > 0 && |b| == v
    ensures BlockSum(NextI(i, b, v), i, b, v, m)
    decreases m
  {
    BlockStart(m, v);
    if m * v + v <= |i| {
      var first, rest := NextBlock(i[..v], b), NextI(i[v..], b, v);
      assert NextI(i, b, v) == first + rest;
      hide NextI, NextBlock;
      if m == 0 {
        NextBlockValue(i[..v], b);
        FirstBlock(i, first, rest, b, v);
      } else {
        NextIBlock(i[v..], b, v, m - 1);
        ShiftBlock(first, i[..v], i[v..], rest, b, v, m);
        assert i[..v] + i[v..] == i;
      }
    }
  }

  lemma FirstBlock(i: seq<u8>, first: seq<u8>, rest: seq<u8>, b: seq<u8>, v: nat)
    requires v <= |i| && |first| == v
    requires Value(first) == (Value(i[..v]) + Value(b) + 1) % Pow256(v)
    ensures BlockSum(first + rest, i, b, v, 0)
  {
    hide Value, Pow256;
    assert (first + rest)[0..v] == first && i[0..v] == i[..v];
  }

  lemma NextBlockValue(block: seq<u8>, b: seq<u8>)
    ensures Value(NextBlock(block, b)) == (Value(block) + Value(b) + 1) % Pow256(|block|)
  {
    ToBytesValue((Value(block) + Value(b) + 1) % Pow256(|block|), |block|);
  }

  /** The blocks of a text are those after its first one, counted from one. */
  lemma ShiftBlock(e: seq<u8>, d: seq<u8>, i: seq<u8>, next: seq<u8>, b: seq<u8>, v: nat, m: nat)
    requires |d| == |e| == v && m >= 1 && BlockSum(next, i, b, v, m - 1)
    ensures BlockSum(e + next, d + i, b, v, m)
  {
    BlockStart(m, v);
    hide SumAt;
    ShiftSum(e, d, i, next, b, v, m * v - v);
  }

  lemma ShiftSum(e: seq<u8>, d: seq<u8>, i: seq<u8>, next: seq<u8>, b: seq<u8>, v: nat, at: nat)
    requires |d| == |e| == v && SumAt(next, i, b, v, at)
    ensures SumAt(e + next, d + i, b, v, at + v)
  {
    hide Value, Pow256;
    var x, y := d + i, e + next;
    if at + v <= |i| && at + v <= |next| {
      assert y[at + v..at + v + v] == next[at..at + v] && x[at + v..at + v + v] == i[at..at + v];
    }
  }

  lemma NextTextOf(d: seq<u8>, i: seq<u8>, a: seq<u8>, v: nat)
    requires v > 0 && |d| == v && 0 < |a| <= v
    ensures |Extended(a, v)| == v && NextText(d + NextI(i, Extended(a, v), v), d + i, a, v)
  {
    ExtendedSize(a, v);
    ExtendedRepeats(a, v);
    var b := Extended(a, v);
    var next := NextI(i, b, v);
    var x, y := d + i, d + next;
    hide NextI, Extended, Repeats, BlockSum;
    assert y[..v] == d == x[..v];
    forall m: nat | m >= 1 ensures BlockSum(y, x, b, v, m) {
      NextIBlock(i, b, v, m - 1);
      ShiftBlock(d, d, i, next, b, v, m);
    }
  }

  /** The texts and hashes of a stream. */
  ghost predicate Streamed(h: seq<u8> -> seq<u8>, x: seq<u8>, c: nat, u: nat, v: nat, out: seq<u8>,
                           xs: seq<seq<u8>>, hs: seq<seq<u8>>)
    requires v > 0
  {
    && |xs| == |hs| && |out| == |xs| * u && (xs != [] ==> xs[0] == x)
    && (forall n :: 0 <= n < |xs| ==> hs[n] == Iterated(h, xs[n], c) && |hs[n]| == u)
    && (forall n :: 0 < n < |xs| ==> NextText(xs[n], xs[n - 1], hs[n - 1], v))
    && forall n :: 0 <= n < |hs| ==> KeyPart(out, n * u, hs[n])
  }

  lemma {:induction false} StreamIsRounds(h: seq<u8> -> seq<u8>, d: seq<u8>, i: seq<u8>, c: nat, u: nat, v: nat, n: nat)
    returns (xs: seq<seq<u8>>, hs: seq<seq<u8>>)
    requires Sized(h, u, v) && |d| == v
    ensures |xs| == n && Streamed(h, d + i, c, u, v, Stream(h, d, i, c, v, n), xs, hs)
    decreases n
  {
    hide Stream, NextI, Extended, Iterated, NextText, KeyPart;
    xs, hs := [], [];
    if n == 0 {
      StreamNothing(h, d, c, v);
    } else {
      StreamStep(h, d, i, c, u, v, n);
      var a := Iterated(h, d + i, c);
      var next := NextI(i, Extended(a, v), v);
      NextTextOf(d, i, a, v);
      var xs1, hs1 := StreamIsRounds(h, d, next, c, u, v, n - 1);
      hide Streamed;
      StreamedCons(h, d + i, d + next, c, u, v, a, Stream(h, d, next, c, v, n - 1), xs1, hs1);
      xs, hs := [d + i] + xs1, [a] + hs1;
    }
  }

  lemma StreamedCons(h: seq<u8> -> seq<u8>, x: seq<u8>, y: seq<u8>, c: nat, u: nat, v: nat, a: seq<u8>,
                     out: seq<u8>, xs: seq<seq<u8>>, hs: seq<seq<u8>>)
    requires v > 0 && a == Iterated(h, x, c) && |a| == u
    requires Streamed(h, y, c, u, v, out, xs, hs) && NextText(y, x, a, v)
    ensures Streamed(h, x, c, u, v, a + out, [x] + xs, [a] + hs)
  {
    hide Iterated, NextText, KeyPart;
    var ys, gs, all := [x] + xs, [a] + hs, a + out;
    BlockStart(|ys|, u);
    assert forall n :: 0 < n < |ys| ==> ys[n] == xs[n - 1] && gs[n] == hs[n - 1];
    forall n | 0 < n < |ys| ensures NextText(ys[n], ys[n - 1], gs[n - 1], v) {
      if n > 1 {
        assert NextText(xs[n - 1], xs[n - 2], hs[n - 2], v);
      }
    }
    forall n | 0 <= n < |gs| ensures KeyPart(all, n * u, gs[n]) {
      PartOf(a, out, u, hs, n);
    }
  }

  lemma PartOf(a: seq<u8>, out: seq<u8>, u: nat, hs: seq<seq<u8>>, n: nat)
    requires |a| == u && n <= |hs| && (n > 0 ==> KeyPart(out, (n - 1) * u, hs[n - 1]))
    ensures KeyPart(a + out, n * u, ([a] + hs)[n])
  {
    BlockStart(n, u);
    hide KeyPart;
    if n == 0 {
      FirstPart(a, out);
    } else {
      LaterPart(a, out, n * u - u, hs[n - 1]);
    }
  }

  lemma FirstPart(a: seq<u8>, out: seq<u8>)
    ensures KeyPart(a + out, 0, a)
  {
  }

  lemma LaterPart(a: seq<u8>, out: seq<u8>, at: nat, g: seq<u8>)
    requires KeyPart(out, at, g)
    ensures KeyPart(a + out, at + |a|, g)
  {
    var all := a + out;
    forall j | 0 <= j < |g| && at + |a| + j < |all| ensures all[at + |a| + j] == g[j] {
      assert all[at + |a| + j] == out[at + j];
    }
  }

  lemma FirstTextOf(id: u8, password: seq<u8>, salt: seq<u8>, v: nat)
    requires v > 0
    ensures FirstText(seq(v, _ => id) + (Extended(salt, v) + Extended(password, v)), id, password, salt, v)
  {
    var d, s, p := seq(v, _ => id), Extended(salt, v), Extended(password, v);
    ExtendedRepeats(salt, v);
    ExtendedRepeats(password, v);
    hide Extended, Repeats;
    var x := d + (s + p);
    assert x[v..v + |s|] == s && x[v + |s|..] == p;
  }

  /** The derived key is made of hashes of texts laid out as the standard says. */
  lemma DerivedRounds(h: seq<u8> -> seq<u8>, id: u8, password: seq<u8>, salt: seq<u8>, c: nat, length: nat, u: nat, v: nat)
    returns (xs: seq<seq<u8>>, hs: seq<seq<u8>>)
    requires Sized(h, u, v)
    ensures Rounded(h, id, password, salt, c, u, v, Derived(h, id, password, salt, c, length, u, v), xs, hs)
  {
    var d, i, n := seq(v, _ => id), Extended(salt, v) + Extended(password, v), Rounds(length, u);
    hide Stream, Extended, Iterated, NextText, FirstText, Rounds, HashedTimes, KeyPart, Streamed, Rounded;
    xs, hs := StreamIsRounds(h, d, i, c, u, v, n);
    var out := Stream(h, d, i, c, v, n);
    var key := if |out| < length then out else out[..length];
    assert key <= out && key == Derived(h, id, password, salt, c, length, u, v);
    FirstTextOf(id, password, salt, v);
    hide *;
    RoundedIntro(h, id, password, salt, d + i, c, u, v, out, key, xs, hs);
  }

  lemma RoundedIntro(h: seq<u8> -> seq<u8>, id: u8, password: seq<u8>, salt: seq<u8>, x: seq<u8>, c: nat, u: nat, v: nat,
                     out: seq<u8>, key: seq<u8>, xs: seq<seq<u8>>, hs: seq<seq<u8>>)
    requires v > 0 && Streamed(h, x, c, u, v, out, xs, hs) && key <= out && FirstText(x, id, password, salt, v)
    ensures Rounded(h, id, password, salt, c, u, v, key, xs, hs)
  {
    hide Iterated, NextText, FirstText, HashedTimes, KeyPart;
    forall k | 0 <= k < |hs| ensures KeyPart(key, k * u, hs[k]) {
      BlockStart(k, u);
      ShorterPart(out, key, k * u, hs[k]);
    }
    forall k | 0 <= k < |xs| ensures |hs[k]| == u && Hashed(h, xs[k], c, hs[k]) {
      var steps := IteratedSteps(h, xs[k], c);
      assert hs[k] == Iterated(h, xs[k], c);
    }
  }

  lemma ShorterPart(out: seq<u8>, key: seq<u8>, at: nat, g: seq<u8>)
    requires key <= out && KeyPart(out, at, g)
    ensures KeyPart(key, at, g)
  {
  }

  // ---------------------------------------------------------------- the code

  /** Appends copies of the data until a multiple of `v` is full. */
  method ExtendToMultiple(data: seq<u8>, v: nat) returns (out: seq<u8>)
    requires v > 0
    ensures out == Extended(data, v)
  {
    if data == [] {
      return [];
    }
    var len := (|data| + v - 1) / v * v;
    RoundUpIsLeast(|data|, v);
    out := [];
    assert |out| % |data| == 0;
    while |out| < len
      invariant |out| <= len && (|out| < len ==> |out| % |data| == 0)
      invariant forall i :: 0 <= i < |out| ==> out[i] == data[i % |data|]
    {
      var remaining := len - |out|;
      var take := if remaining < |data| then remaining else |data|;
      PeriodGrows(out, data, take);
      out := out + data[..take];
    }
  }

  /** Appending a prefix of the data to whole copies of it keeps the period. */
  lemma PeriodGrows(out: seq<u8>, data: seq<u8>, take: nat)
    requires data != [] && take <= |data| && |out| % |data| == 0
    requires forall i :: 0 <= i < |out| ==> out[i] == data[i % |data|]
    ensures var more := out + data[..take]; forall i :: 0 <= i < |more| ==> more[i] == data[i % |data|]
    ensures take == |data| ==> |out + data[..take]| % |data| == 0
  {
    var more, n := out + data[..take], |data|;
    forall i | 0 <= i < |more| ensures more[i] == data[i % n] {
      if i >= |out| {
        ShiftMod(|out|, i - |out|, n);
      }
    }
    AddMod(|out|, n);
  }

  lemma ShiftMod(start: nat, k: nat, n: nat)
    requires n > 0 && start % n == 0 && k < n
    ensures (start + k) % n == k
  {
    assert start == start / n * n;
    DivUnique(start / n, k, n);
  }

  lemma AddMod(start: nat, n: nat)
    requires n > 0 && start % n == 0
    ensures (start + n) % n == 0
  {
    var q := start / n;
    assert start == q * n && (q + 1) * n == q * n + n;
    DivUnique(q + 1, 0, n);
  }

  /** `sum` with a pending carry is `a + b + 1`. */
  predicate Summed(sum: seq<u8>, a: seq<u8>, b: seq<u8>, carry: nat) {
    |sum| == |a| == |b| && carry <= 1 && Value(sum) + carry * Pow256(|sum|) == Value(a) + Value(b) + 1
  }

  lemma SummedStep(sum: seq<u8>, a: seq<u8>, b: seq<u8>, carry: nat, x: u8, y: u8)
    requires Summed(sum, a, b, carry)
    ensures var t := x as nat + y as nat + carry;
      t < 512 && Summed([(t % 256) as u8] + sum, [x] + a, [y] + b, t / 256)
  {
    var t := x as nat + y as nat + carry;
    var p := Pow256(|sum|);
    ValueCons((t % 256) as u8, sum);
    ValueCons(x, a);
    ValueCons(y, b);
    PowStep(|sum|);
    CarryStep(x as nat, y as nat, carry, t % 256, t / 256, p);
  }

  lemma CarryStep(x: nat, y: nat, carry: nat, low: nat, high: nat, p: nat)
    requires x + y + carry == high * 256 + low
    ensures low * p + high * (256 * p) == x * p + y * p + carry * p
  {
    assert (high * 256 + low) * p == low * p + high * (256 * p);
    assert (x + y + carry) * p == x * p + y * p + carry * p;
  }

  lemma SummedWhole(sum: seq<u8>, a: seq<u8>, b: seq<u8>, carry: nat)
    requires Summed(sum, a, b, carry)
    ensures sum == NextBlock(a, b)
  {
    ValueBound(sum);
    var p := Pow256(|sum|);
    var total := Value(a) + Value(b) + 1;
    assert total == Value(sum) + carry * p;
    DivUnique(carry, Value(sum), p);
    ValueToBytes(sum);
  }

  /** Adds B + 1 to one block of the buffer, in place. */
  method AddOnePlusB(buffer: array<u8>, start: nat, b: seq<u8>)
    requires start + |b| <= buffer.Length
    modifies buffer
    ensures buffer[start..start + |b|] == NextBlock(old(buffer[start..start + |b|]), b)
    ensures forall i :: 0 <= i < buffer.Length && !(start <= i < start + |b|) ==> buffer[i] == old(buffer[i])
  {
    hide Summed, NextBlock;
    var carry: u16 := 1;
    var n := |b|;
    var k := n;
    ghost var was := old(buffer[start..start + n]);
    SummedNothing();
    assert was[n..] == [] && b[n..] == [] && buffer[start + n..start + n] == [];
    while k > 0
      invariant 0 <= k <= n && carry <= 1
      invariant forall i :: 0 <= i < buffer.Length && !(start + k <= i < start + n) ==> buffer[i] == old(buffer[i])
      invariant Summed(buffer[start + k..start + n], was[k..], b[k..], carry as nat)
    {
      k := k - 1;
      ghost var tail := buffer[start + k + 1..start + n];
      SummedStep(tail, was[k + 1..], b[k + 1..], carry as nat, was[k], b[k]);
      var sum := buffer[start + k] as u16 + b[k] as u16 + carry;
      buffer[start + k] := (sum % 256) as u8;
      carry := sum / 256;
      assert buffer[start + k..start + n] == [buffer[start + k]] + tail;
      assert was[k..] == [was[k]] + was[k + 1..] && b[k..] == [b[k]] + b[k + 1..];
    }
    assert was[0..] == was && b[0..] == b;
    SummedWhole(buffer[start..start + n], was, b, carry as nat);
  }

  lemma SummedNothing()
    ensures Summed([], [], [], 1)
  {
  }

  /** Updates all blocks of I. */
  method UpdateBlocks(buffer: array<u8>, b: seq<u8>, v: nat)
    requires v > 0 && |b| == v
    modifies buffer
    ensures buffer[..] == NextI(old(buffer[..]), b, v)
  {
    hide NextBlock, NextI;
    var start := 0;
    assert buffer[..0] == [] && buffer[0..] == buffer[..];
    while start + v <= buffer.Length
      invariant 0 <= start <= buffer.Length
      invariant NextI(old(buffer[..]), b, v) == buffer[..start] + NextI(buffer[start..], b, v)
    {
      ghost var before := buffer[..];
      AddOnePlusB(buffer, start, b);
      ghost var after := buffer[..];
      assert after[..start] == before[..start] && after[start + v..] == before[start + v..];
      BlockStep(before, after, start, b, v);
      start := start + v;
    }
    ShortI(buffer[start..], b, v);
    assert buffer[..] == buffer[..start] + buffer[start..];
  }

  lemma ShortI(i: seq<u8>, b: seq<u8>, v: nat)
    requires v > 0 && |b| == v && |i| < v
    ensures NextI(i, b, v) == i
  {
  }

  lemma BlockStep(before: seq<u8>, after: seq<u8>, start: nat, b: seq<u8>, v: nat)
    requires v > 0 && |b| == v && |before| == |after| && start + v <= |before|
    requires after[..start] == before[..start] && after[start + v..] == before[start + v..]
    requires after[start..start + v] == NextBlock(before[start..start + v], b)
    ensures before[..start] + NextI(before[start..], b, v) == after[..start + v] + NextI(after[start + v..], b, v)
  {
    hide NextBlock;
    var rest := before[start..];
    assert rest[..v] == before[start..start + v] && rest[v..] == before[start + v..];
    assert NextI(rest, b, v) == NextBlock(rest[..v], b) + NextI(rest[v..], b, v);
    assert after[..start + v] == after[..start] + after[start..start + v];
  }

  lemma StreamStep(h: seq<u8> -> seq<u8>, d: seq<u8>, i: seq<u8>, c: nat, u: nat, v: nat, n: nat)
    requires Sized(h, u, v) && n > 0
    ensures var a := Iterated(h, d + i, c);
      |a| == u && |Extended(a, v)| == v && Stream(h, d, i, c, v, n) == a + Stream(h, d, NextI(i, Extended(a, v), v), c, v, n - 1)
  {
    hide NextI, Extended, Iterated;
    IteratedSize(h, u, v, d + i, c);
    ExtendedSize(Iterated(h, d + i, c), v);
  }

  lemma StreamNothing(h: seq<u8> -> seq<u8>, d: seq<u8>, c: nat, v: nat)
    requires v > 0
    ensures forall i :: Stream(h, d, i, c, v, 0) == []
  {
  }

  method DeriveKey(h: seq<u8> -> seq<u8>, id: u8, password: seq<u8>, salt: seq<u8>, c: nat, length: nat, u: nat, v: nat)
    returns (key: seq<u8>)
    requires Sized(h, u, v)
    ensures key == Derived(h, id, password, salt, c, length, u, v) && |key| == length
    ensures exists xs, hs :: Rounded(h, id, password, salt, c, u, v, key, xs, hs)
  {
    hide NextI, Extended, Iterated, Rounds, Stream;
    var d := seq(v, _ => id);
    var s := ExtendToMultiple(salt, v);
    var p := ExtendToMultiple(password, v);
    var i0 := s + p;
    var n := Rounds(length, u);
    var result := Generate(h, d, i0, c, u, v, n);
    RoundsSuffice(length, u);
    StreamSize(h, d, i0, c, u, v, n);
    key := result[..length];
    hide Derived, Rounded;
    ghost var xs, hs := DerivedRounds(h, id, password, salt, c, length, u, v);
  }

  /** The rounds; I is updated in place between them. */
  method Generate(h: seq<u8> -> seq<u8>, d: seq<u8>, i0: seq<u8>, c: nat, u: nat, v: nat, n: nat) returns (result: seq<u8>)
    requires Sized(h, u, v)
    ensures result == Stream(h, d, i0, c, v, n)
  {
    hide NextI, Extended, Iterated, Stream;
    var buffer := new u8[|i0|](k requires 0 <= k < |i0| => i0[k]);
    assert buffer[..] == i0;
    result := [];
    StreamNothing(h, d, c, v);
    for k := 0 to n
      invariant Stream(h, d, i0, c, v, n) == result + Stream(h, d, buffer[..], c, v, n - k)
    {
      StreamStep(h, d, buffer[..], c, u, v, n - k);
      var a := Hash(h, d + buffer[..], c);
      result := result + a;
      if k + 1 < n {
        var b := ExtendToMultiple(a, v);
        UpdateBlocks(buffer, b, v);
      }
    }
  }

  /** The hash, then again for each further iteration. */
  method Hash(h: seq<u8> -> seq<u8>, x: seq<u8>, c: nat) returns (a: seq<u8>)
    ensures a == Iterated(h, x, c)
  {
    a := h(x);
    var k := 1;
    while k < c
      invariant 1 <= k && (k <= c || k == 1)
      invariant a == Iterated(h, x, k)
    {
      a := h(a);
      k := k + 1;
    }
  }
}
