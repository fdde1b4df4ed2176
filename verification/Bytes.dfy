/** Memory as a sequence of bytes; an address is an index. Reading outside it is undefined. */
module Bytes {
  type byte = x: int | 0 <= x < 256

  /** What a decoder finds at an address: nothing it may read, a format it refuses, or a value and the address
      that follows it. */
  datatype Decoded<+T> = Undefined | Aborted | Got(value: T, next: nat)

  /** The bytes `bs` stand in memory at address `p`. */
  predicate At(mem: seq<byte>, p: nat, bs: seq<byte>) {
    p + |bs| <= |mem| && mem[p..p + |bs|] == bs
  }

  lemma AtSplit(mem: seq<byte>, p: nat, a: seq<byte>, b: seq<byte>)
    ensures At(mem, p, a + b) <==> At(mem, p, a) && At(mem, p + |a|, b)
  {
    if At(mem, p, a) && At(mem, p + |a|, b) {
      assert mem[p..p + |a + b|] == mem[p..p + |a|] + mem[p + |a|..p + |a| + |b|];
    }
    if At(mem, p, a + b) {
      assert mem[p..p + |a|] == (a + b)[..|a|] == a;
      assert mem[p + |a|..p + |a| + |b|] == (a + b)[|a|..] == b;
    }
  }

  lemma AtHead(mem: seq<byte>, p: nat, b: byte, rest: seq<byte>)
    requires At(mem, p, [b] + rest)
    ensures p < |mem| && mem[p] == b && At(mem, p + 1, rest)
  {
    AtSplit(mem, p, [b], rest);
    assert mem[p..p + 1][0] == mem[p];
  }

  function Pow2(n: nat): (r: nat)
    ensures r >= 1
  {
    if n == 0 then 1 else 2 * Pow2(n - 1)
  }

  function LittleEndian(bs: seq<byte>): nat {
    if bs == [] then 0 else bs[0] + 256 * LittleEndian(bs[1..])
  }

  /** `v` modulo the largest `n`-byte value plus one, as `n` bytes. */
  function Fixed(v: int, n: nat): (bs: seq<byte>)
    ensures |bs| == n
    decreases n
  {
    if n == 0 then [] else [v % 256] + Fixed(v / 256, n - 1)
  }

  lemma {:induction false} FixedRoundTrip(v: int, n: nat)
    ensures LittleEndian(Fixed(v, n)) == v % Pow2(8 * n)
    decreases n
  {
    if n > 0 {
      FixedRoundTrip(v / 256, n - 1);
      assert Fixed(v, n)[1..] == Fixed(v / 256, n - 1);
      Pow2Step(n - 1);
      ModSplit(v, Pow2(8 * (n - 1)));
    }
  }

  lemma Pow2Step(n: nat)
    ensures Pow2(8 * (n + 1)) == 256 * Pow2(8 * n)
  {
    var m := 8 * n;
    assert Pow2(m + 2) == 4 * Pow2(m) && Pow2(m + 4) == 4 * Pow2(m + 2);
    assert Pow2(m + 6) == 4 * Pow2(m + 4) && Pow2(m + 8) == 4 * Pow2(m + 6);
  }

  lemma ModSplit(v: int, m: int)
    requires m >= 1
    ensures v % (256 * m) == v % 256 + 256 * ((v / 256) % m)
  {
    var q, r := (v / 256) / m, (v / 256) % m;
    var low := v % 256;
    assert v == 256 * (q * m + r) + low;
    assert 256 * (q * m + r) + low == q * (256 * m) + (256 * r + low);
    ModUnique(v, 256 * m, q, 256 * r + low);
  }

  lemma ModUnique(v: int, m: int, q: int, r: int)
    requires m >= 1 && v == q * m + r && 0 <= r < m
    ensures v % m == r
  {
    var q', r' := v / m, v % m;
    assert v == q' * m + r';
    assert (q - q') * m == r' - r;
    if q > q' {
      AtLeast(q - q', m);
      assert false;
    } else if q < q' {
      AtLeast(q' - q, m);
      assert false;
    }
  }

  lemma AtLeast(a: int, m: int)
    requires a >= 1 && m >= 1
    ensures a * m >= m
  {
  }
}
