/** Bytes, powers of two and big-endian values, shared by the codec models. */
module Numbers {

  type byte = x: int | 0 <= x < 256

  function Pow2(k: nat): (p: nat)
    ensures p >= 1
  {
    if k == 0 then 1 else 2 * Pow2(k - 1)
  }

  /** The nat `v` falls in [low, low + width) when the latter is measured in `unit`s. */
  ghost predicate Within(low: nat, width: nat, unit: nat, v: nat)
  {
    low * unit <= v < (low + width) * unit
  }

  lemma WithinScaled(low: nat, width: nat, unit: nat, v: nat, k: nat)
    requires k > 0
    ensures Within(low, width, unit, v) <==> Within(low, width, unit * k, v * k)
  {
    MulAssoc(low, unit, k);
    MulAssoc(low + width, unit, k);
    MulOrder(low * unit, v, k);
    MulOrder(v + 1, (low + width) * unit, k);
    MulOrder((low + width) * unit, v, k);
  }

  lemma MulOrder(x: int, y: int, k: nat)
    requires k > 0
    ensures x <= y <==> x * k <= y * k
  {
    if x <= y {
      MulMono(x, y, k);
    } else {
      MulMono(y + 1, x, k);
      assert (y + 1) * k == y * k + k;
    }
  }

  lemma {:induction false} Pow2Add(a: nat, b: nat)
    ensures Pow2(a + b) == Pow2(a) * Pow2(b)
  {
    if b == 0 {
    } else {
      Pow2Add(a, b - 1);
      assert Pow2(a + b) == 2 * Pow2(a + (b - 1));
    }
  }

  lemma Pow2Values()
    ensures Pow2(5) == 0x20 && Pow2(8) == 0x100 && Pow2(11) == 0x800
    ensures Pow2(16) == 0x1_0000 && Pow2(19) == 0x8_0000 && Pow2(27) == 0x800_0000
  {
    Pow2Add(5, 3);
    Pow2Add(8, 3);
    Pow2Add(8, 8);
    Pow2Add(16, 3);
    Pow2Add(19, 8);
  }

  /** Dividing rounds down, so it can be moved across a strict comparison. */
  lemma DivLess(v: nat, d: nat, x: int)
    requires d > 0
    ensures v / d < x <==> v < x * d
  {
    var q, r := v / d, v % d;
    assert v == q * d + r;
    if q < x {
      MulMono(q + 1, x, d);
    } else {
      MulMono(x, q, d);
    }
  }

  lemma DivAtMost(n: nat, d: nat)
    requires d > 0
    ensures 0 <= n / d <= n
  {
    DivLess(n, d, n + 1);
    DivLess(n, d, 0);
    MulMono(1, d, n + 1);
  }

  lemma MulMono(x: int, y: int, d: nat)
    requires x <= y
    ensures x * d <= y * d
  {
  }

  lemma MulDistributes(a: int, b: int, c: int)
    ensures (a + b) * c == a * c + b * c
  {
  }

  lemma MulAssoc(a: int, b: int, c: int)
    ensures (a * b) * c == a * (b * c)
    ensures (a * b) * c == (a * c) * b
  {
  }

  /** Unique quotient: if n == q * d + r with 0 <= r < d then q is n / d. */
  lemma DivUnique(n: int, q: int, d: nat, r: int)
    requires d > 0 && 0 <= r < d && n == q * d + r
    ensures n / d == q && n % d == r
  {
    var q', r' := n / d, n % d;
    assert n == q' * d + r';
    assert (q - q') * d == r' - r;
    if q - q' >= 1 {
      MulMono(1, q - q', d);
    } else if q - q' <= -1 {
      MulMono(q - q', -1, d);
    }
  }

  lemma DivDiv(n: nat, a: nat, b: nat)
    requires a > 0 && b > 0
    ensures a * b > 0 && n / (a * b) == (n / a) / b
  {
    var q, r := n / a, n % a;
    var q2, r2 := q / b, q % b;
    assert a * b > 0;
    assert n == q * a + r && q == q2 * b + r2;
    assert n == q2 * (a * b) + (r2 * a + r) by {
      assert q * a == (q2 * b + r2) * a;
      assert (q2 * b + r2) * a == q2 * b * a + r2 * a;
      assert q2 * b * a == q2 * (a * b);
    }
    assert r2 * a + r < a * b by {
      MulMono(r2 + 1, b, a);
      assert (r2 + 1) * a == r2 * a + a;
    }
    DivUnique(n, q2, a * b, r2 * a + r);
  }

  /** The integer that a sequence of bytes spells, most significant byte first. */
  function Be(s: seq<byte>): nat
  {
    if s == [] then 0 else 256 * Be(s[..|s| - 1]) + s[|s| - 1]
  }

  lemma BeSnoc(s: seq<byte>, b: byte)
    ensures Be(s + [b]) == 256 * Be(s) + b
  {
    assert (s + [b])[..|s|] == s;
  }

  /** n copies of a byte. */
  function Fill(x: byte, n: nat): (s: seq<byte>)
    ensures |s| == n && forall i :: 0 <= i < n ==> s[i] == x
  {
    seq(n, i => x)
  }

  lemma FillSnoc(x: byte, n: nat)
    ensures Fill(x, n + 1) == Fill(x, n) + [x]
  {
  }
}
