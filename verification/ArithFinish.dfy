/** Termination of encoding (section D.1.8): the bytes sent at the end spell a point of the final interval. */
module ArithFinish {
  import opened Numbers
  import opened IntervalCoder
  import opened ArithRegisters

  /** The value of the data bytes extended with zeros to m bytes. */
  function Padded(data: seq<byte>, m: nat): nat
    requires |data| <= m
  {
    Be(data) * Pow2(8 * (m - |data|))
  }

  lemma PaddedMore(data: seq<byte>, m: nat)
    requires |data| <= m
    ensures Padded(data, m + 1) == 256 * Padded(data, m)
  {
    var k := 8 * (m - |data|);
    Pow2Values();
    Pow2Add(k, 8);
    assert Be(data) * (Pow2(k) * 256) == 256 * (Be(data) * Pow2(k));
  }

  lemma {:induction false} PaddedZeros(data: seq<byte>, n: nat, m: nat)
    requires |data| + n <= m
    ensures Padded(data + Fill(0, n), m) == Padded(data, m)
  {
    if n == 0 {
      assert data + Fill(0, 0) == data;
    } else {
      PaddedZeros(data, n - 1, m);
      FillSnoc(0, n - 1);
      var s := data + Fill(0, n - 1);
      assert data + Fill(0, n) == s + [0];
      BeSnoc(s, 0);
      Pow2Values();
      Pow2Add(8 * (m - |s| - 1), 8);
      MulAssoc(Be(s), 0x100, Pow2(8 * (m - |s| - 1)));
    }
  }

  /** Far enough to the right of the last bit of both the data and the interval. */
  function Reach(e: Exact, data: seq<byte>): nat
  {
    |data| + e.shifts + 8
  }

  /** Read as a binary fraction, the data bytes lie in the interval. */
  ghost predicate Represents(e: Exact, data: seq<byte>)
  {
    Contains(e, Padded(data, Reach(e, data)), Reach(e, data))
  }

  /** That is: low / 2^(16 + shifts) <= data / 256^|data| < (low + width) / 2^(16 + shifts). */
  lemma RepresentsIs(e: Exact, data: seq<byte>)
    ensures var n, v := |data|, Be(data);
      Represents(e, data) <==> e.low * Pow2(8 * n) <= v * Pow2(16 + e.shifts) < (e.low + e.width) * Pow2(8 * n)
  {
    var n, k := |data|, 7 * e.shifts + 48;
    var unit, scale, more := Pow2(8 * n), Pow2(16 + e.shifts), Pow2(k);
    Pow2Add(8 * n, k);
    Pow2Add(16 + e.shifts, k);
    hide Pow2, Be;
    MulAssoc(Be(data), scale, more);
    MulAssoc(e.low, unit, more);
    MulAssoc(e.low + e.width, unit, more);
    MulOrder(e.low * unit, Be(data) * scale, more);
    MulOrder((e.low + e.width) * unit, Be(data) * scale, more);
  }

  lemma {:induction false} ContainsFurther(e: Exact, data: seq<byte>, m: nat, m': nat)
    requires |data| <= m <= m' && Contains(e, Padded(data, m), m)
    ensures Contains(e, Padded(data, m'), m')
    decreases m' - m
  {
    if m < m' {
      PaddedMore(data, m);
      Pow2Values();
      Pow2Add(8 * m - 16 - e.shifts, 8);
      WithinScaled(e.low, e.width, Pow2(8 * m - 16 - e.shifts), Padded(data, m), 0x100);
      ContainsFurther(e, data, m + 1, m');
    }
  }

  /** The number in [c, c + a) with the most trailing zero bits; it is always a multiple of 0x8000. */
  function FinalCode(c: nat, a: nat): nat
    requires a > 0
  {
    var temp := (a - 1 + c) - (a - 1 + c) % 0x1_0000;
    if temp < c then temp + 0x8000 else temp
  }

  lemma FinalCodeInside(c: nat, a: nat)
    requires 0x8000 <= a <= 0x1_0000
    ensures c <= FinalCode(c, a) < c + a && FinalCode(c, a) % 0x8000 == 0
  {
  }

  /** No number of the interval has more trailing zero bits. */
  lemma FinalCodeZeros(c: nat, a: nat, x: nat, k: nat)
    requires 0x8000 <= a <= 0x1_0000 && c <= x < c + a && x % Pow2(k) == 0
    ensures FinalCode(c, a) % Pow2(k) == 0
  {
    var f := FinalCode(c, a);
    FinalCodeInside(c, a);
    Pow2Values();
    assert Pow2(16) == 2 * Pow2(15);
    if k <= 15 {
      Pow2Add(k, 15 - k);
      hide Pow2;
      MultipleOfPart(f, Pow2(k), Pow2(15 - k));
    } else {
      Pow2Add(16, k - 16);
      hide Pow2;
      MultipleOfPart(x, 0x1_0000, Pow2(k - 16));
      var q := x / 0x1_0000;
      DivUnique(a - 1 + c, q, 0x1_0000, a - 1 + c - x);
    }
  }

  lemma MultipleOfPart(x: nat, p: nat, q: nat)
    requires p > 0 && q > 0 && p * q > 0 && x % (p * q) == 0
    ensures x % p == 0
  {
    var m := x / (p * q);
    assert x == m * (p * q);
    MulAssoc(p, q, m);
    MulAssoc(m, q, p);
    assert x == (m * q) * p;
    DivUnique(x, m * q, p, 0);
  }

  /** The last bytes: a pending zero is sent only when something other than zero follows it. */
  function Tail(settled: seq<byte>, zc: nat, code: nat): seq<byte>
    requires code < 0x800_0000
  {
    var first, second := code / 0x8_0000, code / 0x800 % 0x100;
    if first == 0 && second == 0 then settled
    else if second == 0 then settled + Fill(0, zc) + [first]
    else settled + Fill(0, zc) + [first, second]
  }

  lemma TailValue(settled: seq<byte>, zc: nat, code: nat)
    requires code < 0x800_0000 && code % 0x800 == 0
    ensures var q := settled + Fill(0, zc);
      && |Tail(settled, zc, code)| <= |q| + 2
      && Padded(Tail(settled, zc, code), |q| + 2) * 0x800 == Be(q) * 0x800_0000 + code
  {
    var first, second := code / 0x8_0000, code / 0x800 % 0x100;
    CodeDigits(code, first, second);
    TailPadded(settled, zc, first, second);
    TwoMore(settled + Fill(0, zc), first, second);
    hide Padded, Be, Fill;
  }

  lemma CodeDigits(code: nat, first: nat, second: nat)
    requires code < 0x800_0000 && code % 0x800 == 0 && first == code / 0x8_0000 && second == code / 0x800 % 0x100
    ensures 0x8_0000 * first + 0x800 * second == code && first < 0x100 && second < 0x100
  {
    var units := code / 0x800;
    assert code == 0x800 * units;
    DivUnique(code, units / 0x100, 0x8_0000, 0x800 * (units % 0x100));
  }

  lemma TwoMore(q: seq<byte>, first: byte, second: byte)
    ensures Be(q + [first] + [second]) == 0x1_0000 * Be(q) + 0x100 * first + second
  {
    BeSnoc(q, first);
    BeSnoc(q + [first], second);
  }

  lemma TailPadded(settled: seq<byte>, zc: nat, first: byte, second: byte)
    ensures var q := settled + Fill(0, zc);
      var t := if first == 0 && second == 0 then settled else if second == 0 then q + [first] else q + [first, second];
      |t| <= |q| + 2 && Padded(t, |q| + 2) == Be(q + [first] + [second])
  {
    var q := settled + Fill(0, zc);
    var all := q + [first] + [second];
    assert Padded(all, |q| + 2) == Be(all) by { assert Pow2(0) == 1; }
    hide Padded, Be;
    if first == 0 && second == 0 {
      FillSnoc(0, zc);
      FillSnoc(0, zc + 1);
      assert all == settled + Fill(0, zc + 2);
      PaddedZeros(settled, zc + 2, |q| + 2);
    } else if second == 0 {
      var t := q + [first];
      assert Fill(0, 1) == [0];
      assert all == t + Fill(0, 1);
      PaddedZeros(t, 1, |q| + 2);
    } else {
      assert all == q + [first, second];
    }
  }

  /** The exact position of the chosen code, after the last shift of the register by `ct`. */
  lemma CodePosition(e: Exact, r: Registers, data: seq<byte>, point: nat, low: nat)
    requires Coupled(e, r, data) && low == e.low - r.c + point
    ensures low * Pow2(r.ct) == Be(Produced(data, r)) * 0x800_0000 + point * Pow2(r.ct)
  {
    var p, unit, scale := Be(Produced(data, r)), Pow2(27 - r.ct), Pow2(r.ct);
    Pow2Values();
    Pow2Add(27 - r.ct, r.ct);
    MulAssoc(p, unit, scale);
    assert (p * unit + point) * scale == p * unit * scale + point * scale;
  }

  /** Data bytes that spell a point of the interval exactly represent the interval. */
  lemma PointRepresents(e: Exact, data: seq<byte>, m: nat, point: nat, ct: nat, shifted: nat)
    requires |data| <= m <= Reach(e, data) && 8 * m == 16 + e.shifts + (ct + 5)
    requires e.low <= point < e.low + e.width
    requires shifted == point * Pow2(ct) && Padded(data, m) == shifted * 0x20
    ensures Represents(e, data)
  {
    Pow2Values();
    Pow2Add(ct, 5);
    MulAssoc(point, Pow2(ct), 0x20);
    MulMono(e.low, point, Pow2(ct + 5));
    MulOrder(e.low + e.width, point, Pow2(ct + 5));
    ContainsFurther(e, data, m, Reach(e, data));
  }

  /** The tail spells the produced bytes followed by the shifted register, carry included. */
  lemma TailWhole(settled: seq<byte>, zc: nat, p: nat, shifted: nat)
    requires shifted % 0x800_0000 % 0x800 == 0
    requires Be(settled + Fill(0, zc)) == p + shifted / 0x800_0000
    ensures var t, m := Tail(settled, zc, shifted % 0x800_0000), |settled| + zc + 4;
      |t| <= m && Padded(t, m) == (p * 0x800_0000 + shifted) * 0x20
  {
    var t, m := Tail(settled, zc, shifted % 0x800_0000), |settled| + zc + 2;
    assert |settled + Fill(0, zc)| + 2 == m;
    TailValue(settled, zc, shifted % 0x800_0000);
    PaddedMore(t, m);
    PaddedMore(t, m + 1);
    assert Padded(t, m) * 0x800 == p * 0x800_0000 + shifted;
  }

  /** Whatever way the held bytes are settled, the bytes sent in the end represent the interval:
      n bytes of value p had been produced and `low` is the chosen point of the interval. */
  lemma TailRepresents(e: Exact, n: nat, p: nat, ct: nat, low: nat, shifted: nat, settled: seq<byte>, zc: nat)
    requires e.shifts + ct == 8 * n + 11 && ct <= 11
    requires e.low <= low < e.low + e.width
    requires low * Pow2(ct) == p * 0x800_0000 + shifted && shifted % 0x800_0000 % 0x800 == 0
    requires |settled| + zc == n && Be(settled + Fill(0, zc)) == p + shifted / 0x800_0000
    ensures Represents(e, Tail(settled, zc, shifted % 0x800_0000))
  {
    TailWhole(settled, zc, p, shifted);
    PointRepresents(e, Tail(settled, zc, shifted % 0x800_0000), n + 4, low, ct, p * 0x800_0000 + shifted);
  }

  lemma ShiftedMultiple(point: nat, ct: nat)
    requires point % 0x8000 == 0
    ensures point * Pow2(ct) % 0x800_0000 % 0x800 == 0
  {
    var n := point / 0x8000;
    var k := n * Pow2(ct);
    assert point * Pow2(ct) == k * 0x8000;
    DivUnique(k * 0x8000, k * 0x8000 / 0x800_0000, 0x800_0000, k * 0x8000 % 0x800_0000);
    var r := k * 0x8000 % 0x800_0000;
    assert r == 0x800 * (k * 0x10 - k * 0x8000 / 0x800_0000 * 0x1_0000);
    DivUnique(r, k * 0x10 - k * 0x8000 / 0x800_0000 * 0x1_0000, 0x800, 0);
  }

  /** The last shift of c by ct overflows at most into bit 27, and only when a buffered byte can take the carry. */
  lemma FinalShift(e: Exact, r: Registers, data: seq<byte>, point: nat)
    requires Coupled(e, r, data) && InUnit(e) && r.c <= point < r.c + r.a
    ensures point * Pow2(r.ct) < 0x1000_0000
    ensures r.buffer < 0 ==> point * Pow2(r.ct) < 0x800_0000
  {
    Pow2Values();
    if r.buffer < 0 {
      OnesReachTheTop(e, r, data);
      MulOrder(Pow2(27 - r.ct), point, Pow2(r.ct));
      Pow2Add(27 - r.ct, r.ct);
    } else {
      MulMono(point, 0x8FFFF * Pow2(8 - r.ct), Pow2(r.ct));
      MulAssoc(0x8FFFF, Pow2(8 - r.ct), Pow2(r.ct));
      Pow2Add(8 - r.ct, r.ct);
    }
  }

  lemma LowCovers(e: Exact, r: Registers, data: seq<byte>)
    requires Coupled(e, r, data)
    ensures e.low >= r.c
  {
    MulMono(0, Be(Produced(data, r)), Pow2(27 - r.ct));
  }

  /** All that finish_pass needs to know of its registers: `shifted` is the code after the last shift. */
  lemma FinalPlan(e: Exact, r: Registers, data: seq<byte>, shifted: int) returns (low: nat)
    requires Coupled(e, r, data) && Normal(e) && shifted == FinalCode(r.c, r.a) * Pow2(r.ct)
    ensures 0 <= shifted < 0x1000_0000 && shifted % 0x800_0000 % 0x800 == 0
    ensures shifted >= 0x800_0000 ==> r.buffer >= 0
    ensures e.low <= low < e.low + e.width
    ensures low * Pow2(r.ct) == Be(Produced(data, r)) * 0x800_0000 + shifted
  {
    assert 0x8000 <= r.a <= 0x1_0000 && r.c >= 0 && r.a == e.width && 0 <= r.ct;
    LowCovers(e, r, data);
    hide Coupled, FinalCode, Pow2, Be;
    var point := FinalCode(r.c, r.a);
    FinalCodeInside(r.c, r.a);
    low := e.low - r.c + point;
    CodePosition(e, r, data, point, low);
    FinalShift(e, r, data, point);
    ShiftedMultiple(point, r.ct);
  }
}
