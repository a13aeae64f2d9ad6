/** How the fixed-width registers of the encoder stand for the exact interval of the specification. */
module ArithRegisters {
  import opened Numbers
  import opened AriTable
  import opened IntervalCoder

  /** The coding registers; `buffer` is -1 while no byte has been produced. */
  datatype Registers = Registers(c: int, a: int, sc: int, zc: int, ct: int, buffer: int)

  const START := Registers(0, 0x1_0000, 0, 0, 11, -1)

  /** All bytes produced so far: those sent, then what the registers hold back. */
  function Produced(data: seq<byte>, r: Registers): seq<byte>
    requires r.zc >= 0 && r.sc >= 0 && -1 <= r.buffer < 256
  {
    data + Fill(0, r.zc) + (if r.buffer >= 0 then [r.buffer] else []) + Fill(0xFF, r.sc)
  }

  /** The ranges that keep every register inside 32 bits: c stays below 2^28. */
  ghost predicate InRange(r: Registers)
  {
    && 0 <= r.c && 0 < r.a <= 0x1_0000 && r.zc >= 0 && r.sc >= 0
    && 0 <= r.ct <= 11 && -1 <= r.buffer < 0xFF
    && r.c + r.a <= 0x8FFFF * Pow2(if r.ct <= 8 then 8 - r.ct else 0)
  }

  /** In range, the register c and the end of its interval have 28 bits, before and after a shift fewer than 32. */
  lemma RegistersFit(r: Registers)
    requires InRange(r)
    ensures r.c + r.a < 0x1000_0000 && 2 * (r.c + r.a) < 0x2000_0000
  {
    var k := if r.ct <= 8 then 8 - r.ct else 0;
    Pow2Values();
    Pow2Add(k, 8 - k);
    MulMono(Pow2(k), 0x100, 0x8FFFF);
  }

  ghost predicate NoTrailingZero(data: seq<byte>)
  {
    data != [] ==> data[|data| - 1] != 0
  }

  /** The registers and the data bytes sent so far spell exactly the low end of the interval e. */
  ghost predicate Coupled(e: Exact, r: Registers, data: seq<byte>)
  {
    && InRange(r)
    && (r.buffer < 0 ==> data == [] && r.zc == 0)
    && (r.ct > 8 ==> Produced(data, r) == [])
    && NoTrailingZero(data)
    && r.a == e.width
    && e.shifts + r.ct == 8 * |Produced(data, r)| + 11
    && e.low == Be(Produced(data, r)) * Pow2(27 - r.ct) + r.c
  }

  lemma StartCoupled(tab: seq<int>)
    ensures Coupled(Start(tab), START, [])
  {
  }

  lemma {:induction false} BeOnes(n: nat)
    ensures Be(Fill(0xFF, n)) + 1 == Pow2(8 * n)
  {
    if n == 0 {
      assert Fill(0xFF, 0) == [];
    } else {
      BeOnes(n - 1);
      FillSnoc(0xFF, n - 1);
      BeSnoc(Fill(0xFF, n - 1), 0xFF);
      Pow2Add(8 * (n - 1), 8);
      Pow2Values();
    }
  }

  /** A carry into stacked 0xFF bytes turns them into zeros and increments the byte before them. */
  lemma {:induction false} BeCarry(s: seq<byte>, b: byte, n: nat)
    requires b < 0xFF
    ensures Be(s + [b + 1] + Fill(0, n)) == Be(s + [b] + Fill(0xFF, n)) + 1
  {
    if n == 0 {
      assert s + [b + 1] + Fill(0, 0) == s + [b + 1];
      assert s + [b] + Fill(0xFF, 0) == s + [b];
      BeSnoc(s, b + 1);
      BeSnoc(s, b);
    } else {
      BeCarry(s, b, n - 1);
      FillSnoc(0, n - 1);
      FillSnoc(0xFF, n - 1);
      assert s + [b + 1] + Fill(0, n) == (s + [b + 1] + Fill(0, n - 1)) + [0];
      assert s + [b] + Fill(0xFF, n) == (s + [b] + Fill(0xFF, n - 1)) + [0xFF];
      BeSnoc(s + [b + 1] + Fill(0, n - 1), 0);
      BeSnoc(s + [b] + Fill(0xFF, n - 1), 0xFF);
    }
  }

  /** With no byte in the buffer only 0xFF bytes are held, and they reach to the top of the unit interval. */
  lemma OnesReachTheTop(e: Exact, r: Registers, data: seq<byte>)
    requires Coupled(e, r, data) && r.buffer < 0
    ensures e.low - r.c + Pow2(27 - r.ct) == Pow2(16 + e.shifts)
  {
    assert Produced(data, r) == Fill(0xFF, r.sc);
    BeOnes(r.sc);
    var ones, unit := Be(Fill(0xFF, r.sc)), Pow2(27 - r.ct);
    assert ones * unit + unit == (ones + 1) * unit;
    Pow2Add(8 * r.sc, 27 - r.ct);
  }

  /** When a byte is due and c has overflowed, there is a byte below 0xFF waiting to take the carry,
      and the new byte is at most 0x1F, so the buffer never holds 0xFF. */
  lemma CarryHasRoom(e: Exact, r: Registers, data: seq<byte>)
    requires Coupled(e, r, data) && r.ct == 0 && r.c >= 0x800_0000
    requires InUnit(e)
    ensures 0 <= r.buffer < 0xFF
    ensures r.c / 0x8_0000 - 0x100 <= 0x1F
  {
    Pow2Values();
    if r.buffer < 0 {
      OnesReachTheTop(e, r, data);
      assert false;
    }
  }

  /** Until the first byte is due, c itself is the low end and leaves the spacer bits free. */
  lemma FirstByteSpacing(e: Exact, r: Registers, data: seq<byte>)
    requires Coupled(e, r, data) && 8 < r.ct
    requires InUnit(e)
    ensures r.c + r.a <= 0x4_0000
  {
    Pow2Values();
    assert Be([]) == 0;
    assert 16 + e.shifts == 27 - r.ct;
    assert Pow2(17) == 0x2_0000;
    assert Pow2(18) == 0x4_0000;
  }

  /** Moving on by one bit keeps the coupling. */
  lemma ShiftCoupled(e: Exact, r: Registers, data: seq<byte>)
    requires Coupled(e, r, data) && 0 < r.ct && r.a < 0x8000
    requires InUnit(e)
    ensures Coupled(Doubled(e), r.(a := 2 * r.a, c := 2 * r.c, ct := r.ct - 1), data)
  {
    var r' := r.(a := 2 * r.a, c := 2 * r.c, ct := r.ct - 1);
    assert Produced(data, r') == Produced(data, r);
    var p, unit := Be(Produced(data, r)), Pow2(27 - r.ct);
    assert Pow2(27 - r'.ct) == 2 * unit;
    assert p * (2 * unit) == 2 * (p * unit);
    assert InRange(r') by {
      if r.ct <= 8 {
        assert Pow2(8 - r'.ct) == 2 * Pow2(8 - r.ct);
      } else {
        FirstByteSpacing(e, r, data);
        assert Pow2(0) == 1;
      }
    }
  }

  /** Narrowing the interval moves a and c exactly as it moves the width and the low end. */
  lemma NarrowCoupled(e: Exact, r: Registers, data: seq<byte>, n: Exact, r': Registers)
    requires Coupled(e, r, data)
    requires 0 < n.width && e.low <= n.low && n.low + n.width <= e.low + e.width && n.shifts == e.shifts
    requires r' == r.(c := r.c + (n.low - e.low), a := n.width)
    ensures Coupled(n, r', data)
  {
    assert Produced(data, r') == Produced(data, r);
  }

  /** Taking the top byte out of c keeps the coupling when the bytes produced absorb its exact value. */
  lemma ByteCoupled(e: Exact, r: Registers, data: seq<byte>, r': Registers, data': seq<byte>)
    requires Coupled(e, r, data) && r.ct == 0
    requires r' == r.(c := r.c % 0x8_0000, ct := 8, sc := r'.sc, zc := r'.zc, buffer := r'.buffer)
    requires r'.sc >= 0 && r'.zc >= 0 && -1 <= r'.buffer < 0xFF
    requires r'.buffer < 0 ==> data' == [] && r'.zc == 0
    requires NoTrailingZero(data')
    requires |Produced(data', r')| == |Produced(data, r)| + 1
    requires Be(Produced(data', r')) == 256 * Be(Produced(data, r)) + r.c / 0x8_0000
    ensures Coupled(e, r', data')
  {
    Pow2Values();
    assert Pow2(0) == 1;
    var p, top := Be(Produced(data, r)), r.c / 0x8_0000;
    assert r.c == top * 0x8_0000 + r.c % 0x8_0000;
    assert p * 0x800_0000 + top * 0x8_0000 == (256 * p + top) * 0x8_0000;
  }

  /** The bytes sent when a carry goes through: zeros, the incremented buffer; stacked bytes become zeros. */
  lemma CarryProduced(data: seq<byte>, r: Registers, data': seq<byte>, r': Registers)
    requires r.zc >= 0 && r.sc >= 0 && 0 <= r.buffer < 0xFF && r'.zc == r.sc && r'.sc == 0
    requires data' == data + Fill(0, r.zc) + [r.buffer + 1]
    ensures Be(data' + Fill(0, r'.zc)) == Be(Produced(data, r)) + 1
    ensures |data' + Fill(0, r'.zc)| == |Produced(data, r)|
  {
    BeCarry(data + Fill(0, r.zc), r.buffer, r.sc);
  }

  lemma ByteCarried(e: Exact, r: Registers, data: seq<byte>, data': seq<byte>)
    requires Coupled(e, r, data) && r.ct == 0 && r.c >= 0x800_0000
    requires InUnit(e)
    requires r.buffer >= 0 ==> data' == data + Fill(0, r.zc) + [r.buffer + 1]
    ensures r.buffer >= 0
    ensures Coupled(e, Registers(r.c % 0x8_0000, r.a, 0, r.sc, 8, r.c / 0x8_0000 % 0x100), data')
  {
    CarryHasRoom(e, r, data);
    var r' := Registers(r.c % 0x8_0000, r.a, 0, r.sc, 8, r.c / 0x8_0000 % 0x100);
    CarryProduced(data, r, data', r');
    assert r'.buffer == r.c / 0x8_0000 - 0x100;
    assert Produced(data', r') == data' + Fill(0, r'.zc) + [r'.buffer];
    BeSnoc(data' + Fill(0, r'.zc), r'.buffer);
    ByteCoupled(e, r, data, r', data');
  }

  lemma ByteStacked(e: Exact, r: Registers, data: seq<byte>)
    requires Coupled(e, r, data) && r.ct == 0 && r.c / 0x8_0000 == 0xFF
    ensures Coupled(e, r.(c := r.c % 0x8_0000, sc := r.sc + 1, ct := 8), data)
  {
    var r' := r.(c := r.c % 0x8_0000, sc := r.sc + 1, ct := 8);
    FillSnoc(0xFF, r.sc);
    assert Produced(data, r') == Produced(data, r) + [0xFF];
    BeSnoc(Produced(data, r), 0xFF);
    ByteCoupled(e, r, data, r', data);
  }

  /** The held bytes are settled: they can no longer change, and only zeros are still held back. */
  ghost predicate Settled(data: seq<byte>, r: Registers, data': seq<byte>, zc: int)
    requires r.zc >= 0 && r.sc >= 0 && -1 <= r.buffer < 256
  {
    zc >= 0 && NoTrailingZero(data') && data' + Fill(0, zc) == Produced(data, r)
  }

  lemma ByteSettled(e: Exact, r: Registers, data: seq<byte>, data': seq<byte>, zc: int)
    requires Coupled(e, r, data) && r.ct == 0 && r.c / 0x8_0000 < 0xFF
    requires Settled(data, r, data', zc)
    ensures Coupled(e, Registers(r.c % 0x8_0000, r.a, 0, zc, 8, r.c / 0x8_0000 % 0x100), data')
  {
    var r' := Registers(r.c % 0x8_0000, r.a, 0, zc, 8, r.c / 0x8_0000 % 0x100);
    assert Produced(data', r') == Produced(data, r) + [r'.buffer];
    BeSnoc(Produced(data, r), r'.buffer);
    ByteCoupled(e, r, data, r', data');
  }

  /** Each data byte 0xFF is followed by a stuffed zero (section B.1.1.5). */
  function Stuff(data: seq<byte>): seq<byte>
  {
    if data == [] then []
    else
      var b := data[|data| - 1];
      Stuff(data[..|data| - 1]) + (if b == 0xFF then [0xFF, 0x00] else [b])
  }

  /** Stuffed data has no markers: behind every byte 0xFF there is a zero. */
  lemma {:induction false} NoMarkers(data: seq<byte>, i: nat)
    requires i < |Stuff(data)| && Stuff(data)[i] == 0xFF
    ensures i + 1 < |Stuff(data)| && Stuff(data)[i + 1] == 0
  {
    var before := data[..|data| - 1];
    if i < |Stuff(before)| {
      NoMarkers(before, i);
    }
  }

  lemma StuffSnoc(data: seq<byte>, b: byte)
    ensures Stuff(data + [b]) == Stuff(data) + (if b == 0xFF then [0xFF, 0x00] else [b])
  {
    assert (data + [b])[..|data|] == data;
  }
}
