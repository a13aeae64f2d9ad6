/** The MCU encoding routines of jcarith.c, as they drive the coder; each is proved against McuCoding. */
module McuEncoder {
  import opened Numbers
  import opened IntervalCoder
  import opened ArithEncoder
  import opened JpegScan
  import opened McuCoding

  /** arith_encode on one bin of an area. */
  method Emit(e: Encoder, area: Area, idx: nat, bit: bool)
    requires e.Valid() && e.HasBin(Bin(area, idx))
    modifies e, e.dcStats, e.acStats, e.fixedBin
    ensures e.Valid() && e.history == Put(old(e.history), area, idx, bit)
    ensures e.prior == old(e.prior) && e.live == old(e.live)
  {
    e.Encode(Bin(area, idx), bit);
  }

  /** while (v2 >>= 1) { arith_encode(st, 1); m <<= 1; st += 1; }, then arith_encode(st, 0). */
  method EmitCategory(e: Encoder, area: Area, base: nat, lead: nat, v2: nat, ghost k: nat) returns (st: nat, m: nat)
    requires e.Valid() && area in e.live && k <= 1 && lead == Pow2(k) && 0 < v2 < Pow2(16 - k)
    requires forall i :: base <= i <= base + 15 ==> InArea(Bin(area, i))
    modifies e, e.dcStats, e.acStats, e.fixedBin
    ensures var c := CategoryFrom(old(e.history), area, base, lead, v2);
      st == c.st && m == c.m && e.history == Put(c.h, area, c.st, false)
    ensures e.Valid() && e.prior == old(e.prior) && e.live == old(e.live)
    ensures base <= st <= base + 15
  {
    hide Encoder.Valid, Put;
    m, st := lead, base;
    var rest := v2;
    ghost var j := k;
    while rest / 2 > 0
      invariant e.Valid() && e.prior == old(e.prior) && e.live == old(e.live)
      invariant k <= j <= 15 && 0 < rest < Pow2(16 - j) && st == base + (j - k)
      invariant CategoryFrom(e.history, area, st, m, rest) == CategoryFrom(old(e.history), area, base, lead, v2)
      decreases rest
    {
      assert Pow2(16 - j) == 2 * Pow2(15 - j);
      assert Pow2(1) == 2;
      Emit(e, area, st, true);
      rest, m, st, j := rest / 2, 2 * m, st + 1, j + 1;
    }
    Emit(e, area, st, false);
  }

  /** while (m >>= 1) arith_encode(st, (m & v) ? 1 : 0); m is a power of two. */
  method EmitBits(e: Encoder, area: Area, st: nat, lead: nat, v: nat)
    requires e.Valid() && (lead > 1 ==> e.HasBin(Bin(area, st)))
    modifies e, e.dcStats, e.acStats, e.fixedBin
    ensures e.Valid() && e.prior == old(e.prior) && e.live == old(e.live)
    ensures e.history == BitsBelow(old(e.history), area, st, lead, v)
  {
    hide Encoder.Valid, Put;
    var m: nat := lead;
    while m / 2 > 0
      invariant e.Valid() && e.prior == old(e.prior) && e.live == old(e.live) && m <= lead
      invariant BitsBelow(e.history, area, st, m, v) == BitsBelow(old(e.history), area, st, lead, v)
      decreases m
    {
      m := m / 2;
      Emit(e, area, st, v / m % 2 == 1);
    }
  }

  /** Figures F.8 and F.9 for a DC magnitude v (less one); returns its leading bit. */
  method EmitDcMagnitude(e: Encoder, tbl: nat, st0: nat, v: nat) returns (m: nat)
    requires e.Valid() && DcArea(tbl) in e.live && tbl < 16 && st0 < 20 && v < 0x1_0000
    modifies e, e.dcStats, e.acStats, e.fixedBin
    ensures var c := DcCategory(old(e.history), tbl, st0, v);
      m == c.m && e.history == FinishMagnitude(c, DcArea(tbl), v)
    ensures e.Valid() && e.prior == old(e.prior) && e.live == old(e.live)
  {
    hide Encoder.Valid;
    var st := st0;
    m := 0;
    if v != 0 {
      Emit(e, DcArea(tbl), st, true);
      Pow2Values();
      assert Pow2(0) == 1;
      st, m := EmitCategory(e, DcArea(tbl), 20, 1, v, 0);
    } else {
      Emit(e, DcArea(tbl), st, false);
    }
    EmitBits(e, DcArea(tbl), st + 14, m, v);
  }

  method EmitAcMagnitude(e: Encoder, tbl: nat, st0: nat, high: bool, v: nat)
    requires e.Valid() && AcArea(tbl) in e.live && tbl < 16 && st0 < 189 && v < 0x8000
    modifies e, e.dcStats, e.acStats, e.fixedBin
    ensures e.history == FinishMagnitude(AcCategory(old(e.history), tbl, st0, high, v), AcArea(tbl), v)
    ensures e.Valid() && e.prior == old(e.prior) && e.live == old(e.live)
  {
    hide Encoder.Valid;
    var area, st, m := AcArea(tbl), st0, 0;
    if v != 0 {
      Emit(e, area, st, true);
      m := 1;
      if v / 2 != 0 {
        Emit(e, area, st, true);
        Pow2Values();
        assert Pow2(1) == 2 && Pow2(16) == 2 * Pow2(15);
        st, m := EmitCategory(e, area, if high then 217 else 189, 2, v / 2, 1);
      } else {
        Emit(e, area, st, false);
      }
    } else {
      Emit(e, area, st, false);
    }
    EmitBits(e, area, st + 14, m, v);
  }

  /** Figure F.6 for the coefficient value at position k, in zigzag order. */
  method EmitNonzero(e: Encoder, tbl: nat, kx: nat, k: nat, value: int)
    requires e.Valid() && AcArea(tbl) in e.live && FixedArea in e.live && tbl < 16
    requires 0 < k < 64 && 0 < Abs(value) <= 0x8000
    modifies e, e.dcStats, e.acStats, e.fixedBin
    ensures e.history == CodeNonzero(old(e.history), tbl, kx, k, value)
    ensures e.Valid() && e.prior == old(e.prior) && e.live == old(e.live)
  {
    hide Encoder.Valid;
    Emit(e, AcArea(tbl), 3 * (k - 1) + 1, true);
    Emit(e, FixedArea, 0, value < 0);
    EmitAcMagnitude(e, tbl, 3 * (k - 1) + 2, k > kx, Abs(value) - 1);
  }

  /** The coefficient at position k of the block after the point transform. */
  method Coefficient(b: Block, order: seq<nat>, al: nat, se: nat, k: nat) returns (v: int)
    requires IsBlock(b) && IsOrder(order) && k <= se < 64
    ensures v == Scanned(b, order, al, se)[k] && Abs(v) <= 0x8000
  {
    v := b[order[k]];
    QuotBound(v, al);
    if v >= 0 {
      v := v / Pow2(al);
    } else {
      v := -(-v / Pow2(al));
    }
  }

  /** do { if (coefficient ke is not zero) break; } while (--ke); */
  method FindEnd(b: Block, order: seq<nat>, al: nat, se: nat, start: nat) returns (ke: nat)
    requires IsBlock(b) && IsOrder(order) && start <= se < 64
    ensures ke == EndOfBlock(Scanned(b, order, al, se), start)
  {
    ke := start;
    ghost var z := Scanned(b, order, al, se);
    while ke > 0
      invariant ke <= start && EndOfBlock(z, ke) == EndOfBlock(z, start)
    {
      var v := Coefficient(b, order, al, se, ke);
      if v != 0 {
        return;
      }
      ke := ke - 1;
    }
  }

  /** The loop over zero coefficients: k is the position of the next nonzero one, whose value is v. */
  method EmitZeros(e: Encoder, tbl: nat, k0: nat, ghost ke: nat, b: Block, order: seq<nat>, al: nat, se: nat)
    returns (k: nat, v: int)
    requires e.Valid() && AcArea(tbl) in e.live && tbl < 16
    requires IsBlock(b) && IsOrder(order) && k0 < ke <= se < 64 && Scanned(b, order, al, se)[ke] != 0
    modifies e, e.dcStats, e.acStats, e.fixedBin
    ensures SkipZeros(old(e.history), tbl, k0, ke, Scanned(b, order, al, se)) == AcCoded(e.history, k)
    ensures k0 < k <= ke && v == Scanned(b, order, al, se)[k] && v != 0 && Abs(v) <= 0x8000
    ensures e.Valid() && e.prior == old(e.prior) && e.live == old(e.live)
  {
    hide Encoder.Valid, Put;
    ghost var z := Scanned(b, order, al, se);
    k := k0 + 1;
    v := Coefficient(b, order, al, se, k);
    while v == 0
      invariant k0 < k <= ke && v == z[k] && Abs(v) <= 0x8000
      invariant e.Valid() && e.prior == old(e.prior) && e.live == old(e.live)
      invariant SkipZeros(e.history, tbl, k - 1, ke, z) == SkipZeros(old(e.history), tbl, k0, ke, z)
      decreases ke - k
    {
      Emit(e, AcArea(tbl), 3 * (k - 1) + 1, false);
      k := k + 1;
      v := Coefficient(b, order, al, se, k);
    }
  }

  /** encode_mcu_AC_first, and the AC part of encode_mcu with al == 0: the band ss..se of one block. */
  method EmitAc(e: Encoder, tbl: nat, kx: nat, ss: nat, se: nat, al: nat, b: Block, order: seq<nat>)
    requires e.Valid() && AcArea(tbl) in e.live && FixedArea in e.live && tbl < 16
    requires IsBlock(b) && IsOrder(order) && 0 < ss <= se < 64
    modifies e, e.dcStats, e.acStats, e.fixedBin
    ensures e.history == CodeAc(old(e.history), tbl, kx, ss, se, Scanned(b, order, al, se))
    ensures e.Valid() && e.prior == old(e.prior) && e.live == old(e.live)
  {
    hide Encoder.Valid, SkipZeros, CodeNonzero, Scanned;
    ghost var z := Scanned(b, order, al, se);
    var ke := FindEnd(b, order, al, se, se);
    var k: nat := ss - 1;
    while k < ke
      invariant ss - 1 <= k && (k < ke ==> z[ke] != 0) && k < 64
      invariant e.Valid() && e.prior == old(e.prior) && e.live == old(e.live)
      invariant CodeAcFrom(e.history, tbl, kx, k, ke, z) == CodeAcFrom(old(e.history), tbl, kx, ss - 1, ke, z)
      decreases ke - k
    {
      Emit(e, AcArea(tbl), 3 * k, false);
      var v;
      k, v := EmitZeros(e, tbl, k, ke, b, order, al, se);
      EmitNonzero(e, tbl, kx, k, v);
    }
    if k < se {
      Emit(e, AcArea(tbl), 3 * k, true);
    }
  }

  /** The next bit of a coefficient that was nonzero before, or the sign of a new one. */
  method EmitRefined(e: Encoder, tbl: nat, k: nat, v: int)
    requires e.Valid() && AcArea(tbl) in e.live && FixedArea in e.live && tbl < 16 && 0 < k < 64
    modifies e, e.dcStats, e.acStats, e.fixedBin
    ensures e.history == RefineNonzero(old(e.history), tbl, k, v)
    ensures e.Valid() && e.prior == old(e.prior) && e.live == old(e.live)
  {
    hide Encoder.Valid;
    if Abs(v) / 2 != 0 {
      Emit(e, AcArea(tbl), 3 * (k - 1) + 2, Abs(v) % 2 == 1);
    } else {
      Emit(e, AcArea(tbl), 3 * (k - 1) + 1, true);
      Emit(e, FixedArea, 0, v < 0);
    }
  }

  /** encode_mcu_AC_refine. */
  method EmitRefinement(e: Encoder, tbl: nat, ss: nat, se: nat, ah: nat, al: nat, b: Block, order: seq<nat>)
    requires e.Valid() && AcArea(tbl) in e.live && FixedArea in e.live && tbl < 16
    requires IsBlock(b) && IsOrder(order) && 0 < ss <= se < 64
    modifies e, e.dcStats, e.acStats, e.fixedBin
    ensures e.history == RefineAc(old(e.history), tbl, ss, se, Scanned(b, order, al, se), Scanned(b, order, ah, se))
    ensures e.Valid() && e.prior == old(e.prior) && e.live == old(e.live)
  {
    hide Encoder.Valid, SkipZeros, Scanned, RefineNonzero, EndOfBlock;
    ghost var z := Scanned(b, order, al, se);
    var ke := FindEnd(b, order, al, se, se);
    var kex := FindEnd(b, order, ah, se, ke);
    var k: nat := ss - 1;
    while k < ke
      invariant ss - 1 <= k && (k < ke ==> z[ke] != 0) && k < 64
      invariant e.Valid() && e.prior == old(e.prior) && e.live == old(e.live)
      invariant RefineAcFrom(e.history, tbl, k, ke, kex, z) == RefineAcFrom(old(e.history), tbl, ss - 1, ke, kex, z)
      decreases ke - k
    {
      if k >= kex {
        Emit(e, AcArea(tbl), 3 * k, false);
      }
      var v;
      k, v := EmitZeros(e, tbl, k, ke, b, order, al, se);
      EmitRefined(e, tbl, k, v);
    }
    if k < se {
      Emit(e, AcArea(tbl), 3 * k, true);
    }
  }
}
