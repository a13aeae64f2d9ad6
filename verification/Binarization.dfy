/** Tables F.4 and F.5 and figures F.4 to F.9 and G.10 of ITU-T T.81 in closed form: which decisions a value is coded to,
    one after the other, and which bins condition them. */
module Binarization {
  import opened Numbers
  import opened IntervalCoder
  import opened JpegScan
  import opened McuCoding
  import opened ScanCoding
  import opened ScanRoundTrip

  /** The number of bits of v. */
  function BitLength(v: nat): (n: nat)
    ensures n == 0 <==> v == 0
    ensures v > 0 ==> Pow2(n - 1) <= v < Pow2(n)
  {
    if v == 0 then 0
    else
      assert Pow2(0) == 1;
      1 + BitLength(v / 2)
  }

  /** j decisions 1, each with a bin of its own. */
  function Ones(area: Area, st: nat, j: nat): (r: History)
    ensures |r| == j
  {
    seq(j, i requires 0 <= i < j => Decision(Bin(area, st + i), true))
  }

  function BitOf(v: nat, k: nat): bool
  {
    v / Pow2(k) % 2 == 1
  }

  /** The lowest j bits of v, the highest first, all with one bin. */
  function Bits(area: Area, st: nat, j: nat, v: nat): (r: History)
    ensures |r| == j
  {
    seq(j, i requires 0 <= i < j => Decision(Bin(area, st), BitOf(v, j - 1 - i)))
  }

  /** The magnitude category n of v counted up from bin x, and then the bits of v below the leading one. */
  function MagnitudeBits(area: Area, x: nat, n: nat, v: nat, bits: nat): History
  {
    Ones(area, x, n) + [Decision(Bin(area, x + n), false)] + Bits(area, x + n + 14, bits, v)
  }

  lemma {:induction false} CategoryIs(h: History, area: Area, st: nat, m: nat, v2: nat)
    requires v2 > 0
    ensures var c, j := CategoryFrom(h, area, st, m, v2), BitLength(v2) - 1;
      c.h == h + Ones(area, st, j) && c.st == st + j && c.m == m * Pow2(j)
    decreases v2
  {
    var j := BitLength(v2) - 1;
    if v2 / 2 == 0 {
      assert BitLength(v2 / 2) == 0 && Pow2(0) == 1;
    } else {
      CategoryIs(Put(h, area, st, true), area, st + 1, 2 * m, v2 / 2);
      assert Ones(area, st, j) == [Decision(Bin(area, st), true)] + Ones(area, st + 1, j - 1);
      assert Pow2(j) == 2 * Pow2(j - 1);
      MulAssoc(m, 2, Pow2(j - 1));
    }
  }

  lemma {:induction false} BitsAre(h: History, area: Area, st: nat, j: nat, v: nat)
    ensures BitsBelow(h, area, st, Pow2(j), v) == h + Bits(area, st, j, v)
    decreases j
  {
    if j == 0 {
      assert Pow2(0) == 1;
    } else {
      var first := BitOf(v, j - 1);
      assert BitsBelow(h, area, st, Pow2(j), v) == BitsBelow(Put(h, area, st, first), area, st, Pow2(j - 1), v) by {
        assert Pow2(j) / 2 == Pow2(j - 1);
      }
      hide BitsBelow, Pow2, BitOf;
      BitsAre(Put(h, area, st, first), area, st, j - 1, v);
      assert Bits(area, st, j, v) == [Decision(Bin(area, st), first)] + Bits(area, st, j - 1, v);
    }
  }

  // ---- DC values ----

  /** What follows the decision whether a DC magnitude, less one, is zero. */
  function DcRest(tbl: nat, v: nat): History
  {
    if v == 0 then [] else MagnitudeBits(DcArea(tbl), 20, BitLength(v) - 1, v, BitLength(v) - 1)
  }

  /** The decisions for a DC difference: zero or not, sign, and then the magnitude less one. S is the context. */
  function DcDecisions(tbl: nat, s: nat, diff: int): History
  {
    var area := DcArea(tbl);
    if diff == 0 then [Decision(Bin(area, s), false)]
    else
      var v := Abs(diff) - 1;
      [Decision(Bin(area, s), true), Decision(Bin(area, s + 1), diff < 0),
       Decision(Bin(area, s + (if diff < 0 then 3 else 2)), v > 0)]
      + DcRest(tbl, v)
  }

  /** Section F.1.4.4.1.2: zero, small positive, small negative, large positive, large negative differences. */
  function ConditioningOf(diff: int, lower: nat, upper: nat): nat
  {
    if Abs(diff) <= Pow2(lower) / 2 then 0
    else (if diff < 0 then 8 else 4) + (if Abs(diff) > Pow2(upper) then 8 else 0)
  }

  lemma DcMagnitude(h: History, tbl: nat, st: nat, v: nat)
    ensures var c := DcCategory(h, tbl, st, v);
      && c.m == (if v == 0 then 0 else Pow2(BitLength(v) - 1))
      && FinishMagnitude(c, DcArea(tbl), v) == h + ([Decision(Bin(DcArea(tbl), st), v > 0)] + DcRest(tbl, v))
  {
    var area := DcArea(tbl);
    if v > 0 {
      hide MagnitudeBits;
      CategoryFinished(Put(h, area, st, true), area, 20, 1, v, BitLength(v) - 1, v);
      assert Pow2(0) == 1;
      Regroup(h, [Decision(Bin(area, st), true)], DcRest(tbl, v));
    }
  }

  lemma Regroup(a: History, b: History, c: History)
    ensures a + b + c == a + (b + c)
  {
  }

  /** The category of v2, and then the bits of v, whose leading bit has been found by then. */
  lemma CategoryFinished(h: History, area: Area, x: nat, m: nat, v2: nat, bits: nat, v: nat)
    requires v2 > 0 && m * Pow2(BitLength(v2) - 1) == Pow2(bits)
    ensures CategoryFrom(h, area, x, m, v2).m == Pow2(bits)
    ensures FinishMagnitude(CategoryFrom(h, area, x, m, v2), area, v)
         == h + MagnitudeBits(area, x, BitLength(v2) - 1, v, bits)
  {
    hide CategoryFrom, Ones, Bits, BitLength, Pow2, BitsBelow;
    var c, j := CategoryFrom(h, area, x, m, v2), BitLength(v2) - 1;
    CategoryIs(h, area, x, m, v2);
    BitsAre(Put(c.h, area, c.st, false), area, c.st + 14, bits, v);
    assert h + Ones(area, x, j) + [Decision(Bin(area, x + j), false)] + Bits(area, x + j + 14, bits, v)
        == h + (Ones(area, x, j) + [Decision(Bin(area, x + j), false)] + Bits(area, x + j + 14, bits, v));
  }

  /** What a DC value is coded to, and what its difference is conditioned on next. */
  lemma DcIs(h: History, tbl: nat, p: Prediction, dc: int, lower: nat, upper: nat)
    ensures var c, diff := CodeDc(h, tbl, p, dc, lower, upper), dc - p.last;
      && c.h == h + DcDecisions(tbl, p.context, diff)
      && c.p.last == dc && c.p.context == ConditioningOf(diff, lower, upper)
  {
    hide MagnitudeBits, BitLength, Pow2, FinishMagnitude, DcCategory, DcRest;
    var diff, area := dc - p.last, DcArea(tbl);
    NoDifference(lower, upper);
    if diff != 0 {
      var v, st := Abs(diff) - 1, p.context + (if diff < 0 then 3 else 2);
      var h2 := Put(Put(h, area, p.context, true), area, p.context + 1, diff < 0);
      DcMagnitude(h2, tbl, st, v);
      LeadingBit(v, lower, upper);
      Prefixed(h, Decision(Bin(area, p.context), true), Decision(Bin(area, p.context + 1), diff < 0),
               Decision(Bin(area, st), v > 0), DcRest(tbl, v));
    }
  }

  lemma NoDifference(lower: nat, upper: nat)
    ensures ConditioningOf(0, lower, upper) == 0
  {
  }

  lemma Prefixed(h: History, a: Decision, b: Decision, c: Decision, rest: History)
    ensures h + [a] + [b] + ([c] + rest) == h + ([a, b, c] + rest)
  {
  }

  /** The tests on the leading bit of the magnitude less one are tests on the magnitude. */
  lemma LeadingBit(v: nat, lower: nat, upper: nat)
    ensures var m := if v == 0 then 0 else Pow2(BitLength(v) - 1);
      && (m < Pow2(lower) / 2 <==> v + 1 <= Pow2(lower) / 2)
      && (m > Pow2(upper) / 2 <==> v + 1 > Pow2(upper))
  {
    assert Pow2(0) == 1;
    Halved(lower);
    Halved(upper);
    if v > 0 {
      var j := BitLength(v) - 1;
      Pow2Compare(j, lower - 1);
      Pow2Compare(j + 1, lower - 1);
      Pow2Compare(j, upper - 1);
      Pow2Compare(j, upper);
      Pow2Compare(j + 1, upper);
    }
  }

  lemma Halved(k: nat)
    ensures Pow2(k) / 2 == if k == 0 then 0 else Pow2(k - 1)
  {
  }

  lemma {:induction false} Pow2Compare(a: nat, b: int)
    ensures b >= 0 ==> (Pow2(a) <= Pow2(b) <==> a <= b)
    decreases if a <= b then b else a
  {
    if 0 <= b && a < b {
      Pow2Compare(a, b - 1);
    } else if 0 <= b < a {
      Pow2Compare(a - 1, b);
    }
  }

  // ---- AC coefficients ----

  /** A nonzero AC coefficient at position k: not zero, sign, and the magnitude less one. Magnitudes from 3 on have bins
      of their own for low and for high positions. */
  function AcDecisions(tbl: nat, kx: nat, k: nat, value: int): History
    requires k > 0 && value != 0
  {
    var area, st, v := AcArea(tbl), 3 * k - 1, Abs(value) - 1;
    [Decision(Bin(area, 3 * k - 2), true), Decision(Bin(FixedArea, 0), value < 0), Decision(Bin(area, st), v > 0)]
    + (if v == 0 then [] else [Decision(Bin(area, st), v > 1)])
    + (if v <= 1 then [] else MagnitudeBits(area, if k > kx then 217 else 189, BitLength(v) - 2, v, BitLength(v) - 1))
  }

  lemma NonzeroIs(h: History, tbl: nat, kx: nat, k: nat, value: int)
    requires k > 0 && value != 0
    ensures CodeNonzero(h, tbl, kx, k, value) == h + AcDecisions(tbl, kx, k, value)
  {
    hide MagnitudeBits, CategoryFrom, Pow2, BitLength, FinishMagnitude;
    var area, v := AcArea(tbl), Abs(value) - 1;
    var first := [Decision(Bin(area, 3 * k - 2), true), Decision(Bin(FixedArea, 0), value < 0)];
    var signed := Put(Put(h, area, 3 * k - 2, true), FixedArea, 0, value < 0);
    assert signed == h + first;
    if v <= 1 {
      SmallMagnitude(h, first, tbl, 3 * k - 1, k > kx, v);
    } else {
      LargeMagnitude(h, first, tbl, 3 * k - 1, k > kx, v);
    }
  }

  lemma SmallMagnitude(h: History, first: History, tbl: nat, st: nat, high: bool, v: nat)
    requires v <= 1
    ensures var d := Decision(Bin(AcArea(tbl), st), v > 0);
      FinishMagnitude(AcCategory(h + first, tbl, st, high, v), AcArea(tbl), v)
      == h + (first + [d] + (if v == 0 then [] else [Decision(Bin(AcArea(tbl), st), false)]) + [])
  {
    if v == 0 {
      assert h + first + [Decision(Bin(AcArea(tbl), st), false)]
          == h + (first + [Decision(Bin(AcArea(tbl), st), false)] + [] + []);
    }
  }

  lemma LargeMagnitude(h: History, first: History, tbl: nat, st: nat, high: bool, v: nat)
    requires v > 1
    ensures var d := [Decision(Bin(AcArea(tbl), st), true)];
      FinishMagnitude(AcCategory(h + first, tbl, st, high, v), AcArea(tbl), v)
      == h + (first + d + d + MagnitudeBits(AcArea(tbl), if high then 217 else 189, BitLength(v) - 2, v, BitLength(v) - 1))
  {
    hide MagnitudeBits, CategoryFrom, FinishMagnitude;
    var d, x := Decision(Bin(AcArea(tbl), st), true), if high then 217 else 189;
    assert 2 * Pow2(BitLength(v / 2) - 1) == Pow2(BitLength(v) - 1) by { Doubles(BitLength(v) - 1); }
    hide Pow2;
    CategoryFinished(Put(Put(h + first, AcArea(tbl), st, true), AcArea(tbl), st, true), AcArea(tbl), x, 2, v / 2,
                     BitLength(v) - 1, v);
    FiveParts(h, first, d, MagnitudeBits(AcArea(tbl), x, BitLength(v) - 2, v, BitLength(v) - 1));
  }

  lemma Doubles(k: nat)
    requires k > 0
    ensures Pow2(k) == 2 * Pow2(k - 1)
  {
  }

  lemma FiveParts(h: History, first: History, d: Decision, rest: History)
    ensures h + first + [d] + [d] + rest == h + (first + [d] + [d] + rest)
  {
  }

  /** The coefficients k..ke one by one. Before the first one, and behind each nonzero one, it is said that the block
      does not end yet. */
  function Band(tbl: nat, kx: nat, z: seq<int>, k: nat, ke: nat, first: bool): History
    requires 0 < k && ke < |z|
    decreases ke + 1 - k
  {
    if k > ke then []
    else
      (if first then [Decision(Bin(AcArea(tbl), 3 * (k - 1)), false)] else [])
      + (if z[k] == 0 then [Decision(Bin(AcArea(tbl), 3 * (k - 1) + 1), false)] else AcDecisions(tbl, kx, k, z[k]))
      + Band(tbl, kx, z, k + 1, ke, z[k] != 0)
  }

  /** The band ss..se: the coefficients up to the last nonzero one, and the end of the block unless that is the last of
      the band. */
  function BandDecisions(tbl: nat, kx: nat, ss: nat, se: nat, z: seq<int>): History
    requires 0 < ss <= se < |z|
  {
    var ke := EndOfBlock(z, se);
    Band(tbl, kx, z, ss, ke, true)
    + (if ke == se then [] else [Decision(Bin(AcArea(tbl), 3 * (if ke < ss then ss - 1 else ke)), true)])
  }

  lemma {:induction false} ZerosAre(h: History, tbl: nat, kx: nat, k: nat, ke: nat, z: seq<int>)
    requires k < ke < |z| && z[ke] != 0
    ensures var s := SkipZeros(h, tbl, k, ke, z);
      h + Band(tbl, kx, z, k + 1, ke, false)
      == s.h + (AcDecisions(tbl, kx, s.k, z[s.k]) + Band(tbl, kx, z, s.k + 1, ke, true))
    decreases ke - k
  {
    hide AcDecisions;
    if z[k + 1] == 0 {
      ZerosAre(Put(h, AcArea(tbl), 3 * k + 1, false), tbl, kx, k + 1, ke, z);
      Regroup(h, [Decision(Bin(AcArea(tbl), 3 * k + 1), false)], Band(tbl, kx, z, k + 2, ke, false));
      assert [] + [Decision(Bin(AcArea(tbl), 3 * k + 1), false)] == [Decision(Bin(AcArea(tbl), 3 * k + 1), false)];
    } else {
      assert [] + AcDecisions(tbl, kx, k + 1, z[k + 1]) == AcDecisions(tbl, kx, k + 1, z[k + 1]);
    }
  }

  lemma {:induction false} AcFromIs(h: History, tbl: nat, kx: nat, k: nat, ke: nat, z: seq<int>)
    requires ke < |z| && (k < ke ==> z[ke] != 0)
    ensures CodeAcFrom(h, tbl, kx, k, ke, z).h == h + Band(tbl, kx, z, k + 1, ke, true)
    decreases ke - k
  {
    hide AcDecisions, AfterRound, Band;
    if k >= ke {
      BandNone(h, tbl, kx, z, k + 1, ke);
    } else {
      RoundIs(h, tbl, kx, k, ke, z);
      var a := AfterRound(h, tbl, kx, k, ke, z);
      AcFromIs(a.h, tbl, kx, a.k, ke, z);
    }
  }

  lemma BandNone(h: History, tbl: nat, kx: nat, z: seq<int>, k: nat, ke: nat)
    requires 0 < k && ke < |z| && k > ke
    ensures h + Band(tbl, kx, z, k, ke, true) == h
  {
  }

  lemma RoundIs(h: History, tbl: nat, kx: nat, k: nat, ke: nat, z: seq<int>)
    requires k < ke < |z| && z[ke] != 0
    ensures var a := AfterRound(h, tbl, kx, k, ke, z);
      h + Band(tbl, kx, z, k + 1, ke, true) == a.h + Band(tbl, kx, z, a.k + 1, ke, true)
  {
    hide AcDecisions, CodeNonzero, SkipZeros, Band;
    var not := Decision(Bin(AcArea(tbl), 3 * k), false);
    var h1 := Put(h, AcArea(tbl), 3 * k, false);
    var s := SkipZeros(h1, tbl, k, ke, z);
    ZerosAre(h1, tbl, kx, k, ke, z);
    NonzeroIs(s.h, tbl, kx, s.k, z[s.k]);
    Regroup(s.h, AcDecisions(tbl, kx, s.k, z[s.k]), Band(tbl, kx, z, s.k + 1, ke, true));
    FreshBand(tbl, kx, z, k + 1, ke);
    Regroup(h, [not], Band(tbl, kx, z, k + 1, ke, false));
  }

  lemma FreshBand(tbl: nat, kx: nat, z: seq<int>, k: nat, ke: nat)
    requires 0 < k <= ke < |z|
    ensures Band(tbl, kx, z, k, ke, true) == [Decision(Bin(AcArea(tbl), 3 * (k - 1)), false)] + Band(tbl, kx, z, k, ke, false)
  {
    hide AcDecisions;
    var not := [Decision(Bin(AcArea(tbl), 3 * (k - 1)), false)];
    var here := if z[k] == 0 then [Decision(Bin(AcArea(tbl), 3 * (k - 1) + 1), false)] else AcDecisions(tbl, kx, k, z[k]);
    var rest := Band(tbl, kx, z, k + 1, ke, z[k] != 0);
    assert Band(tbl, kx, z, k, ke, true) == not + here + rest && Band(tbl, kx, z, k, ke, false) == [] + here + rest;
    assert [] + here == here;
    Regroup(not, here, rest);
  }

  /** What the band of a block is coded to. */
  lemma AcIs(h: History, tbl: nat, kx: nat, ss: nat, se: nat, z: seq<int>)
    requires 0 < ss <= se < |z|
    ensures CodeAc(h, tbl, kx, ss, se, z) == h + BandDecisions(tbl, kx, ss, se, z)
  {
    hide AcDecisions, Band, CodeAcFrom;
    var ke := EndOfBlock(z, se);
    AcFromIs(h, tbl, kx, ss - 1, ke, z);
    var band := Band(tbl, kx, z, ss, ke, true);
    assert h + band + [] == h + (band + []);
    Regroup(h, band, [Decision(Bin(AcArea(tbl), 3 * (if ke < ss then ss - 1 else ke)), true)]);
  }

  // ---- Refinement ----

  /** A coefficient in a refinement scan: still zero, one more bit, or nonzero now with its sign. */
  function Refined(tbl: nat, k: nat, value: int): History
    requires k > 0
  {
    var area := AcArea(tbl);
    if value == 0 then [Decision(Bin(area, 3 * (k - 1) + 1), false)]
    else if Abs(value) >= 2 then [Decision(Bin(area, 3 * (k - 1) + 2), Abs(value) % 2 == 1)]
    else [Decision(Bin(area, 3 * (k - 1) + 1), true), Decision(Bin(FixedArea, 0), value < 0)]
  }

  /** The same for the coefficients k..ke; up to kex, where the block ended in the stage before, it is not said that
      the block does not end. */
  function RefinedBand(tbl: nat, z: seq<int>, k: nat, ke: nat, kex: nat, first: bool): History
    requires 0 < k && ke < |z|
    decreases ke + 1 - k
  {
    if k > ke then []
    else
      (if first && k > kex then [Decision(Bin(AcArea(tbl), 3 * (k - 1)), false)] else [])
      + Refined(tbl, k, z[k]) + RefinedBand(tbl, z, k + 1, ke, kex, z[k] != 0)
  }

  function RefinementDecisions(tbl: nat, ss: nat, se: nat, z: seq<int>, w: seq<int>): History
    requires 0 < ss <= se < |z| && |w| == |z|
  {
    var ke := EndOfBlock(z, se);
    RefinedBand(tbl, z, ss, ke, EndOfBlock(w, ke), true)
    + (if ke == se then [] else [Decision(Bin(AcArea(tbl), 3 * (if ke < ss then ss - 1 else ke)), true)])
  }

  lemma {:induction false} RefinedZeros(h: History, tbl: nat, k: nat, ke: nat, kex: nat, z: seq<int>)
    requires k < ke < |z| && z[ke] != 0
    ensures var s := SkipZeros(h, tbl, k, ke, z);
      h + RefinedBand(tbl, z, k + 1, ke, kex, false)
      == s.h + (Refined(tbl, s.k, z[s.k]) + RefinedBand(tbl, z, s.k + 1, ke, kex, true))
    decreases ke - k
  {
    hide Refined;
    RefinedZero(tbl, k + 1);
    assert [] + Refined(tbl, k + 1, z[k + 1]) == Refined(tbl, k + 1, z[k + 1]);
    if z[k + 1] == 0 {
      RefinedZeros(Put(h, AcArea(tbl), 3 * k + 1, false), tbl, k + 1, ke, kex, z);
      Regroup(h, [Decision(Bin(AcArea(tbl), 3 * k + 1), false)], RefinedBand(tbl, z, k + 2, ke, kex, false));
    }
  }

  lemma RefinedZero(tbl: nat, k: nat)
    requires k > 0
    ensures Refined(tbl, k, 0) == [Decision(Bin(AcArea(tbl), 3 * (k - 1) + 1), false)]
  {
  }

  lemma RefinedNone(h: History, tbl: nat, z: seq<int>, k: nat, ke: nat, kex: nat)
    requires 0 < k && ke < |z| && k > ke
    ensures h + RefinedBand(tbl, z, k, ke, kex, true) == h
  {
  }

  lemma RefinedOne(h: History, tbl: nat, k: nat, value: int)
    requires k > 0 && value != 0
    ensures RefineNonzero(h, tbl, k, value) == h + Refined(tbl, k, value)
  {
  }

  lemma FreshRefined(tbl: nat, z: seq<int>, k: nat, ke: nat, kex: nat)
    requires 0 < k <= ke < |z|
    ensures RefinedBand(tbl, z, k, ke, kex, true)
         == (if k > kex then [Decision(Bin(AcArea(tbl), 3 * (k - 1)), false)] else []) + RefinedBand(tbl, z, k, ke, kex, false)
  {
    hide Refined;
    var not := if k > kex then [Decision(Bin(AcArea(tbl), 3 * (k - 1)), false)] else [];
    var here, rest := Refined(tbl, k, z[k]), RefinedBand(tbl, z, k + 1, ke, kex, z[k] != 0);
    assert RefinedBand(tbl, z, k, ke, kex, true) == not + here + rest;
    assert RefinedBand(tbl, z, k, ke, kex, false) == [] + here + rest;
    assert [] + here == here;
    Regroup(not, here, rest);
  }

  lemma {:induction false} RefineFromIs(h: History, tbl: nat, k: nat, ke: nat, kex: nat, z: seq<int>)
    requires ke < |z| && (k < ke ==> z[ke] != 0)
    ensures RefineAcFrom(h, tbl, k, ke, kex, z).h == h + RefinedBand(tbl, z, k + 1, ke, kex, true)
    decreases ke - k
  {
    hide Refined, AfterRefined, RefinedBand;
    if k >= ke {
      RefinedNone(h, tbl, z, k + 1, ke, kex);
    } else {
      RefinedRoundIs(h, tbl, k, ke, kex, z);
      var a := AfterRefined(h, tbl, k, ke, kex, z);
      RefineFromIs(a.h, tbl, a.k, ke, kex, z);
    }
  }

  lemma RefinedRoundIs(h: History, tbl: nat, k: nat, ke: nat, kex: nat, z: seq<int>)
    requires k < ke < |z| && z[ke] != 0
    ensures var a := AfterRefined(h, tbl, k, ke, kex, z);
      h + RefinedBand(tbl, z, k + 1, ke, kex, true) == a.h + RefinedBand(tbl, z, a.k + 1, ke, kex, true)
  {
    hide Refined, RefineNonzero, SkipZeros, RefinedBand;
    var not := if k + 1 > kex then [Decision(Bin(AcArea(tbl), 3 * k), false)] else [];
    assert NotEnd(h, tbl, k, kex) == h + not;
    RefineRound(NotEnd(h, tbl, k, kex), tbl, k, ke, kex, z);
    FreshRefined(tbl, z, k + 1, ke, kex);
    Regroup(h, not, RefinedBand(tbl, z, k + 1, ke, kex, false));
  }

  lemma RefineRound(h: History, tbl: nat, k: nat, ke: nat, kex: nat, z: seq<int>)
    requires k < ke < |z| && z[ke] != 0
    ensures var s := SkipZeros(h, tbl, k, ke, z);
      h + RefinedBand(tbl, z, k + 1, ke, kex, false)
      == RefineNonzero(s.h, tbl, s.k, z[s.k]) + RefinedBand(tbl, z, s.k + 1, ke, kex, true)
  {
    hide Refined, RefineNonzero, SkipZeros, RefinedBand;
    var s := SkipZeros(h, tbl, k, ke, z);
    RefinedZeros(h, tbl, k, ke, kex, z);
    RefinedOne(s.h, tbl, s.k, z[s.k]);
    Regroup(s.h, Refined(tbl, s.k, z[s.k]), RefinedBand(tbl, z, s.k + 1, ke, kex, true));
  }

  /** What the refinement of the band of a block is coded to. */
  lemma RefineIs(h: History, tbl: nat, ss: nat, se: nat, z: seq<int>, w: seq<int>)
    requires 0 < ss <= se < |z| && |w| == |z|
    ensures RefineAc(h, tbl, ss, se, z, w) == h + RefinementDecisions(tbl, ss, se, z, w)
  {
    hide Refined, RefinedBand, RefineAcFrom;
    var ke := EndOfBlock(z, se);
    var kex := EndOfBlock(w, ke);
    RefineFromIs(h, tbl, ss - 1, ke, kex, z);
    var band := RefinedBand(tbl, z, ss, ke, kex, true);
    assert h + band + [] == h + (band + []);
    Regroup(h, band, [Decision(Bin(AcArea(tbl), 3 * (if ke < ss then ss - 1 else ke)), true)]);
  }
}
