/** Refinement scans (section G.2 of ITU-T T.81): the decoder of jdarith.c corrects the coefficients it holds,
    and so reaches the next bit position of every coefficient. */
module RefineDecoding {
  import opened Numbers
  import opened IntervalCoder
  import opened JpegScan
  import opened McuCoding
  import opened McuDecoding

  datatype Refined = Refined(k: nat, block: Block)

  /** One more bit for a coefficient that is not zero. */
  function Corrected(value: int, bit: bool, al: nat): int
  {
    if !bit then value else if value < 0 then value - Pow2(al) else value + Pow2(al)
  }

  /** Skips the coefficients that stay zero after position k and refines the one that is not. */
  function ReadRefined<D>(next: Source<D>, d: D, tbl: nat, k: nat, se: nat, order: seq<nat>, al: nat, block: Block)
    : (r: Read<D, Refined>)
    requires k < se < 64 && |block| == 64 && Places(order)
    ensures r.Good? ==> k < r.value.k <= se && |r.value.block| == 64
    decreases se - k
  {
    var n := k + 1;
    var coef := block[order[n]];
    if coef != 0 then
      var (bit, d1) := next(d, Bin(AcArea(tbl), 3 * k + 2));
      Good(d1, Refined(n, block[order[n] := Corrected(coef, bit, al)]))
    else
      var (isNew, d1) := next(d, Bin(AcArea(tbl), 3 * k + 1));
      if isNew then
        var (negative, d2) := next(d1, Bin(FixedArea, 0));
        Good(d2, Refined(n, block[order[n] := if negative then -1 * Pow2(al) else Pow2(al)]))
      else if n >= se then Corrupt
      else ReadRefined(next, d1, tbl, n, se, order, al, block)
  }

  function ReadRefineFrom<D>(next: Source<D>, d: D, tbl: nat, k: nat, kex: nat, se: nat, order: seq<nat>, al: nat,
                             block: Block): (r: Read<D, Block>)
    requires se < 64 && |block| == 64 && Places(order)
    ensures r.Good? ==> |r.value| == 64
    decreases se - k
  {
    if k >= se then Good(d, block)
    else
      var end := if k >= kex then next(d, Bin(AcArea(tbl), 3 * k)) else (false, d);
      if end.0 then Good(end.1, block)
      else
        var r := ReadRefined(next, end.1, tbl, k, se, order, al, block);
        if r.Corrupt? then Corrupt
        else ReadRefineFrom(next, r.d, tbl, r.value.k, kex, se, order, al, r.value.block)
  }

  /** The last position of the block, up to kex, that holds a nonzero coefficient; 0 if there is none. */
  function LastHeld(block: Block, order: seq<nat>, kex: nat): (r: nat)
    requires kex < 64 && |block| == 64 && Places(order)
    ensures r <= kex && (r > 0 ==> block[order[r]] != 0) && forall k :: r < k <= kex ==> block[order[k]] == 0
  {
    if kex == 0 || block[order[kex]] != 0 then kex else LastHeld(block, order, kex - 1)
  }

  function ReadRefine<D>(next: Source<D>, d: D, tbl: nat, ss: nat, se: nat, order: seq<nat>, al: nat, block: Block)
    : (r: Read<D, Block>)
    requires 0 < ss <= se < 64 && |block| == 64 && Places(order)
    ensures r.Good? ==> |r.value| == 64
  {
    ReadRefineFrom(next, d, tbl, ss - 1, LastHeld(block, order, se), se, order, al, block)
  }

  /** The block holds, at positions lo < j <= hi, the coefficients z of bit position al. */
  ghost predicate Holds(block: Block, order: seq<nat>, z: seq<int>, al: nat, lo: int, hi: nat)
    requires |block| == 64 && Places(order)
  {
    hi < |z| && hi < 64 && forall j :: 0 <= j && lo < j <= hi ==> block[order[j]] == z[j] * Pow2(al)
  }

  /** The coefficients w are those of z with the lowest bit of the magnitude dropped. */
  ghost predicate Halves(z: seq<int>, w: seq<int>)
  {
    |z| == |w| && forall j :: 0 <= j < |z| ==> w[j] == Quot(z[j], 1)
  }

  lemma QuotHalves(x: int, al: nat)
    ensures Quot(x, al + 1) == Quot(Quot(x, al), 1)
  {
    var q := Abs(x) / Pow2(al);
    assert Pow2(al + 1) == Pow2(al) * 2 && Pow2(1) == 2;
    DivDiv(Abs(x), Pow2(al), 2);
    assert Abs(Quot(x, al)) == q;
  }

  /** What a nonzero decision adds to the coefficient that the decoder holds. */
  lemma CorrectedValue(z: int, al: nat)
    ensures Abs(z) / 2 != 0 <==> Quot(z, 1) * Pow2(al + 1) != 0
    ensures Abs(z) / 2 != 0 ==> Corrected(Quot(z, 1) * Pow2(al + 1), Abs(z) % 2 == 1, al) == z * Pow2(al)
    ensures z != 0 && Abs(z) / 2 == 0 ==> z * Pow2(al) == if z < 0 then -1 * Pow2(al) else Pow2(al)
  {
    assert Pow2(1) == 2;
    var w, p := Quot(z, 1), Pow2(al);
    assert Pow2(al + 1) == 2 * p;
    MulAssoc(w, 2, p);
    var bit := Abs(z) % 2;
    assert z == if z < 0 then 2 * w - bit else 2 * w + bit;
    MulDistributes(2 * w, if z < 0 then -bit else bit, p);
  }

  lemma {:induction false} RefinedReads<D(!new)>(next: Source<D>, at: (D, History) -> bool, ds: History, d: D,
                                                 h: History, tbl: nat, k: nat, ke: nat, se: nat, z: seq<int>,
                                                 w: seq<int>, order: seq<nat>, al: nat, block: Block)
    requires Follows(next, at, ds) && at(d, h)
    requires IsOrder(order) && |block| == 64 && k < ke <= se < 64 && |z| == se + 1 && z[ke] != 0
    requires Halves(z, w) && Holds(block, order, w, al + 1, k, se)
    requires var s := SkipZeros(h, tbl, k, ke, z); RefineNonzero(s.h, tbl, s.k, z[s.k]) <= ds
    ensures var s := SkipZeros(h, tbl, k, ke, z);
      && var r := ReadRefined(next, d, tbl, k, se, order, al, block);
      && r.Good? && r.value == Refined(s.k, block[order[s.k] := z[s.k] * Pow2(al)])
      && at(r.d, RefineNonzero(s.h, tbl, s.k, z[s.k]))
    decreases ke - k
  {
    var n := k + 1;
    CorrectedValue(z[n], al);
    if z[n] == 0 {
      var h1 := Put(h, AcArea(tbl), 3 * k + 1, false);
      assert h1 <= ds;
      RefinedReads(next, at, ds, next(d, Bin(AcArea(tbl), 3 * k + 1)).1, h1, tbl, n, ke, se, z, w, order, al, block);
    } else if Abs(z[n]) / 2 == 0 {
      var h1 := Put(h, AcArea(tbl), 3 * k + 1, true);
      assert h1 <= ds;
    }
  }

  /** What the decoder holds makes it agree with the encoder about the end of block of the previous stage,
      or else both ends come before the band. */
  lemma SameEnd(block: Block, order: seq<nat>, w: seq<int>, al: nat, ss: nat, ke: nat, se: nat)
    requires IsOrder(order) && |block| == 64 && 0 < ss <= se < 64 && |w| == se + 1 && ke <= se
    requires Holds(block, order, w, al, ss - 1, se) && forall j :: ke < j <= se ==> w[j] == 0
    ensures var e, l := EndOfBlock(w, ke), LastHeld(block, order, se); e == l || (e < ss && l < ss)
  {
    forall j | ss <= j <= se
      ensures block[order[j]] != 0 <==> w[j] != 0
    {
      assert block[order[j]] == w[j] * Pow2(al);
    }
  }

  /** One round of the loop of figure G.10. */
  lemma RefineRoundReads<D(!new)>(next: Source<D>, at: (D, History) -> bool, ds: History, d: D, h: History,
                                  tbl: nat, k: nat, ke: nat, kex: nat, se: nat, z: seq<int>, w: seq<int>,
                                  order: seq<nat>, al: nat, block: Block)
    requires Follows(next, at, ds) && at(d, h)
    requires IsOrder(order) && |block| == 64 && k < ke <= se < 64 && |z| == se + 1 && z[ke] != 0
    requires Halves(z, w) && Holds(block, order, w, al + 1, k, se)
    requires AfterRefined(h, tbl, k, ke, kex, z).h <= ds
    ensures k >= kex ==> !next(d, Bin(AcArea(tbl), 3 * k)).0
    ensures var a := AfterRefined(h, tbl, k, ke, kex, z);
      && var d1 := if k >= kex then next(d, Bin(AcArea(tbl), 3 * k)).1 else d;
      && var r := ReadRefined(next, d1, tbl, k, se, order, al, block);
      && r.Good? && r.value == Refined(a.k, block[order[a.k] := z[a.k] * Pow2(al)]) && at(r.d, a.h)
  {
    var h1 := NotEnd(h, tbl, k, kex);
    assert h1 <= ds;
    var d1 := if k >= kex then next(d, Bin(AcArea(tbl), 3 * k)).1 else d;
    RefinedReads(next, at, ds, d1, h1, tbl, k, ke, se, z, w, order, al, block);
  }

  /** The coefficients after k of a refinement scan reach the bit position al. */
  lemma {:induction false} RefineFromReads<D(!new)>(next: Source<D>, at: (D, History) -> bool, ds: History, d: D,
                                                    h: History, tbl: nat, k: nat, ke: nat, kex: nat, held: nat,
                                                    se: nat, z: seq<int>, w: seq<int>, order: seq<nat>, al: nat, block: Block)
    requires Follows(next, at, ds) && at(d, h)
    requires IsOrder(order) && |block| == 64 && se < 64 && |z| == se + 1
    requires ke <= se && (k < ke ==> z[ke] != 0) && (forall j :: ke < j <= se ==> z[j] == 0)
    requires kex <= ke && (kex == held || (kex <= k && held <= k))
    requires Halves(z, w) && Holds(block, order, w, al + 1, k, se)
    requires EndAc(RefineAcFrom(h, tbl, k, ke, kex, z), tbl, se) <= ds
    ensures var r := ReadRefineFrom(next, d, tbl, k, held, se, order, al, block);
      && r.Good? && Stored(block, r.value, order, z, al, k, se)
      && at(r.d, EndAc(RefineAcFrom(h, tbl, k, ke, kex, z), tbl, se))
    decreases ke - k
  {
    if k < ke {
      var a := AfterRefined(h, tbl, k, ke, kex, z);
      assert a.h <= RefineAcFrom(h, tbl, k, ke, kex, z).h;
      RefineRoundReads(next, at, ds, d, h, tbl, k, ke, kex, se, z, w, order, al, block);
      var d1 := if k >= kex then next(d, Bin(AcArea(tbl), 3 * k)).1 else d;
      var r := ReadRefined(next, d1, tbl, k, se, order, al, block);
      HoldsAfter(block, order, z, w, al, k, a.k, se);
      RefineFromReads(next, at, ds, r.d, a.h, tbl, a.k, ke, kex, held, se, z, w, order, al, r.value.block);
      RefineStored(block, ReadRefineFrom(next, r.d, tbl, a.k, held, se, order, al, r.value.block).value,
                   order, z, w, al, k, a.k, se);
    } else {
      RefineRestIsZero(block, order, z, w, al, k, se);
    }
  }

  /** Positions after the one just refined still hold the previous bit position. */
  lemma HoldsAfter(block: Block, order: seq<nat>, z: seq<int>, w: seq<int>, al: nat, k: nat, n: nat, se: nat)
    requires IsOrder(order) && |block| == 64 && k < n <= se < 64 && |z| == se + 1 && |w| == se + 1
    requires Holds(block, order, w, al + 1, k, se)
    ensures Holds(block[order[n] := z[n] * Pow2(al)], order, w, al + 1, n, se)
  {
    forall j | n < j <= se
      ensures block[order[n] := z[n] * Pow2(al)][order[j]] == w[j] * Pow2(al + 1)
    {
      assert order[n] != order[j];
    }
  }

  lemma RefineRestIsZero(block: Block, order: seq<nat>, z: seq<int>, w: seq<int>, al: nat, k: nat, se: nat)
    requires Places(order) && |block| == 64 && se < 64 && |z| == se + 1
    requires Halves(z, w) && Holds(block, order, w, al + 1, k, se)
    requires forall j :: k < j <= se ==> z[j] == 0
    ensures Stored(block, block, order, z, al, k, se)
  {
    forall j | k < j <= se
      ensures block[order[j]] == z[j] * Pow2(al)
    {
      CorrectedValue(z[j], al);
    }
  }

  lemma RefineStored(before: Block, after: Block, order: seq<nat>, z: seq<int>, w: seq<int>, al: nat, k: nat, n: nat, se: nat)
    requires IsOrder(order) && |before| == 64 && k < n <= se < 64 && |z| == se + 1
    requires Stored(before[order[n] := z[n] * Pow2(al)], after, order, z, al, n, se)
    requires forall j :: k < j < n ==> z[j] == 0
    requires Halves(z, w) && Holds(before, order, w, al + 1, k, se)
    ensures Stored(before, after, order, z, al, k, se)
  {
    forall j | k < j < n
      ensures before[order[j]] == 0
    {
      CorrectedValue(z[j], al);
    }
    StoredFrom(before, after, order, z, al, k, n, se);
  }

  /** A refinement scan takes every coefficient of its band from bit position al + 1 to bit position al. */
  lemma RefineReads<D(!new)>(next: Source<D>, at: (D, History) -> bool, ds: History, d: D, h: History,
                             tbl: nat, ss: nat, se: nat, z: seq<int>, w: seq<int>, order: seq<nat>, al: nat, block: Block)
    requires Follows(next, at, ds) && at(d, h)
    requires IsOrder(order) && |block| == 64 && 0 < ss <= se < 64 && |z| == se + 1
    requires Halves(z, w) && Holds(block, order, w, al + 1, ss - 1, se)
    requires RefineAc(h, tbl, ss, se, z, w) <= ds
    ensures var r := ReadRefine(next, d, tbl, ss, se, order, al, block);
      && r.Good? && Stored(block, r.value, order, z, al, ss - 1, se)
      && at(r.d, RefineAc(h, tbl, ss, se, z, w))
  {
    var ke := EndOfBlock(z, se);
    SameEnd(block, order, w, al + 1, ss, ke, se);
    RefineFromReads(next, at, ds, d, h, tbl, ss - 1, ke, EndOfBlock(w, ke), LastHeld(block, order, se), se, z, w,
                    order, al, block);
  }
}
