/** The statistics areas that sections F.1.4.4.1.3 and F.1.4.4.2 of ITU-T T.81 ask for suffice. */
module BinRanges {
  import opened Numbers
  import opened IntervalCoder
  import opened JpegScan
  import opened McuCoding
  import opened McuDecoding
  import opened ScanCoding
  import opened ScanDecoding
  import opened ScanRoundTrip

  /** 49 bins for DC coding, 245 for AC coding and the fixed one. */
  predicate InBins(b: Bin)
  {
    match b.area
    case DcArea(_) => b.idx < 49
    case AcArea(_) => b.idx < 245
    case FixedArea => b.idx == 0
  }

  ghost predicate WithinBins(h: History)
  {
    forall i :: 0 <= i < |h| ==> InBins(h[i].bin)
  }

  lemma {:induction false} CategoryBins(h: History, area: Area, st: nat, m: nat, v2: nat, n: nat)
    requires WithinBins(h) && 0 < v2 < Pow2(n + 1)
    requires forall i :: st <= i < st + n ==> InBins(Bin(area, i))
    ensures var c := CategoryFrom(h, area, st, m, v2); WithinBins(c.h) && st <= c.st <= st + n
    decreases v2
  {
    if v2 / 2 > 0 {
      assert Pow2(1) == 2;
      assert Pow2(n + 1) == 2 * Pow2(n);
      CategoryBins(Put(h, area, st, true), area, st + 1, 2 * m, v2 / 2, n - 1);
    }
  }

  lemma {:induction false} BitsBins(h: History, area: Area, st: nat, m: nat, v: nat)
    requires WithinBins(h) && (m > 1 ==> InBins(Bin(area, st)))
    ensures WithinBins(BitsBelow(h, area, st, m, v))
    decreases m
  {
    if m / 2 > 0 {
      BitsBins(Put(h, area, st, v / (m / 2) % 2 == 1), area, st, m / 2, v);
    }
  }

  lemma DcMagnitudeBins(h: History, tbl: nat, st: nat, v: nat)
    requires WithinBins(h) && st < 20 && v < 0x8000
    ensures WithinBins(FinishMagnitude(DcCategory(h, tbl, st, v), DcArea(tbl), v))
  {
    var area, c := DcArea(tbl), DcCategory(h, tbl, st, v);
    Pow2Values();
    assert Pow2(16) == 2 * Pow2(15);
    hide Pow2;
    if v > 0 {
      CategoryBins(Put(h, area, st, true), area, 20, 1, v, 14);
    }
    assert WithinBins(c.h);
    BitsBins(Put(c.h, area, c.st, false), area, c.st + 14, c.m, v);
  }

  /** A DC difference of magnitude up to 2^15 stays within 49 bins. */
  lemma DcBins(h: History, tbl: nat, p: Prediction, dc: int, lower: nat, upper: nat)
    requires WithinBins(h) && p.context <= 16 && Abs(dc - p.last) <= 0x8000
    ensures var c := CodeDc(h, tbl, p, dc, lower, upper); WithinBins(c.h) && c.p.context <= 16
  {
    hide DcCategory, FinishMagnitude;
    var diff, area := dc - p.last, DcArea(tbl);
    if diff != 0 {
      var h2 := Put(Put(h, area, p.context, true), area, p.context + 1, diff < 0);
      DcMagnitudeBins(h2, tbl, p.context + (if diff < 0 then 3 else 2), Abs(diff) - 1);
    }
  }

  lemma AcMagnitudeBins(h: History, tbl: nat, st: nat, high: bool, v: nat)
    requires WithinBins(h) && st < 189 && v < 0x8000
    ensures WithinBins(FinishMagnitude(AcCategory(h, tbl, st, high, v), AcArea(tbl), v))
  {
    var area, c := AcArea(tbl), AcCategory(h, tbl, st, high, v);
    Pow2Values();
    assert Pow2(16) == 2 * Pow2(15) && Pow2(15) == 2 * Pow2(14);
    hide Pow2;
    if v / 2 > 0 {
      CategoryBins(Put(Put(h, area, st, true), area, st, true), area, if high then 217 else 189, 2, v / 2, 13);
    }
    assert WithinBins(c.h);
    BitsBins(Put(c.h, area, c.st, false), area, c.st + 14, c.m, v);
  }

  /** Every 16-bit AC coefficient stays within 245 bins. */
  lemma NonzeroBins(h: History, tbl: nat, kx: nat, k: nat, value: int)
    requires WithinBins(h) && 0 < k < 64 && 0 < Abs(value) <= 0x8000
    ensures WithinBins(CodeNonzero(h, tbl, kx, k, value))
  {
    hide AcCategory, FinishMagnitude;
    var h2 := Put(Put(h, AcArea(tbl), 3 * (k - 1) + 1, true), FixedArea, 0, value < 0);
    AcMagnitudeBins(h2, tbl, 3 * (k - 1) + 2, k > kx, Abs(value) - 1);
  }

  lemma {:induction false} ZerosBins(h: History, tbl: nat, k: nat, ke: nat, z: seq<int>)
    requires WithinBins(h) && k < ke < |z| && ke < 64 && z[ke] != 0
    ensures WithinBins(SkipZeros(h, tbl, k, ke, z).h)
    decreases ke - k
  {
    if z[k + 1] == 0 {
      ZerosBins(Put(h, AcArea(tbl), 3 * k + 1, false), tbl, k + 1, ke, z);
    }
  }

  lemma {:induction false} AcFromBins(h: History, tbl: nat, kx: nat, k: nat, ke: nat, z: seq<int>)
    requires WithinBins(h) && ke < |z| <= 64 && (k < ke ==> z[ke] != 0)
    requires forall j :: 0 < j < |z| ==> Abs(z[j]) <= 0x8000
    ensures WithinBins(CodeAcFrom(h, tbl, kx, k, ke, z).h)
    decreases ke - k
  {
    if k < ke {
      var h1 := Put(h, AcArea(tbl), 3 * k, false);
      var s := SkipZeros(h1, tbl, k, ke, z);
      ZerosBins(h1, tbl, k, ke, z);
      NonzeroBins(s.h, tbl, kx, s.k, z[s.k]);
      AcFromBins(AfterRound(h, tbl, kx, k, ke, z).h, tbl, kx, s.k, ke, z);
    }
  }

  lemma AcBins(h: History, tbl: nat, kx: nat, ss: nat, se: nat, z: seq<int>)
    requires WithinBins(h) && 0 < ss <= se < |z| <= 64
    requires forall j :: 0 < j < |z| ==> Abs(z[j]) <= 0x8000
    ensures WithinBins(CodeAc(h, tbl, kx, ss, se, z))
  {
    AcFromBins(h, tbl, kx, ss - 1, EndOfBlock(z, se), z);
  }

  // ---- Refinement ----

  /** Refinement needs no bound on the coefficients: it codes no magnitudes. */
  lemma {:induction false} RefineFromBins(h: History, tbl: nat, k: nat, ke: nat, kex: nat, z: seq<int>)
    requires WithinBins(h) && ke < |z| <= 64 && (k < ke ==> z[ke] != 0)
    ensures WithinBins(RefineAcFrom(h, tbl, k, ke, kex, z).h)
    decreases ke - k
  {
    if k < ke {
      var h1 := NotEnd(h, tbl, k, kex);
      var s := SkipZeros(h1, tbl, k, ke, z);
      ZerosBins(h1, tbl, k, ke, z);
      RefineFromBins(AfterRefined(h, tbl, k, ke, kex, z).h, tbl, s.k, ke, kex, z);
    }
  }

  lemma RefineBins(h: History, tbl: nat, ss: nat, se: nat, z: seq<int>, w: seq<int>)
    requires WithinBins(h) && 0 < ss <= se < |z| == |w| <= 64
    ensures WithinBins(RefineAc(h, tbl, ss, se, z, w))
  {
    var ke := EndOfBlock(z, se);
    RefineFromBins(h, tbl, ss - 1, ke, EndOfBlock(w, ke), z);
  }

  // ---- Whole scans ----

  /** All decisions so far are within the areas, and the conditioning contexts leave room for the next ones. */
  ghost predicate Contained(c: Coded)
  {
    WithinBins(c.h) && forall i :: 0 <= i < |c.preds| ==> c.preds[i].context <= 16
  }

  lemma DcBlockBins(s: Scan, c: Coded, ci: nat, b: Block)
    requires ValidScan(s) && |c.preds| == |s.comps| && ci < |s.comps| && |b| == 64
    requires Contained(c) && DcFits(s, c, ci, b) && (KindOf(s).Sequential? || KindOf(s).DcFirst?)
    ensures Contained(CodeDcBlock(s, c, ci, b))
  {
    hide CodeDc, IsOrder, KindOf;
    var tbl := s.comps[ci].dcTbl;
    DcBins(c.h, tbl, c.preds[ci], DcValue(s, b), s.dcL[tbl], s.dcU[tbl]);
  }

  /** One block, for each kind of scan. */
  lemma BlockBins(s: Scan, c: Coded, ci: nat, b: Block)
    requires ValidScan(s) && |c.preds| == |s.comps| && ci < |s.comps| && IsBlock(b)
    requires Contained(c) && DcFits(s, c, ci, b)
    ensures Contained(CodedBlock(s, c, ci, b))
  {
    hide CodeAc, RefineAc, CodeDcBlock, Scanned, DcFits;
    match KindOf(s)
    case Sequential =>
      DcBlockBins(s, c, ci, b);
      if s.limSe > 0 {
        var d, tbl := CodeDcBlock(s, c, ci, b), s.comps[ci].acTbl;
        ScannedBound(s, b, 0, s.limSe);
        AcBins(d.h, tbl, s.acK[tbl], 1, s.limSe, Scanned(b, s.order, 0, s.limSe));
      }
    case DcFirst => DcBlockBins(s, c, ci, b);
    case DcRefine =>
    case AcFirst =>
      var tbl := s.comps[0].acTbl;
      ScannedBound(s, b, s.al, s.se);
      AcBins(c.h, tbl, s.acK[tbl], s.ss, s.se, Scanned(b, s.order, s.al, s.se));
    case AcRefine =>
      RefineBins(c.h, s.comps[0].acTbl, s.ss, s.se, Scanned(b, s.order, s.al, s.se), Scanned(b, s.order, s.ah, s.se));
  }

  lemma {:induction false} BlocksBins(s: Scan, c: Coded, mcu: Mcu, n: nat)
    requires Codes(s, c, mcu) && n <= |mcu| && Contained(c)
    requires forall j :: 0 <= j < n ==> IsBlock(mcu[j]) && DcFits(s, CodeBlocks(s, c, mcu, j), s.membership[j], mcu[j])
    ensures Contained(CodeBlocks(s, c, mcu, n))
    decreases n
  {
    hide CodedBlock, DcFits, IsOrder, Contained;
    if n > 0 {
      BlocksBins(s, c, mcu, n - 1);
      BlockBins(s, CodeBlocks(s, c, mcu, n - 1), s.membership[n - 1], mcu[n - 1]);
    }
  }

  /** Every restart interval of every kind of scan stays within the areas. */
  lemma {:induction false} ScanBins(s: Scan, mcus: seq<Mcu>)
    requires ValidScan(s) && AreMcus(s, mcus) && Carries(s, mcus)
    ensures WithinBins(CodeMcus(s, mcus).h) && Contained(CodeMcus(s, mcus))
    decreases |mcus|
  {
    hide CodeBlocks, DcFits, IsBlock, IsOrder;
    if mcus != [] {
      var n := |mcus| - 1;
      var init, mcu := mcus[..n], mcus[n];
      assert IsMcu(s, mcu);
      forall i, j | 0 <= i < n && 0 <= j < |init[i]|
        ensures CarriesBlock(s, init, i, j)
      {
        assert CarriesBlock(s, mcus, i, j) && init[..i] == mcus[..i];
      }
      ScanBins(s, init);
      forall j | 0 <= j < |mcu|
        ensures IsBlock(mcu[j]) && DcFits(s, CodeBlocks(s, CodeMcus(s, init), mcu, j), s.membership[j], mcu[j])
      {
        assert CarriesBlock(s, mcus, n, j);
      }
      BlocksBins(s, CodeMcus(s, init), mcu, |mcu|);
    }
  }

  // ---- Small DC values ----

  ghost predicate LastSmall(c: Coded)
  {
    forall i :: 0 <= i < |c.preds| ==> Abs(c.preds[i].last) <= 0x4000
  }

  lemma SmallDcBlock(s: Scan, c: Coded, ci: nat, b: Block)
    requires ValidScan(s) && |c.preds| == |s.comps| && ci < |s.comps| && |b| == 64
    requires LastSmall(c) && Abs(b[0]) <= 0x4000
    ensures DcFits(s, c, ci, b) && LastSmall(CodedBlock(s, c, ci, b))
  {
    hide CodeAc, RefineAc, CodeDc, Scanned;
    ShiftShrinks(b[0], s.al);
  }

  lemma ShiftShrinks(x: int, al: nat)
    requires Abs(x) <= 0x4000
    ensures Abs(x / Pow2(al)) <= 0x4000
  {
    var p := Pow2(al);
    if x >= 0 {
      DivAtMost(x, p);
    } else {
      var q, r := x / p, x % p;
      assert x == q * p + r;
      if q < -0x4000 {
        MulMono(q, -0x4001, p);
      }
      if q >= 0 {
        MulMono(0, q, p);
      }
    }
  }

  lemma {:induction false} SmallBlocks(s: Scan, c: Coded, mcu: Mcu, n: nat)
    requires Codes(s, c, mcu) && n <= |mcu| && LastSmall(c) && forall j :: 0 <= j < |mcu| ==> Abs(mcu[j][0]) <= 0x4000
    ensures LastSmall(CodeBlocks(s, c, mcu, n))
    ensures forall j :: 0 <= j < n ==> DcFits(s, CodeBlocks(s, c, mcu, j), s.membership[j], mcu[j])
    decreases n
  {
    hide CodedBlock, DcFits, IsOrder, LastSmall;
    if n > 0 {
      SmallBlocks(s, c, mcu, n - 1);
      SmallDcBlock(s, CodeBlocks(s, c, mcu, n - 1), s.membership[n - 1], mcu[n - 1]);
    }
  }

  /** Every MCU can be carried whose DC values have magnitudes up to 2^14, as those of 8-bit samples do. */
  lemma {:induction false} SmallCarried(s: Scan, mcus: seq<Mcu>)
    requires ValidScan(s) && AreMcus(s, mcus)
    requires forall i, j :: 0 <= i < |mcus| && 0 <= j < |mcus[i]| ==>
      IsBlock(mcus[i][j]) && Abs(mcus[i][j][0]) <= 0x4000
    ensures Carries(s, mcus) && LastSmall(CodeMcus(s, mcus))
    decreases |mcus|
  {
    hide CodeBlocks, DcFits, IsBlock, IsOrder;
    if mcus != [] {
      var n := |mcus| - 1;
      var init, mcu := mcus[..n], mcus[n];
      assert IsMcu(s, mcu);
      SmallCarried(s, init);
      SmallBlocks(s, CodeMcus(s, init), mcu, |mcu|);
      forall i, j | 0 <= i < |mcus| && 0 <= j < |mcus[i]|
        ensures CarriesBlock(s, mcus, i, j)
      {
        if i < n {
          assert CarriesBlock(s, init, i, j) && init[..i] == mcus[..i];
        }
      }
    }
  }

  // ---- Beyond 2^15 ----

  /** A magnitude whose category needs more than 15 bits makes the decoder give up. */
  lemma {:induction false} CategoryOverflows<D(!new)>(next: Source<D>, at: (D, History) -> bool, ds: History, d: D,
                                                      h: History, area: Area, st: nat, m: nat, v2: nat, k: nat)
    requires Follows(next, at, ds) && at(d, h)
    requires k < 15 && m == Pow2(k) && Pow2(15 - k) <= v2
    requires CategoryFrom(h, area, st, m, v2).h <= ds
    ensures ReadCategory(next, d, area, st, m).Corrupt?
    decreases v2
  {
    assert Pow2(1) == 2;
    assert Pow2(15 - k) == 2 * Pow2(14 - k);
    assert Put(h, area, st, true) <= ds;
    if k < 14 {
      CategoryOverflows(next, at, ds, next(d, Bin(area, st)).1, Put(h, area, st, true), area, st + 1, 2 * m, v2 / 2, k + 1);
    } else {
      Pow2Values();
      assert Pow2(16) == 2 * Pow2(15) == 4 * Pow2(14);
    }
  }

  /** A coded DC value is read back exactly when its difference does not exceed 2^15 in magnitude. */
  lemma DcReadsExactly<D(!new)>(next: Source<D>, at: (D, History) -> bool, ds: History, d: D, h: History,
                                tbl: nat, p: Prediction, dc: int, lower: nat, upper: nat)
    requires Follows(next, at, ds) && at(d, h)
    requires CodeDc(h, tbl, p, dc, lower, upper).h <= ds
    ensures ReadDc(next, d, tbl, p, lower, upper).Good? <==> Abs(dc - p.last) <= 0x8000
  {
    var diff, area := dc - p.last, DcArea(tbl);
    if Abs(diff) <= 0x8000 {
      DcReads(next, at, ds, d, h, tbl, p, dc, lower, upper);
    } else {
      var h1 := Put(h, area, p.context, true);
      var h2 := Put(h1, area, p.context + 1, diff < 0);
      var st, v := p.context + (if diff < 0 then 3 else 2), Abs(diff) - 1;
      var h3 := Put(h2, area, st, true);
      var c := DcCategory(h2, tbl, st, v);
      assert c.h <= FinishMagnitude(c, area, v) <= ds;
      assert h1 <= ds && h2 <= ds && h3 <= ds;
      var d1 := next(d, Bin(area, p.context)).1;
      var d2 := next(d1, Bin(area, p.context + 1)).1;
      var d3 := next(d2, Bin(area, st)).1;
      Pow2Values();
      assert Pow2(16) == 2 * Pow2(15) && Pow2(0) == 1;
      CategoryOverflows(next, at, ds, d3, h3, area, 20, 1, v, 0);
    }
  }
}
