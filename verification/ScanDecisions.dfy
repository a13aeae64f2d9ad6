/** What each kind of scan makes of a block, said on the samples of figure F.4 and section G.1.2: which values are coded,
    which values predict and condition them, and with which tables. */
module ScanDecisions {
  import opened Numbers
  import opened IntervalCoder
  import opened JpegScan
  import opened McuCoding
  import opened ScanCoding
  import opened ScanRoundTrip
  import opened Binarization

  /** Divided by 2^al towards zero: what an AC coefficient is coded as. */
  function Truncated(x: int, al: nat): int
  {
    if x < 0 then -(-x / Pow2(al)) else x / Pow2(al)
  }

  /** The first n coefficients in scan order, divided by 2^al. */
  function Coefficients(b: Block, order: seq<nat>, al: nat, n: nat): (z: seq<int>)
    requires |b| == 64 && |order| == 64 && n <= 64 && forall i :: 0 <= i < 64 ==> order[i] < 64
    ensures |z| == n
  {
    seq(n, k requires 0 <= k < n => Truncated(b[order[k]], al))
  }

  lemma ScannedIs(b: Block, order: seq<nat>, al: nat, se: nat)
    requires |b| == 64 && |order| == 64 && se < 64 && forall i :: 0 <= i < 64 ==> order[i] < 64
    ensures Scanned(b, order, al, se) == Coefficients(b, order, al, se + 1)
  {
  }

  ghost predicate Block64(s: Scan, c: Coded, ci: nat, b: Block)
  {
    ValidScan(s) && |c.preds| == |s.comps| && ci < |s.comps| && |b| == 64
  }

  /** A scan of a sequential picture: the difference of the DC value to the prediction, and all AC coefficients. */
  lemma SequentialIs(s: Scan, c: Coded, ci: nat, b: Block)
    requires Block64(s, c, ci, b) && !s.progressive
    ensures var dc, ac, p := s.comps[ci].dcTbl, s.comps[ci].acTbl, c.preds[ci];
      CodedBlock(s, c, ci, b).h
      == c.h + DcDecisions(dc, p.context, b[0] - p.last)
         + if s.limSe == 0 then [] else BandDecisions(ac, s.acK[ac], 1, s.limSe, Coefficients(b, s.order, 0, s.limSe + 1))
  {
    hide IsOrder, CodeDc, DcDecisions, BandDecisions, CodeAc, Coefficients, Scanned;
    var tbl, p := s.comps[ci].dcTbl, c.preds[ci];
    DcIs(c.h, tbl, p, b[0], s.dcL[tbl], s.dcU[tbl]);
    var h := c.h + DcDecisions(tbl, p.context, b[0] - p.last);
    if s.limSe != 0 {
      OrderWithin(s);
      ScannedIs(b, s.order, 0, s.limSe);
      var ac := s.comps[ci].acTbl;
      AcIs(h, ac, s.acK[ac], 1, s.limSe, Scanned(b, s.order, 0, s.limSe));
    }
  }

  lemma OrderWithin(s: Scan)
    requires ValidScan(s)
    ensures |s.order| == 64 && forall i :: 0 <= i < 64 ==> s.order[i] < 64
  {
  }

  /** A first DC scan: the DC value shifted right by Al, against its prediction. */
  lemma DcFirstIs(s: Scan, c: Coded, ci: nat, b: Block)
    requires Block64(s, c, ci, b) && s.progressive && s.ss == 0 && s.ah == 0
    ensures var dc, p := s.comps[ci].dcTbl, c.preds[ci];
      CodedBlock(s, c, ci, b).h == c.h + DcDecisions(dc, p.context, b[0] / Pow2(s.al) - p.last)
  {
    hide IsOrder, CodeDc, DcDecisions;
    var tbl := s.comps[ci].dcTbl;
    DcIs(c.h, tbl, c.preds[ci], b[0] / Pow2(s.al), s.dcL[tbl], s.dcU[tbl]);
  }

  /** A first AC scan: the band Ss..Se of the coefficients, divided by 2^Al towards zero. */
  lemma AcFirstIs(s: Scan, c: Coded, ci: nat, b: Block)
    requires Block64(s, c, ci, b) && s.progressive && s.ss != 0 && s.ah == 0
    ensures var ac := s.comps[0].acTbl;
      CodedBlock(s, c, ci, b)
      == c.(h := c.h + BandDecisions(ac, s.acK[ac], s.ss, s.se, Coefficients(b, s.order, s.al, s.se + 1)))
  {
    hide IsOrder, BandDecisions, CodeAc, Coefficients, Scanned;
    OrderWithin(s);
    ScannedIs(b, s.order, s.al, s.se);
    var ac := s.comps[0].acTbl;
    AcIs(c.h, ac, s.acK[ac], s.ss, s.se, Scanned(b, s.order, s.al, s.se));
  }

  /** A DC refinement scan: bit Al of the DC value, with the fixed bin. */
  lemma DcRefineIs(s: Scan, c: Coded, ci: nat, b: Block)
    requires Block64(s, c, ci, b) && s.progressive && s.ss == 0 && s.ah != 0
    ensures CodedBlock(s, c, ci, b) == c.(h := c.h + [Decision(Bin(FixedArea, 0), b[0] / Pow2(s.al) % 2 == 1)])
  {
  }

  /** An AC refinement scan: the band at bit position Al, knowing it at position Ah. */
  lemma AcRefineIs(s: Scan, c: Coded, ci: nat, b: Block)
    requires Block64(s, c, ci, b) && s.progressive && s.ss != 0 && s.ah != 0
    ensures CodedBlock(s, c, ci, b)
         == c.(h := c.h + RefinementDecisions(s.comps[0].acTbl, s.ss, s.se, Coefficients(b, s.order, s.al, s.se + 1),
                                              Coefficients(b, s.order, s.ah, s.se + 1)))
  {
    hide IsOrder, RefinementDecisions, RefineAc, Coefficients, Scanned;
    OrderWithin(s);
    ScannedIs(b, s.order, s.al, s.se);
    ScannedIs(b, s.order, s.ah, s.se);
    RefineIs(c.h, s.comps[0].acTbl, s.ss, s.se, Scanned(b, s.order, s.al, s.se), Scanned(b, s.order, s.ah, s.se));
  }

  // ---- Predictions and contexts ----

  /** What a scan with DC differences codes as the DC value of a block. */
  function DcOf(s: Scan, b: Block): int
    requires |b| == 64
  {
    if s.progressive then b[0] / Pow2(s.al) else b[0]
  }

  /** A block leaves its DC value as the prediction of its component, and the context that its difference conditions;
      other components keep theirs. */
  lemma BlockPredicts(s: Scan, c: Coded, ci: nat, b: Block)
    requires Block64(s, c, ci, b) && s.ss == 0 && s.ah == 0
    ensures var r, tbl := CodedBlock(s, c, ci, b).preds, s.comps[ci].dcTbl;
      && r[ci] == Prediction(DcOf(s, b), ConditioningOf(DcOf(s, b) - c.preds[ci].last, s.dcL[tbl], s.dcU[tbl]))
      && forall i :: 0 <= i < |r| && i != ci ==> r[i] == c.preds[i]
  {
    hide IsOrder, CodeDc, ConditioningOf, CodeAc;
    var tbl := s.comps[ci].dcTbl;
    DcIs(c.h, tbl, c.preds[ci], DcOf(s, b), s.dcL[tbl], s.dcU[tbl]);
  }

  /** The predictions before block n of an MCU. */
  function Before(s: Scan, mcus: seq<Mcu>, i: nat, n: nat): Coded
    requires ValidScan(s) && AreMcus(s, mcus) && i < |mcus| && n <= |s.membership|
  {
    assert IsMcu(s, mcus[i]);
    CodeBlocks(s, CodeMcus(s, mcus[..i]), mcus[i], n)
  }

  /** No block of the component from block lo of the MCU up to block hi. */
  predicate NoneOf(s: Scan, ci: nat, lo: nat, hi: nat)
    requires hi <= |s.membership|
  {
    forall j :: lo <= j < hi ==> s.membership[j] != ci
  }

  /** What a component is left with by block j of MCU i. */
  predicate LeftBy(s: Scan, mcus: seq<Mcu>, i: nat, j: nat, ci: nat, p: Prediction)
    requires ValidScan(s) && AreMcus(s, mcus) && i < |mcus| && j < |s.membership| && ci == s.membership[j]
  {
    assert IsMcu(s, mcus[i]);
    var dc, tbl := DcOf(s, mcus[i][j]), s.comps[ci].dcTbl;
    p == Prediction(dc, ConditioningOf(dc - Before(s, mcus, i, j).preds[ci].last, s.dcL[tbl], s.dcU[tbl]))
  }

  /** The blocks of other components do not touch the prediction. */
  lemma {:induction false} Kept(s: Scan, c: Coded, mcu: Mcu, lo: nat, hi: nat, ci: nat)
    requires Codes(s, c, mcu) && s.ss == 0 && s.ah == 0 && lo <= hi <= |mcu| && ci < |s.comps| && NoneOf(s, ci, lo, hi)
    ensures CodeBlocks(s, c, mcu, hi).preds[ci] == CodeBlocks(s, c, mcu, lo).preds[ci]
    decreases hi
  {
    hide IsOrder, CodedBlock;
    if lo < hi {
      Kept(s, c, mcu, lo, hi - 1, ci);
      BlockPredicts(s, CodeBlocks(s, c, mcu, hi - 1), s.membership[hi - 1], mcu[hi - 1]);
    }
  }

  /** The last block of the component in the same MCU predicts it. */
  lemma PredictedHere(s: Scan, mcus: seq<Mcu>, i: nat, n: nat, j: nat, ci: nat)
    requires ValidScan(s) && AreMcus(s, mcus) && s.ss == 0 && s.ah == 0
    requires i < |mcus| && j < n <= |s.membership| && s.membership[j] == ci && NoneOf(s, ci, j + 1, n)
    ensures LeftBy(s, mcus, i, j, ci, Before(s, mcus, i, n).preds[ci])
  {
    hide IsOrder, CodedBlock, ConditioningOf, CodeMcus;
    assert IsMcu(s, mcus[i]);
    var c := CodeMcus(s, mcus[..i]);
    BlockPredicts(s, CodeBlocks(s, c, mcus[i], j), ci, mcus[i][j]);
    Kept(s, c, mcus[i], j + 1, n, ci);
  }

  /** If there is none, the last block of the component in the MCU before predicts it. */
  lemma PredictedBefore(s: Scan, mcus: seq<Mcu>, i: nat, n: nat, j: nat, ci: nat)
    requires ValidScan(s) && AreMcus(s, mcus) && s.ss == 0 && s.ah == 0
    requires 0 < i < |mcus| && n <= |s.membership| && NoneOf(s, ci, 0, n)
    requires j < |s.membership| && s.membership[j] == ci && NoneOf(s, ci, j + 1, |s.membership|)
    ensures LeftBy(s, mcus, i - 1, j, ci, Before(s, mcus, i, n).preds[ci])
  {
    hide IsOrder, CodedBlock, ConditioningOf;
    assert IsMcu(s, mcus[i]) && IsMcu(s, mcus[i - 1]);
    Kept(s, CodeMcus(s, mcus[..i]), mcus[i], 0, n, ci);
    assert mcus[..i][..i - 1] == mcus[..i - 1];
    PredictedHere(s, mcus, i - 1, |s.membership|, j, ci);
  }

  /** At the start of a scan, and behind a restart marker, predictions are 0 and contexts those of a zero difference. */
  lemma PredictedFirst(s: Scan, mcus: seq<Mcu>, n: nat, ci: nat)
    requires ValidScan(s) && AreMcus(s, mcus) && s.ss == 0 && s.ah == 0 && mcus != []
    requires n <= |s.membership| && ci < |s.comps| && NoneOf(s, ci, 0, n)
    ensures Before(s, mcus, 0, n).preds[ci] == Prediction(0, 0)
  {
    hide IsOrder, CodedBlock;
    assert IsMcu(s, mcus[0]);
    Kept(s, CodeMcus(s, mcus[..0]), mcus[0], 0, n, ci);
  }

  /** Block n of MCU i adds its own decisions to those of the blocks before it. */
  lemma BlockAfterBlock(s: Scan, mcus: seq<Mcu>, i: nat, n: nat)
    requires ValidScan(s) && AreMcus(s, mcus) && i < |mcus| && n < |s.membership|
    ensures IsMcu(s, mcus[i])
    ensures Before(s, mcus, i, n + 1) == CodedBlock(s, Before(s, mcus, i, n), s.membership[n], mcus[i][n])
    ensures i > 0 ==> Before(s, mcus, i, 0) == Before(s, mcus, i - 1, |s.membership|)
    ensures i == 0 ==> Before(s, mcus, i, 0).h == []
    ensures i + 1 == |mcus| ==> CodeMcus(s, mcus) == Before(s, mcus, i, |s.membership|)
  {
    hide IsOrder, CodedBlock;
    assert IsMcu(s, mcus[i]);
    assert i > 0 ==> IsMcu(s, mcus[i - 1]) && mcus[..i][..i - 1] == mcus[..i - 1];
    assert i + 1 == |mcus| ==> mcus[..i] == mcus[..|mcus| - 1];
  }
}
