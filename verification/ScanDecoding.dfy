/** Every kind of scan is read back: block by block, MCU by MCU. */
module ScanDecoding {
  import opened Numbers
  import opened IntervalCoder
  import opened JpegScan
  import opened McuCoding
  import opened McuDecoding
  import opened RefineDecoding
  import opened ScanCoding

  /** The decoder has read block n of g: it holds the same predictions as the coder, and the block of the scan. */
  ghost predicate BlockDone<D>(s: Scan, r: Read<D, Held>, g: Held, n: nat, x: Block, preds: seq<Prediction>)
    requires CanRead(s, g) && n < |g.mcu| && |x| == 64
  {
    && r.Good? && CanRead(s, r.value) && r.value.preds == preds
    && ScanDone(s, x, g.mcu[n], r.value.mcu[n])
    && r.value.mcu == g.mcu[n := r.value.mcu[n]]
  }

  /** order[0] is the DC place, so no other position is. */
  lemma DcPlace(order: seq<nat>, k: nat)
    requires IsOrder(order) && 0 < k < 64
    ensures order[k] != 0
  {
  }

  lemma DcBlockReads<D(!new)>(next: Source<D>, at: (D, History) -> bool, ds: History, d: D, s: Scan, c: Coded,
                              g: Held, n: nat, x: Block)
    requires Follows(next, at, ds) && at(d, c.h)
    requires CanRead(s, g) && n < |g.mcu| && |x| == 64 && g.preds == c.preds
    requires KindOf(s).DcFirst? || KindOf(s).Sequential?
    requires DcFits(s, c, s.membership[n], x)
    requires CodeDcBlock(s, c, s.membership[n], x).h <= ds
    ensures var k, r := CodeDcBlock(s, c, s.membership[n], x), ReadDcBlock(next, d, s, g, n);
      && r.Good? && CanRead(s, r.value) && r.value.preds == k.preds && at(r.d, k.h)
      && r.value.mcu == g.mcu[n := g.mcu[n][0 := x[0] / Pow2(Position(s)) * Pow2(Position(s))]]
  {
    var ci := s.membership[n];
    var tbl := s.comps[ci].dcTbl;
    assert Pow2(0) == 1;
    DcReads(next, at, ds, d, c.h, tbl, c.preds[ci], DcValue(s, x), s.dcL[tbl], s.dcU[tbl]);
  }

  lemma DcFirstReads<D(!new)>(next: Source<D>, at: (D, History) -> bool, ds: History, d: D, s: Scan, c: Coded,
                              g: Held, n: nat, x: Block)
    requires Follows(next, at, ds) && at(d, c.h)
    requires CanRead(s, g) && n < |g.mcu| && |x| == 64 && g.preds == c.preds
    requires KindOf(s).DcFirst? && DcFits(s, c, s.membership[n], x)
    requires CodedBlock(s, c, s.membership[n], x).h <= ds
    ensures var k, r := CodedBlock(s, c, s.membership[n], x), ReadBlock(next, d, s, g, n);
      BlockDone(s, r, g, n, x, k.preds) && at(r.d, k.h)
  {
    DcBlockReads(next, at, ds, d, s, c, g, n, x);
  }

  /** The next bit of a two's complement value that is known down to the bit above it. */
  lemma NextBit(x: int, held: int, al: nat)
    requires held == x / Pow2(al + 1) * Pow2(al + 1)
    ensures (if x / Pow2(al) % 2 == 1 then SetBit(held, Pow2(al)) else held) == x / Pow2(al) * Pow2(al)
  {
    var p, q := Pow2(al), x / Pow2(al);
    assert Pow2(al + 1) == p * 2;
    HalfQuotient(x, p);
    assert q == 2 * (q / 2) + q % 2;
    MulAssoc(q / 2, 2, p);
    MulDistributes(2 * (q / 2), q % 2, p);
    DivUnique(held, 2 * (q / 2), p, 0);
  }

  lemma HalfQuotient(x: int, p: nat)
    requires p > 0
    ensures x / (p * 2) == x / p / 2
  {
    var q, r := x / p, x % p;
    var q2, r2 := q / 2, q % 2;
    assert x == q * p + r;
    assert q * p == (2 * q2 + r2) * p;
    MulDistributes(2 * q2, r2, p);
    MulAssoc(2, q2, p);
    MulAssoc(q2, p, 2);
    assert r2 * p <= p by { MulMono(r2, 1, p); }
    DivUnique(x, q2, p * 2, r2 * p + r);
  }

  lemma DcRefineReads<D(!new)>(next: Source<D>, at: (D, History) -> bool, ds: History, d: D, s: Scan, c: Coded,
                               g: Held, n: nat, x: Block)
    requires Follows(next, at, ds) && at(d, c.h)
    requires CanRead(s, g) && n < |g.mcu| && |x| == 64 && g.preds == c.preds
    requires KindOf(s).DcRefine?
    requires CodedBlock(s, c, s.membership[n], x).h <= ds
    ensures var k, r := CodedBlock(s, c, s.membership[n], x), ReadBlock(next, d, s, g, n);
      BlockDone(s, r, g, n, x, k.preds) && at(r.d, k.h)
  {
    var held := g.mcu[n];
    forall k | 0 < k < 64
      ensures s.order[k] != 0
    {
      DcPlace(s.order, k);
    }
    if Expected(s, x, held) {
      NextBit(x[0], held[0], s.al);
    }
  }

  /** What the AC routines store is what a scan must reach. */
  lemma StoredReaches(s: Scan, x: Block, held: Block, after: Block, al: nat, k: nat, se: nat)
    requires ValidScan(s) && |x| == |held| == 64 && se < 64
    requires Stored(held, after, s.order, Scanned(x, s.order, al, se), al, k, se)
    ensures |after| == 64 && after[0] == held[0]
    ensures forall j :: k < j <= se ==> after[s.order[j]] == Quot(x[s.order[j]], al) * Pow2(al)
    ensures forall j :: 0 < j < 64 && !(k < j <= se) ==> after[s.order[j]] == held[s.order[j]]
  {
    assert s.order[0] == 0;
  }

  lemma ScannedBound(s: Scan, x: Block, al: nat, se: nat)
    requires ValidScan(s) && IsBlock(x) && se < 64
    ensures forall j :: 0 <= j <= se ==> Abs(Scanned(x, s.order, al, se)[j]) <= 0x8000
  {
    forall j | 0 <= j <= se
      ensures Abs(Scanned(x, s.order, al, se)[j]) <= 0x8000
    {
      QuotBound(x[s.order[j]], al);
    }
  }

  lemma AcFirstReads<D(!new)>(next: Source<D>, at: (D, History) -> bool, ds: History, d: D, s: Scan, c: Coded,
                              g: Held, n: nat, x: Block)
    requires Follows(next, at, ds) && at(d, c.h)
    requires CanRead(s, g) && n < |g.mcu| && IsBlock(x) && g.preds == c.preds
    requires KindOf(s).AcFirst? && Expected(s, x, g.mcu[n])
    requires CodedBlock(s, c, s.membership[n], x).h <= ds
    ensures var k, r := CodedBlock(s, c, s.membership[n], x), ReadBlock(next, d, s, g, n);
      BlockDone(s, r, g, n, x, k.preds) && at(r.d, k.h)
  {
    var tbl, z := s.comps[0].acTbl, Scanned(x, s.order, s.al, s.se);
    ScannedBound(s, x, s.al, s.se);
    AcReads(next, at, ds, d, c.h, tbl, s.acK[tbl], s.ss, s.se, z, s.order, s.al, g.mcu[n]);
    StoredReaches(s, x, g.mcu[n],
                  ReadAcFrom(next, d, tbl, s.acK[tbl], s.ss - 1, s.se, s.order, s.al, g.mcu[n]).value, s.al, s.ss - 1, s.se);
  }

  lemma ScannedHalves(s: Scan, x: Block)
    requires ValidScan(s) && |x| == 64 && s.ah == s.al + 1
    ensures Halves(Scanned(x, s.order, s.al, s.se), Scanned(x, s.order, s.ah, s.se))
  {
    forall j | 0 <= j <= s.se
      ensures Quot(x[s.order[j]], s.ah) == Quot(Quot(x[s.order[j]], s.al), 1)
    {
      QuotHalves(x[s.order[j]], s.al);
    }
  }

  lemma AcRefineReads<D(!new)>(next: Source<D>, at: (D, History) -> bool, ds: History, d: D, s: Scan, c: Coded,
                               g: Held, n: nat, x: Block)
    requires Follows(next, at, ds) && at(d, c.h)
    requires CanRead(s, g) && n < |g.mcu| && |x| == 64 && g.preds == c.preds
    requires KindOf(s).AcRefine? && Expected(s, x, g.mcu[n])
    requires CodedBlock(s, c, s.membership[n], x).h <= ds
    ensures var k, r := CodedBlock(s, c, s.membership[n], x), ReadBlock(next, d, s, g, n);
      BlockDone(s, r, g, n, x, k.preds) && at(r.d, k.h)
  {
    hide ReadRefine, RefineAc, Stored, Follows;
    var tbl, z, w := s.comps[0].acTbl, Scanned(x, s.order, s.al, s.se), Scanned(x, s.order, s.ah, s.se);
    ScannedHalves(s, x);
    RefineReads(next, at, ds, d, c.h, tbl, s.ss, s.se, z, w, s.order, s.al, g.mcu[n]);
    StoredReaches(s, x, g.mcu[n],
                  ReadRefine(next, d, tbl, s.ss, s.se, s.order, s.al, g.mcu[n]).value, s.al, s.ss - 1, s.se);
  }

  lemma SequentialReads<D(!new)>(next: Source<D>, at: (D, History) -> bool, ds: History, d: D, s: Scan, c: Coded,
                                 g: Held, n: nat, x: Block)
    requires Follows(next, at, ds) && at(d, c.h)
    requires CanRead(s, g) && n < |g.mcu| && IsBlock(x) && g.preds == c.preds
    requires KindOf(s).Sequential? && Expected(s, x, g.mcu[n]) && DcFits(s, c, s.membership[n], x)
    requires CodedBlock(s, c, s.membership[n], x).h <= ds
    ensures var k, r := CodedBlock(s, c, s.membership[n], x), ReadBlock(next, d, s, g, n);
      BlockDone(s, r, g, n, x, k.preds) && at(r.d, k.h)
  {
    hide ReadAcFrom, CodeAc, Stored, Follows, ReadDcBlock, CodeDcBlock;
    var dc := CodeDcBlock(s, c, s.membership[n], x);
    assert dc.h <= ds;
    DcBlockReads(next, at, ds, d, s, c, g, n, x);
    if s.limSe > 0 {
      var r := ReadDcBlock(next, d, s, g, n);
      var held := r.value.mcu[n];
      var tbl, z := s.comps[s.membership[n]].acTbl, Scanned(x, s.order, 0, s.limSe);
      forall k | 0 < k <= s.limSe
        ensures held[s.order[k]] == 0
      {
        DcPlace(s.order, k);
      }
      ScannedBound(s, x, 0, s.limSe);
      AcReads(next, at, ds, r.d, dc.h, tbl, s.acK[tbl], 1, s.limSe, z, s.order, 0, held);
      var after := ReadAcFrom(next, r.d, tbl, s.acK[tbl], 0, s.limSe, s.order, 0, held).value;
      StoredReaches(s, x, held, after, 0, 0, s.limSe);
    }
  }

  /** Whatever the kind of the scan, one block is read back. */
  lemma BlockReads<D(!new)>(next: Source<D>, at: (D, History) -> bool, ds: History, d: D, s: Scan, c: Coded,
                            g: Held, n: nat, x: Block)
    requires Follows(next, at, ds) && at(d, c.h)
    requires CanRead(s, g) && n < |g.mcu| && IsBlock(x) && g.preds == c.preds
    requires Needs(s, x, g.mcu[n]) && DcFits(s, c, s.membership[n], x)
    requires CodedBlock(s, c, s.membership[n], x).h <= ds
    ensures var k, r := CodedBlock(s, c, s.membership[n], x), ReadBlock(next, d, s, g, n);
      BlockDone(s, r, g, n, x, k.preds) && at(r.d, k.h)
  {
    match KindOf(s)
    case Sequential => SequentialReads(next, at, ds, d, s, c, g, n, x);
    case DcFirst => DcFirstReads(next, at, ds, d, s, c, g, n, x);
    case DcRefine => DcRefineReads(next, at, ds, d, s, c, g, n, x);
    case AcFirst => AcFirstReads(next, at, ds, d, s, c, g, n, x);
    case AcRefine => AcRefineReads(next, at, ds, d, s, c, g, n, x);
  }

  /** Every block of the MCU is one that the scan can carry and that the decoder is prepared for. */
  ghost predicate McuFits(s: Scan, c: Coded, mcu: Mcu, held: Mcu)
    requires Codes(s, c, mcu) && |held| == |mcu| && forall j :: 0 <= j < |mcu| ==> |held[j]| == 64
  {
    forall j :: 0 <= j < |mcu| ==>
      && IsBlock(mcu[j]) && Needs(s, mcu[j], held[j])
      && DcFits(s, CodeBlocks(s, c, mcu, j), s.membership[j], mcu[j])
  }

  /** What reading an MCU leaves: every block has been through the scan. */
  ghost predicate McuReached(s: Scan, mcu: Mcu, held: Mcu, after: Mcu)
    requires ValidScan(s) && |held| == |mcu|
    requires forall j :: 0 <= j < |mcu| ==> |mcu[j]| == |held[j]| == 64
  {
    && |after| == |mcu|
    && forall j :: 0 <= j < |mcu| ==> ScanDone(s, mcu[j], held[j], after[j])
  }

  lemma CodeBlocksMonotone(s: Scan, c: Coded, mcu: Mcu, n: nat)
    requires Codes(s, c, mcu) && n <= |mcu|
    ensures CodeBlocks(s, c, mcu, n).h <= CodeMcu(s, c, mcu).h
    decreases |mcu| - n
  {
    hide CodedBlock;
    if n < |mcu| {
      CodeBlocksMonotone(s, c, mcu, n + 1);
    }
  }

  /** The blocks from n on are read back. */
  lemma {:induction false} BlocksRead<D(!new)>(next: Source<D>, at: (D, History) -> bool, ds: History, d: D, s: Scan,
                                               c: Coded, mcu: Mcu, g: Held, n: nat)
    requires Follows(next, at, ds) && Codes(s, c, mcu) && CanRead(s, g) && n <= |mcu|
    requires at(d, CodeBlocks(s, c, mcu, n).h) && g.preds == CodeBlocks(s, c, mcu, n).preds
    requires forall j :: n <= j < |mcu| ==>
      && IsBlock(mcu[j]) && Needs(s, mcu[j], g.mcu[j])
      && DcFits(s, CodeBlocks(s, c, mcu, j), s.membership[j], mcu[j])
    requires CodeMcu(s, c, mcu).h <= ds
    ensures var r := ReadBlocks(next, d, s, g, n);
      && r.Good? && CanRead(s, r.value) && r.value.preds == CodeMcu(s, c, mcu).preds
      && at(r.d, CodeMcu(s, c, mcu).h)
      && r.value.mcu[..n] == g.mcu[..n]
      && forall j :: n <= j < |mcu| ==> ScanDone(s, mcu[j], g.mcu[j], r.value.mcu[j])
    decreases |mcu| - n
  {
    hide CodedBlock, Needs, ScanDone, DcFits, IsBlock, Follows, ReadBlock;
    if n < |mcu| {
      CodeBlocksMonotone(s, c, mcu, n + 1);
      BlockReads(next, at, ds, d, s, CodeBlocks(s, c, mcu, n), g, n, mcu[n]);
      var r := ReadBlock(next, d, s, g, n);
      BlocksRead(next, at, ds, r.d, s, c, mcu, r.value, n + 1);
      var after := ReadBlocks(next, r.d, s, r.value, n + 1).value.mcu;
      assert after[n] == after[..n + 1][n] == r.value.mcu[n];
      assert after[..n] == after[..n + 1][..n];
    }
  }

  /** decode_mcu undoes encode_mcu, for each of the five routines, with adaptive statistics and predictions. */
  lemma McuReads<D(!new)>(next: Source<D>, at: (D, History) -> bool, ds: History, d: D, s: Scan, c: Coded, mcu: Mcu, g: Held)
    requires Follows(next, at, ds) && at(d, c.h) && Codes(s, c, mcu) && CanRead(s, g) && g.preds == c.preds
    requires McuFits(s, c, mcu, g.mcu) && CodeMcu(s, c, mcu).h <= ds
    ensures var r := ReadBlocks(next, d, s, g, 0);
      && r.Good? && r.value.preds == CodeMcu(s, c, mcu).preds && McuReached(s, mcu, g.mcu, r.value.mcu)
      && at(r.d, CodeMcu(s, c, mcu).h)
  {
    BlocksRead(next, at, ds, d, s, c, mcu, g, 0);
  }
}
