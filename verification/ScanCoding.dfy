/** MCUs and restart segments: what is coded for a whole scan, and how it is read back. */
module ScanCoding {
  import opened Numbers
  import opened IntervalCoder
  import opened JpegScan
  import opened McuCoding
  import opened McuDecoding
  import opened RefineDecoding

  type Mcu = seq<Block>

  datatype Coded = Coded(h: History, preds: seq<Prediction>)

  function StartCoded(s: Scan): Coded
  {
    Coded([], seq(|s.comps|, i => NO_PREDICTION))
  }

  /** The DC value that is coded: the point transform of DC values is an arithmetic shift. */
  function DcValue(s: Scan, b: Block): int
    requires |b| == 64
  {
    if s.progressive then b[0] / Pow2(s.al) else b[0]
  }

  ghost predicate Codes(s: Scan, c: Coded, mcu: Mcu)
  {
    && ValidScan(s) && |c.preds| == |s.comps| && |mcu| == |s.membership|
    && forall j :: 0 <= j < |mcu| ==> |mcu[j]| == 64
  }

  function CodeDcBlock(s: Scan, c: Coded, ci: nat, b: Block): (r: Coded)
    requires ValidScan(s) && |c.preds| == |s.comps| && ci < |s.comps| && |b| == 64
    ensures c.h <= r.h && |r.preds| == |c.preds|
  {
    var tbl := s.comps[ci].dcTbl;
    var d := CodeDc(c.h, tbl, c.preds[ci], DcValue(s, b), s.dcL[tbl], s.dcU[tbl]);
    Coded(d.h, c.preds[ci := d.p])
  }

  function CodeBlock(s: Scan, c: Coded, ci: nat, b: Block): (r: Coded)
    requires ValidScan(s) && |c.preds| == |s.comps| && ci < |s.comps| && |b| == 64
    ensures c.h <= r.h && |r.preds| == |c.preds|
  {
    var d := CodeDcBlock(s, c, ci, b);
    var tbl := s.comps[ci].acTbl;
    if s.limSe == 0 then d
    else d.(h := CodeAc(d.h, tbl, s.acK[tbl], 1, s.limSe, Scanned(b, s.order, 0, s.limSe)))
  }

  /** What one block of an MCU adds, for each kind of scan. */
  function CodedBlock(s: Scan, c: Coded, ci: nat, b: Block): (r: Coded)
    requires ValidScan(s) && |c.preds| == |s.comps| && ci < |s.comps| && |b| == 64
    ensures c.h <= r.h && |r.preds| == |c.preds|
  {
    match KindOf(s)
    case Sequential => CodeBlock(s, c, ci, b)
    case DcFirst => CodeDcBlock(s, c, ci, b)
    case DcRefine => c.(h := Put(c.h, FixedArea, 0, b[0] / Pow2(s.al) % 2 == 1))
    case AcFirst =>
      var tbl := s.comps[0].acTbl;
      c.(h := CodeAc(c.h, tbl, s.acK[tbl], s.ss, s.se, Scanned(b, s.order, s.al, s.se)))
    case AcRefine =>
      c.(h := RefineAc(c.h, s.comps[0].acTbl, s.ss, s.se, Scanned(b, s.order, s.al, s.se),
                       Scanned(b, s.order, s.ah, s.se)))
  }

  /** The first n blocks of an MCU. */
  function CodeBlocks(s: Scan, c: Coded, mcu: Mcu, n: nat): (r: Coded)
    requires Codes(s, c, mcu) && n <= |mcu|
    ensures c.h <= r.h && |r.preds| == |c.preds|
  {
    if n == 0 then c
    else
      CodedBlock(s, CodeBlocks(s, c, mcu, n - 1), s.membership[n - 1], mcu[n - 1])
  }

  function CodeMcu(s: Scan, c: Coded, mcu: Mcu): (r: Coded)
    requires Codes(s, c, mcu)
    ensures c.h <= r.h && |r.preds| == |c.preds|
  {
    CodeBlocks(s, c, mcu, |mcu|)
  }

  datatype Held = Held(preds: seq<Prediction>, mcu: Mcu)

  ghost predicate CanRead(s: Scan, g: Held)
  {
    && ValidScan(s) && |g.preds| == |s.comps| && |g.mcu| == |s.membership|
    && forall j :: 0 <= j < |g.mcu| ==> |g.mcu[j]| == 64
  }

  /** The decoder's DC part: predict, then store the value scaled up. */
  function ReadDcBlock<D>(next: Source<D>, d: D, s: Scan, g: Held, n: nat): (r: Read<D, Held>)
    requires CanRead(s, g) && n < |g.mcu|
    ensures r.Good? ==> CanRead(s, r.value)
  {
    var ci := s.membership[n];
    var tbl := s.comps[ci].dcTbl;
    var p := ReadDc(next, d, tbl, g.preds[ci], s.dcL[tbl], s.dcU[tbl]);
    if p.Corrupt? then Corrupt
    else
      var dc := if s.progressive then p.value.last * Pow2(s.al) else p.value.last;
      Good(p.d, Held(g.preds[ci := p.value], g.mcu[n := g.mcu[n][0 := dc]]))
  }

  function Replaced<D>(g: Held, n: nat, r: Read<D, Block>): Read<D, Held>
    requires n < |g.mcu|
  {
    if r.Corrupt? then Corrupt else Good(r.d, g.(mcu := g.mcu[n := r.value]))
  }

  function ReadBlock<D>(next: Source<D>, d: D, s: Scan, g: Held, n: nat): (r: Read<D, Held>)
    requires CanRead(s, g) && n < |g.mcu|
    ensures r.Good? ==> CanRead(s, r.value)
  {
    match KindOf(s)
    case DcFirst => ReadDcBlock(next, d, s, g, n)
    case DcRefine =>
      var (bit, d1) := next(d, Bin(FixedArea, 0));
      var b := g.mcu[n];
      Good(d1, g.(mcu := g.mcu[n := if bit then b[0 := SetBit(b[0], Pow2(s.al))] else b]))
    case AcFirst =>
      var tbl := s.comps[0].acTbl;
      Replaced(g, n, ReadAcFrom(next, d, tbl, s.acK[tbl], s.ss - 1, s.se, s.order, s.al, g.mcu[n]))
    case AcRefine =>
      Replaced(g, n, ReadRefine(next, d, s.comps[0].acTbl, s.ss, s.se, s.order, s.al, g.mcu[n]))
    case Sequential =>
      var r := ReadDcBlock(next, d, s, g, n);
      var tbl := s.comps[s.membership[n]].acTbl;
      if r.Corrupt? || s.limSe == 0 then r
      else Replaced(r.value, n, ReadAcFrom(next, r.d, tbl, s.acK[tbl], 0, s.limSe, s.order, 0, r.value.mcu[n]))
  }

  /** The blocks n.. of an MCU, into what the decoder holds of it. */
  function ReadBlocks<D>(next: Source<D>, d: D, s: Scan, g: Held, n: nat): (r: Read<D, Held>)
    requires CanRead(s, g) && n <= |g.mcu|
    ensures r.Good? ==> CanRead(s, r.value)
    decreases |g.mcu| - n
  {
    if n == |g.mcu| then Good(d, g)
    else
      var r := ReadBlock(next, d, s, g, n);
      if r.Corrupt? then Corrupt else ReadBlocks(next, r.d, s, r.value, n + 1)
  }

  // ---- What a scan does to a block ----

  /** The part of the source block x that the decoder must hold before the scan. */
  ghost predicate Expected(s: Scan, x: Block, held: Block)
    requires ValidScan(s) && |x| == |held| == 64
  {
    match KindOf(s)
    case Sequential => forall k :: 0 < k <= s.limSe ==> held[s.order[k]] == 0
    case DcFirst => true
    case AcFirst => forall k :: s.ss <= k <= s.se ==> held[s.order[k]] == 0
    case DcRefine => s.ah == s.al + 1 && held[0] == x[0] / Pow2(s.ah) * Pow2(s.ah)
    case AcRefine =>
      && s.ah == s.al + 1
      && forall k :: s.ss <= k <= s.se ==> held[s.order[k]] == Quot(x[s.order[k]], s.ah) * Pow2(s.ah)
  }

  /** What decoding must find to keep in step. A DC refinement reads one bit for each block whatever it finds. */
  ghost predicate Needs(s: Scan, x: Block, held: Block)
    requires ValidScan(s) && |x| == |held| == 64
  {
    KindOf(s).DcRefine? || Expected(s, x, held)
  }

  predicate InBand(s: Scan, k: nat)
  {
    match KindOf(s)
    case Sequential => 0 < k <= s.limSe
    case DcFirst => false
    case DcRefine => false
    case AcFirst => s.ss <= k <= s.se
    case AcRefine => s.ss <= k <= s.se
  }

  /** The bit position that the scan brings coefficients to. */
  function Position(s: Scan): nat
  {
    if s.progressive then s.al else 0
  }

  /** After the scan: its coefficients hold the bits of x down to the position of the scan, the others are untouched. */
  ghost predicate Reached(s: Scan, x: Block, held: Block, after: Block)
    requires ValidScan(s) && |x| == |held| == |after| == 64
  {
    && after[0] == (if s.ss == 0 then x[0] / Pow2(Position(s)) * Pow2(Position(s)) else held[0])
    && (forall k :: 0 < k < 64 && InBand(s, k)
          ==> after[s.order[k]] == Quot(x[s.order[k]], Position(s)) * Pow2(Position(s)))
    && (forall k :: 0 < k < 64 && !InBand(s, k) ==> after[s.order[k]] == held[s.order[k]])
  }

  /** Whatever a scan finds, it leaves the coefficients alone that it does not carry; and if it finds what it expects,
      it brings its own to its position. */
  ghost predicate ScanDone(s: Scan, x: Block, held: Block, after: Block)
    requires ValidScan(s) && |x| == |held| == 64
  {
    && |after| == 64 && Spared(s, held, after)
    && (Expected(s, x, held) ==> Reached(s, x, held, after))
  }

  ghost predicate Spared(s: Scan, held: Block, after: Block)
    requires ValidScan(s) && |held| == |after| == 64
  {
    && (s.ss != 0 ==> after[0] == held[0])
    && forall k :: 0 < k < 64 && !InBand(s, k) ==> after[s.order[k]] == held[s.order[k]]
  }

  /** The difference that is coded for block n of the MCU fits a magnitude of 2^15. */
  ghost predicate DcFits(s: Scan, c: Coded, ci: nat, b: Block)
    requires |c.preds| > ci && |b| == 64
  {
    KindOf(s).Sequential? || KindOf(s).DcFirst? ==> Abs(DcValue(s, b) - c.preds[ci].last) <= 0x8000
  }
}
