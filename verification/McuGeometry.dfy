/** The geometry of MCUs (sections A.2.2 to A.2.4 of ITU-T T.81), as jcmaster.c sets it up, and the blocks that
    belong to each MCU, dummy blocks at the edges included. */
module McuGeometry {
  import opened Numbers

  type Block = b: seq<int> | |b| == 64 witness seq(64, i => 0)
  type Mcu = seq<Block>

  datatype Component = Component(index: nat, h: nat, v: nat, dctH: nat, dctV: nat)

  /** The picture: its size in samples, and the sizes of its MCUs in samples. */
  datatype Picture = Picture(width: nat, height: nat, maxH: nat, maxV: nat, blockSize: nat, comps: seq<Component>)

  ghost predicate ValidPicture(p: Picture)
  {
    && p.width > 0 && p.height > 0 && p.maxH > 0 && p.maxV > 0 && p.blockSize > 0
    && forall i :: 0 <= i < |p.comps| ==> p.comps[i].index == i && 0 < p.comps[i].h <= p.maxH && 0 < p.comps[i].v <= p.maxV
  }

  /** jdiv_round_up */
  function DivUp(a: nat, b: nat): nat
    requires b > 0
  {
    (a + b - 1) / b
  }

  function WidthInBlocks(p: Picture, c: Component): nat
    requires p.maxH > 0 && p.blockSize > 0
  {
    DivUp(p.width * c.h, p.maxH * p.blockSize)
  }

  function HeightInBlocks(p: Picture, c: Component): nat
    requires p.maxV > 0 && p.blockSize > 0
  {
    DivUp(p.height * c.v, p.maxV * p.blockSize)
  }

  function TotalRows(p: Picture): nat
    requires p.maxV > 0 && p.blockSize > 0
  {
    DivUp(p.height, p.maxV * p.blockSize)
  }

  /** What remains in the last group when n things are put into groups of size k. */
  function LastGroup(n: nat, k: nat): (r: nat)
    requires k > 0
    ensures 0 < r <= k
  {
    if n % k == 0 then k else n % k
  }

  // ---- per_scan_setup: a scan is a list of components ----

  type Scan = seq<Component>

  ghost predicate ValidScan(p: Picture, s: Scan)
  {
    ValidPicture(p) && |s| > 0 && forall i :: 0 <= i < |s| ==> s[i] in p.comps
  }

  function McuWidth(s: Scan, c: Component): nat { if |s| == 1 then 1 else c.h }

  function McuHeight(s: Scan, c: Component): nat { if |s| == 1 then 1 else c.v }

  function McusPerRow(p: Picture, s: Scan): nat
    requires |s| > 0 && p.maxH > 0 && p.blockSize > 0
  {
    if |s| == 1 then WidthInBlocks(p, s[0]) else DivUp(p.width, p.maxH * p.blockSize)
  }

  function LastColWidth(p: Picture, s: Scan, c: Component): nat
    requires c.h > 0 && p.maxH > 0 && p.blockSize > 0
  {
    if |s| == 1 then 1 else LastGroup(WidthInBlocks(p, c), c.h)
  }

  function LastRowHeight(p: Picture, c: Component): nat
    requires c.v > 0 && p.maxV > 0 && p.blockSize > 0
  {
    LastGroup(HeightInBlocks(p, c), c.v)
  }

  /** start_iMCU_row: the MCU rows in one row of fully interleaved MCUs. */
  function McuRows(p: Picture, s: Scan, row: nat): nat
    requires ValidScan(p, s)
  {
    if |s| > 1 then 1 else if row + 1 < TotalRows(p) then s[0].v else LastRowHeight(p, s[0])
  }

  // ---- The blocks ----

  /** The transform of the samples at a place of the iMCU row `row` of a component. */
  type Dct = (nat, nat, nat, nat) -> Block

  function RealBlock(dct: Dct, c: Component, row: nat, col: nat): Block
    requires c.v > 0
  {
    dct(c.index, row / c.v, row % c.v * c.dctV, col * c.dctH)
  }

  /** A dummy block: all AC entries zero. */
  function Dummy(dc: int): Block
  {
    seq(64, i => if i == 0 then dc else 0)
  }

  /** Completion of partial MCUs: blocks beyond the right edge repeat the DC value to their left, blocks below
      the bottom edge that of the last block of the MCU row above. */
  function Padded(p: Picture, dct: Dct, c: Component, row: nat, col: nat): Block
    requires ValidPicture(p) && c.h > 0 && c.v > 0
    decreases row, col
  {
    if row < HeightInBlocks(p, c) then
      if col < WidthInBlocks(p, c) || col == 0 then RealBlock(dct, c, row, col)
      else Dummy(Padded(p, dct, c, row, col - 1)[0])
    else if row == 0 then Dummy(0)
    else Dummy(Padded(p, dct, c, row - 1, col / c.h * c.h + c.h - 1)[0])
  }

  function RowOf(p: Picture, dct: Dct, c: Component, row: nat, col: nat, n: nat): (r: seq<Block>)
    requires ValidPicture(p) && c.h > 0 && c.v > 0
    ensures |r| == n && forall x :: 0 <= x < n ==> r[x] == Padded(p, dct, c, row, col + x)
  {
    seq<Block>(n, x requires 0 <= x < n => Padded(p, dct, c, row, col + x))
  }

  lemma RowSnoc(p: Picture, dct: Dct, c: Component, row: nat, col: nat, n: nat)
    requires ValidPicture(p) && c.h > 0 && c.v > 0
    ensures RowOf(p, dct, c, row, col, n + 1) == RowOf(p, dct, c, row, col, n) + [Padded(p, dct, c, row, col + n)]
  {
  }

  /** n rows of blocks of one component. */
  function RowsOf(p: Picture, dct: Dct, s: Scan, c: Component, row: nat, col: nat, n: nat): (r: seq<Block>)
    requires ValidPicture(p) && c.h > 0 && c.v > 0
    ensures |r| == n * McuWidth(s, c)
  {
    if n == 0 then []
    else RowsOf(p, dct, s, c, row, col, n - 1) + RowOf(p, dct, c, row + n - 1, col, McuWidth(s, c))
  }

  /** The blocks of the first n components of the MCU at column `col` of MCU row `y` within iMCU row `row`. */
  function McuOf(p: Picture, dct: Dct, s: Scan, row: nat, y: nat, col: nat, n: nat): Mcu
    requires ValidScan(p, s) && n <= |s|
  {
    if n == 0 then []
    else
      var c := s[n - 1];
      McuOf(p, dct, s, row, y, col, n - 1)
      + RowsOf(p, dct, s, c, row * c.v + y, col * McuWidth(s, c), McuHeight(s, c))
  }

  /** blocks_in_MCU, summed up over the components. */
  function BlocksInMcu(s: Scan, n: nat): nat
    requires n <= |s|
  {
    if n == 0 then 0 else BlocksInMcu(s, n - 1) + McuHeight(s, s[n - 1]) * McuWidth(s, s[n - 1])
  }

  lemma {:induction false} McuSize(p: Picture, dct: Dct, s: Scan, row: nat, y: nat, col: nat, n: nat)
    requires ValidScan(p, s) && n <= |s|
    ensures |McuOf(p, dct, s, row, y, col, n)| == BlocksInMcu(s, n)
    ensures BlocksInMcu(s, n) <= BlocksInMcu(s, |s|)
  {
    BlocksMonotone(s, n);
    SizeUpTo(p, dct, s, row, y, col, n);
  }

  lemma {:induction false} BlocksMonotone(s: Scan, n: nat)
    requires n <= |s|
    ensures BlocksInMcu(s, n) <= BlocksInMcu(s, |s|)
    decreases |s| - n
  {
    if n < |s| {
      BlocksMonotone(s, n + 1);
    }
  }

  lemma {:induction false} SizeUpTo(p: Picture, dct: Dct, s: Scan, row: nat, y: nat, col: nat, n: nat)
    requires ValidScan(p, s) && n <= |s|
    ensures |McuOf(p, dct, s, row, y, col, n)| == BlocksInMcu(s, n)
    decreases n
  {
    if n > 0 {
      SizeUpTo(p, dct, s, row, y, col, n - 1);
    }
  }

  function TheMcu(p: Picture, dct: Dct, s: Scan, row: nat, y: nat, col: nat): Mcu
    requires ValidScan(p, s)
  {
    McuOf(p, dct, s, row, y, col, |s|)
  }

  /** All MCUs of the scan before the one at this place, in the order of the scan. */
  function Before(p: Picture, dct: Dct, s: Scan, row: nat, y: nat, col: nat): seq<Mcu>
    requires ValidScan(p, s)
    decreases row, y, col
  {
    if col > 0 then Before(p, dct, s, row, y, col - 1) + [TheMcu(p, dct, s, row, y, col - 1)]
    else if y > 0 then Before(p, dct, s, row, y - 1, McusPerRow(p, s))
    else if row > 0 then Before(p, dct, s, row - 1, McuRows(p, s, row - 1), 0)
    else []
  }

  // ---- The two ways of rounding up agree ----

  lemma DivUpBounds(a: nat, b: nat)
    requires b > 0
    ensures (DivUp(a, b) - 1) * b < a <= DivUp(a, b) * b || (a == 0 && DivUp(a, b) == 0)
  {
    var q, r := (a + b - 1) / b, (a + b - 1) % b;
    assert a + b - 1 == q * b + r;
    assert (q - 1) * b == q * b - b;
  }

  lemma DivUpUnique(a: nat, b: nat, q: nat)
    requires b > 0 && a > 0 && (q - 1) * b < a <= q * b
    ensures DivUp(a, b) == q
  {
    assert (q - 1) * b == q * b - b;
    DivUnique(a + b - 1, q, b, a + b - 1 - q * b);
  }

  /** Rounding the blocks up to MCUs gives the MCUs of the picture: ceil(ceil(w * h / (m * b)) / h) == ceil(w / (m * b)). */
  lemma GroupsOfBlocks(w: nat, h: nat, d: nat)
    requires w > 0 && h > 0 && d > 0
    ensures DivUp(DivUp(w * h, d), h) == DivUp(w, d) && DivUp(w * h, d) > 0
  {
    var n, q := DivUp(w * h, d), DivUp(w, d);
    DivUpBounds(w, d);
    MulMono(1, w, h);
    DivUpBounds(w * h, d);
    assert n > 0;
    MulDistributes((q - 1) * d, 1, h);
    // (q - 1) * d < w <= q * d, so (q - 1) * h < n <= q * h.
    if n > q * h {
      MulMono(q * h, n - 1, d);
      MulMono(w, q * d, h);
      MulAssoc(q, d, h);
      assert false;
    }
    if n <= (q - 1) * h {
      MulMono(n, (q - 1) * h, d);
      MulMono((q - 1) * d + 1, w, h);
      MulAssoc(q - 1, d, h);
      assert false;
    }
    DivUpUnique(n, h, q);
  }
}
