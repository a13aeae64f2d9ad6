/** The coefficient buffer controller of jccoefct.c: the single-pass and the multi-pass way of feeding the MCUs
    of a scan to an entropy coder that may suspend at any MCU. */
module CoefController {
  import opened Numbers
  import opened McuGeometry

  /** The entropy coder as the controller sees it: each call accepts the MCU or asks to be called again. */
  class EntropySink {
    const accepts: nat -> bool
    var attempts: nat
    var accepted: seq<Mcu>

    constructor (accepts: nat -> bool)
      ensures this.accepts == accepts && attempts == 0 && accepted == []
    {
      this.accepts := accepts;
      attempts, accepted := 0, [];
    }

    method EncodeMcu(mcu: Mcu) returns (ok: bool)
      modifies this
      ensures ok == accepts(old(attempts)) && attempts == old(attempts) + 1
      ensures accepted == if ok then old(accepted) + [mcu] else old(accepted)
    {
      ok := accepts(attempts);
      attempts := attempts + 1;
      if ok {
        accepted := accepted + [mcu];
      }
    }
  }

  // ---- Where the edges fall ----

  lemma LastGroupIs(n: nat, k: nat)
    requires n > 0 && k > 0
    ensures DivUp(n, k) > 0 && n == (DivUp(n, k) - 1) * k + LastGroup(n, k)
  {
    DivUpBounds(n, k);
    var q := DivUp(n, k);
    assert q * k == (q - 1) * k + k;
    if n == q * k {
      DivUnique(n, q, k, 0);
    } else {
      DivUnique(n, q - 1, k, n - (q - 1) * k);
    }
  }

  /** In every group but the last all n things are real; in the last one the first LastGroup are. */
  lemma GroupAt(n: nat, k: nat, g: nat)
    requires n > 0 && k > 0 && g < DivUp(n, k)
    ensures if g + 1 < DivUp(n, k) then g * k + k <= n else g * k + LastGroup(n, k) == n
  {
    LastGroupIs(n, k);
    var q := DivUp(n, k);
    if g + 1 < q {
      MulMono(g + 1, q - 1, k);
      MulDistributes(g, 1, k);
    } else {
      assert g == q - 1;
    }
  }

  function Blockcnt(p: Picture, s: Scan, c: Component, col: nat): nat
    requires ValidScan(p, s) && c.h > 0
  {
    if col + 1 < McusPerRow(p, s) then McuWidth(s, c) else LastColWidth(p, s, c)
  }

  lemma Columns(p: Picture, s: Scan, c: Component, col: nat)
    requires ValidScan(p, s) && c in s && col < McusPerRow(p, s)
    ensures c.h > 0 && c.v > 0 && 0 < Blockcnt(p, s, c, col) <= McuWidth(s, c)
    ensures var x := col * McuWidth(s, c);
      if col + 1 < McusPerRow(p, s) then x + McuWidth(s, c) <= WidthInBlocks(p, c)
      else x + Blockcnt(p, s, c, col) == WidthInBlocks(p, c)
  {
    assert c in p.comps;
    if |s| == 1 {
      assert c == s[0];
    } else {
      GroupsOfBlocks(p.width, c.h, p.maxH * p.blockSize);
      GroupAt(WidthInBlocks(p, c), c.h, col);
    }
  }

  lemma Rows(p: Picture, s: Scan, c: Component, row: nat)
    requires ValidScan(p, s) && c in s && row < TotalRows(p)
    ensures c.h > 0 && c.v > 0 && HeightInBlocks(p, c) > 0
    ensures if row + 1 < TotalRows(p) then row * c.v + c.v <= HeightInBlocks(p, c)
            else row * c.v + LastRowHeight(p, c) == HeightInBlocks(p, c)
  {
    assert c in p.comps;
    GroupsOfBlocks(p.height, c.v, p.maxV * p.blockSize);
    GroupAt(HeightInBlocks(p, c), c.v, row);
  }

  /** The place of a real block within its iMCU row. */
  lemma RealPlace(dct: Dct, c: Component, row: nat, y: nat, col: nat)
    requires y < c.v
    ensures RealBlock(dct, c, row * c.v + y, col) == dct(c.index, row, y * c.dctV, col * c.dctH)
  {
    DivUnique(row * c.v + y, row, c.v, y);
  }

  lemma LastOfRows(p: Picture, dct: Dct, s: Scan, c: Component, row: nat, col: nat, n: nat)
    requires ValidPicture(p) && c.h > 0 && c.v > 0 && n > 0
    ensures var r := RowsOf(p, dct, s, c, row, col, n);
      |r| > 0 && r[|r| - 1] == Padded(p, dct, c, row + n - 1, col + McuWidth(s, c) - 1)
  {
  }

  lemma NextMcu(p: Picture, dct: Dct, s: Scan, row: nat, y: nat, col: nat)
    requires ValidScan(p, s)
    ensures Before(p, dct, s, row, y, col + 1) == Before(p, dct, s, row, y, col) + [TheMcu(p, dct, s, row, y, col)]
  {
  }

  lemma NextRow(p: Picture, dct: Dct, s: Scan, row: nat, y: nat)
    requires ValidScan(p, s)
    ensures Before(p, dct, s, row, y + 1, 0) == Before(p, dct, s, row, y, McusPerRow(p, s))
    ensures y == McuRows(p, s, row) ==> Before(p, dct, s, row + 1, 0, 0) == Before(p, dct, s, row, y, 0)
  {
  }

  // ---- The virtual arrays ----

  function PaddedWidth(p: Picture, c: Component): nat
    requires p.maxH > 0 && p.blockSize > 0 && c.h > 0
  {
    DivUp(WidthInBlocks(p, c), c.h) * c.h
  }

  type BlockRows = seq<array<Block>>

  /** One virtual array for each component: rows of blocks, padded to whole MCUs. */
  ghost predicate Allotted(p: Picture, whole: seq<BlockRows>, arrays: set<array<Block>>)
  {
    && ValidPicture(p) && |whole| == |p.comps|
    && forall i :: 0 <= i < |whole| ==>
      && Rectangle(whole[i], TotalRows(p) * p.comps[i].v, PaddedWidth(p, p.comps[i]))
      && (forall j :: 0 <= j < |whole[i]| ==> whole[i][j] in arrays)
      && forall j :: 0 <= j < |whole| && i != j ==> Apart(whole[i], whole[j])
  }

  ghost predicate Rectangle(rows: BlockRows, height: nat, width: nat)
  {
    && |rows| == height
    && forall i :: 0 <= i < height ==> rows[i].Length == width && forall j :: 0 <= j < i ==> rows[j] != rows[i]
  }

  ghost predicate Apart(rows: BlockRows, others: BlockRows)
  {
    forall a :: a in rows ==> a !in others
  }

  /** The first n array rows hold the rows of blocks from `first` on, dummy blocks included. */
  ghost predicate Hold(p: Picture, dct: Dct, c: Component, rows: BlockRows, first: nat, n: nat)
    requires ValidPicture(p) && c.h > 0 && c.v > 0
    reads rows
  {
    forall i :: 0 <= i < |rows| && i < n ==> rows[i][..] == RowOf(p, dct, c, first + i, 0, rows[i].Length)
  }

  function BlockRowsIn(c: Component, rows: nat): nat
  {
    rows * c.v
  }

  /** The arrays hold the first `rows` iMCU rows of the picture. */
  ghost predicate Loaded(p: Picture, dct: Dct, whole: seq<BlockRows>, arrays: set<array<Block>>, rows: nat)
    requires Allotted(p, whole, arrays)
    reads arrays
  {
    forall i :: 0 <= i < |whole| ==> Hold(p, dct, p.comps[i], whole[i], 0, BlockRowsIn(p.comps[i], rows))
  }

  lemma PaddedWidthIs(p: Picture, c: Component)
    requires ValidPicture(p) && c in p.comps
    ensures 0 < WidthInBlocks(p, c) <= PaddedWidth(p, c)
    ensures PaddedWidth(p, c) == WidthInBlocks(p, c) + (c.h - LastGroup(WidthInBlocks(p, c), c.h))
  {
    var n := WidthInBlocks(p, c);
    GroupsOfBlocks(p.width, c.h, p.maxH * p.blockSize);
    LastGroupIs(n, c.h);
    MulDistributes(DivUp(n, c.h) - 1, 1, c.h);
  }

  /** Where the blocks of an MCU lie in the arrays. */
  lemma InArray(p: Picture, s: Scan, c: Component, row: nat, y: nat, yindex: nat, col: nat)
    requires ValidScan(p, s) && c in s && (|s| == 1 ==> c == s[0]) && row < TotalRows(p)
    requires col < McusPerRow(p, s) && y < McuRows(p, s, row) && yindex < McuHeight(s, c)
    ensures c in p.comps
    ensures row * c.v + y + yindex < (row + 1) * c.v <= TotalRows(p) * c.v
    ensures col * McuWidth(s, c) + McuWidth(s, c) <= PaddedWidth(p, c)
  {
    assert c in p.comps;
    PaddedWidthIs(p, c);
    MulMono(row + 1, TotalRows(p), c.v);
    MulDistributes(row, 1, c.v);
    if |s| > 1 {
      GroupsOfBlocks(p.width, c.h, p.maxH * p.blockSize);
      MulMono(col + 1, McusPerRow(p, s), c.h);
      MulDistributes(col, 1, c.h);
    }
  }

  const C_MAX_BLOCKS_IN_MCU := 10

  /** The first row of samples of a row of blocks. */
  function SampleRow(c: Component, y: nat): nat
  {
    y * c.dctV
  }

  lemma NextSampleRow(c: Component, y: nat)
    ensures SampleRow(c, y + 1) == SampleRow(c, y) + c.dctV
  {
    MulDistributes(y, 1, c.dctV);
  }

  // ---- Rows of blocks, as the loops make them ----

  function Transformed(dct: Dct, c: Component, row: nat, ypos: nat, xpos: nat, n: nat): (r: seq<Block>)
    ensures |r| == n
  {
    seq<Block>(n, i requires 0 <= i < n => dct(c.index, row, ypos, xpos + i * c.dctH))
  }

  function Dummies(dc: int, n: nat): (r: seq<Block>)
    ensures |r| == n
  {
    seq<Block>(n, i => Dummy(dc))
  }

  lemma RealBlocks(p: Picture, dct: Dct, c: Component, row: nat, y: nat, x: nat, n: nat)
    requires ValidPicture(p) && c.h > 0 && c.v > 0 && y < c.v && x + n <= WidthInBlocks(p, c)
    requires row * c.v + y < HeightInBlocks(p, c)
    ensures Transformed(dct, c, row, y * c.dctV, x * c.dctH, n) == RowOf(p, dct, c, row * c.v + y, x, n)
  {
    forall i: nat | i < n
      ensures dct(c.index, row, y * c.dctV, x * c.dctH + i * c.dctH) == Padded(p, dct, c, row * c.v + y, x + i)
    {
      RealPlace(dct, c, row, y, x + i);
      MulDistributes(x, i, c.dctH);
    }
  }

  /** Blocks beyond the right edge repeat the DC value of the last real block. */
  lemma RightBlocks(p: Picture, dct: Dct, c: Component, row: nat, x: nat, n: nat, m: nat)
    requires ValidPicture(p) && c.h > 0 && c.v > 0 && n > 0 && row < HeightInBlocks(p, c)
    requires m > 0 ==> WidthInBlocks(p, c) <= x + n
    ensures RowOf(p, dct, c, row, x, n) + Dummies(RowOf(p, dct, c, row, x, n)[n - 1][0], m) == RowOf(p, dct, c, row, x, n + m)
  {
    hide HeightInBlocks, WidthInBlocks;
    var dc := Padded(p, dct, c, row, x + n - 1)[0];
    if m > 0 {
      RightBlocks(p, dct, c, row, x, n, m - 1);
      RowSnoc(p, dct, c, row, x, n + m - 1);
      assert Dummies(dc, m) == Dummies(dc, m - 1) + [Dummy(dc)];
      assert RowOf(p, dct, c, row, x, n + m - 1)[n + m - 2] == Padded(p, dct, c, row, x + n + m - 2);
      assert m > 1 ==> Dummies(dc, m - 1)[m - 2] == Dummy(dc);
    }
  }

  /** A row of an MCU below the bottom edge repeats the DC value of the last block of the row above. */
  lemma BelowBlocks(p: Picture, dct: Dct, c: Component, row: nat, mcu: nat)
    requires ValidPicture(p) && c.h > 0 && c.v > 0 && row > 0 && HeightInBlocks(p, c) <= row
    ensures Dummies(Padded(p, dct, c, row - 1, mcu * c.h + c.h - 1)[0], c.h) == RowOf(p, dct, c, row, mcu * c.h, c.h)
  {
    hide HeightInBlocks;
    forall i: nat | i < c.h
      ensures Dummy(Padded(p, dct, c, row - 1, mcu * c.h + c.h - 1)[0]) == RowOf(p, dct, c, row, mcu * c.h, c.h)[i]
    {
      DivUnique(mcu * c.h + i, mcu, c.h, i);
    }
  }

  lemma RowSplit(p: Picture, dct: Dct, c: Component, row: nat, n: nat, m: nat)
    requires ValidPicture(p) && c.h > 0 && c.v > 0
    ensures RowOf(p, dct, c, row, 0, n + m) == RowOf(p, dct, c, row, 0, n) + RowOf(p, dct, c, row, n, m)
  {
  }

  lemma RowPart(p: Picture, dct: Dct, c: Component, row: nat, x: nat, n: nat, all: nat)
    requires ValidPicture(p) && c.h > 0 && c.v > 0 && x + n <= all
    ensures RowOf(p, dct, c, row, 0, all)[x..x + n] == RowOf(p, dct, c, row, x, n)
  {
  }

  lemma NoRows(p: Picture, dct: Dct, s: Scan, c: Component, row: nat, col: nat)
    requires ValidPicture(p) && c.h > 0 && c.v > 0
    ensures RowsOf(p, dct, s, c, row, col, 0) == []
  {
  }

  lemma RowsFit(p: Picture, dct: Dct, s: Scan, c: Component, row: nat, col: nat, n: nat)
    requires ValidPicture(p) && c.h > 0 && c.v > 0 && n < McuHeight(s, c)
    ensures |RowsOf(p, dct, s, c, row, col, n)| + McuWidth(s, c) <= McuHeight(s, c) * McuWidth(s, c)
  {
    MulMono(n + 1, McuHeight(s, c), McuWidth(s, c));
    MulDistributes(n, 1, McuWidth(s, c));
  }

  /** Puts a block behind the part of an array that has been filled. */
  method PutBlock(a: array<Block>, at: nat, b: Block)
    requires at < a.Length
    modifies a
    ensures a[..at] == old(a[..at]) && a[..at + 1] == old(a[..at]) + [b]
  {
    a[at] := b;
  }

  /** (*forward_DCT): a horizontal row of n transformed blocks. */
  method ForwardDct(dct: Dct, c: Component, row: nat, a: array<Block>, at: nat, ypos: nat, xpos: nat, n: nat)
    requires at + n <= a.Length
    modifies a
    ensures a[..at + n] == old(a[..at]) + Transformed(dct, c, row, ypos, xpos, n)
  {
    for bi := 0 to n
      invariant a[..at + bi] == old(a[..at]) + Transformed(dct, c, row, ypos, xpos, bi)
    {
      assert Transformed(dct, c, row, ypos, xpos, bi + 1)
          == Transformed(dct, c, row, ypos, xpos, bi) + [dct(c.index, row, ypos, xpos + bi * c.dctH)];
      PutBlock(a, at + bi, dct(c.index, row, ypos, xpos + bi * c.dctH));
    }
  }

  /** Zeroed blocks with a given DC value. */
  method PutDummies(a: array<Block>, at: nat, dc: int, n: nat)
    requires at + n <= a.Length
    modifies a
    ensures a[..at + n] == old(a[..at]) + Dummies(dc, n)
  {
    for bi := 0 to n
      invariant a[..at + bi] == old(a[..at]) + Dummies(dc, bi)
    {
      assert Dummies(dc, bi + 1) == Dummies(dc, bi) + [Dummy(dc)];
      PutBlock(a, at + bi, Dummy(dc));
    }
  }

  method CopyBlocks(from: array<Block>, x: nat, a: array<Block>, at: nat, n: nat)
    requires from != a && x + n <= from.Length && at + n <= a.Length
    modifies a
    ensures a[..at + n] == old(a[..at]) + from[x..x + n]
  {
    for xindex := 0 to n
      invariant a[..at + xindex] == old(a[..at]) + from[x..x + xindex]
    {
      PutBlock(a, at + xindex, from[x + xindex]);
    }
  }

  class CoefController {
    const p: Picture
    const s: Scan
    const dct: Dct
    const sink: EntropySink
    // The coefficients of each component, used in multi-pass modes only.
    const wholeImage: seq<BlockRows>
    ghost const arrays: set<array<Block>>
    const mcuBuffer: array<Block>
    var iMcuRowNum: nat
    var mcuCtr: nat
    var mcuVertOffset: nat
    var mcuRowsPerIMcuRow: nat

    ghost predicate Counters()
      reads this
    {
      && ValidScan(p, s) && BlocksInMcu(s, |s|) <= C_MAX_BLOCKS_IN_MCU == mcuBuffer.Length
      && iMcuRowNum <= TotalRows(p)
      && mcuRowsPerIMcuRow == McuRows(p, s, iMcuRowNum)
      && mcuVertOffset < mcuRowsPerIMcuRow && mcuCtr <= McusPerRow(p, s)
      && (iMcuRowNum == TotalRows(p) ==> mcuVertOffset == 0 && mcuCtr == 0)
    }

    /** The MCUs accepted so far are exactly those before the place where the controller stands. */
    ghost predicate Valid()
      reads this, sink
    {
      Counters() && sink.accepted == Before(p, dct, s, iMcuRowNum, mcuVertOffset, mcuCtr)
    }

    /** jinit_c_coef_controller and start_pass_coef. */
    constructor (p: Picture, s: Scan, dct: Dct, sink: EntropySink, wholeImage: seq<BlockRows>,
      ghost arrays: set<array<Block>>)
      requires ValidScan(p, s) && BlocksInMcu(s, |s|) <= C_MAX_BLOCKS_IN_MCU && sink.accepted == []
      ensures Valid() && iMcuRowNum == 0
      ensures this.p == p && this.s == s && this.dct == dct && this.sink == sink && this.wholeImage == wholeImage
      ensures this.arrays == arrays && fresh(mcuBuffer)
    {
      this.p, this.s, this.dct, this.sink, this.wholeImage := p, s, dct, sink, wholeImage;
      this.arrays := arrays;
      mcuBuffer := new Block[C_MAX_BLOCKS_IN_MCU](i => Dummy(0));
      iMcuRowNum := 0;
      new;
      StartIMcuRow();
    }

    /** start_iMCU_row */
    method StartIMcuRow()
      requires ValidScan(p, s)
      modifies this`mcuRowsPerIMcuRow, this`mcuCtr, this`mcuVertOffset
      ensures mcuRowsPerIMcuRow == McuRows(p, s, iMcuRowNum) > 0 && mcuCtr == 0 && mcuVertOffset == 0
    {
      if |s| > 1 {
        mcuRowsPerIMcuRow := 1;
      } else {
        if iMcuRowNum < TotalRows(p) - 1 {
          mcuRowsPerIMcuRow := s[0].v;
        } else {
          mcuRowsPerIMcuRow := LastRowHeight(p, s[0]);
        }
      }
      mcuCtr := 0;
      mcuVertOffset := 0;
    }

    /** Real blocks, and dummy blocks to their right. */
    method PutRow(c: Component, a: array<Block>, at: nat, ghost y: nat, ypos: nat, ghost row: nat, ghost x: nat, xpos: nat,
      blockcnt: nat, ndummy: nat)
      requires ValidPicture(p) && c.h > 0 && c.v > 0 && at + blockcnt + ndummy <= a.Length && blockcnt > 0
      requires y < c.v && row == iMcuRowNum * c.v + y && ypos == y * c.dctV && xpos == x * c.dctH
      requires row < HeightInBlocks(p, c) && x + blockcnt <= WidthInBlocks(p, c)
      requires ndummy > 0 ==> x + blockcnt == WidthInBlocks(p, c)
      modifies a
      ensures a[..at + blockcnt + ndummy] == old(a[..at]) + RowOf(p, dct, c, row, x, blockcnt + ndummy)
    {
      RealBlocks(p, dct, c, iMcuRowNum, y, x, blockcnt);
      RightBlocks(p, dct, c, row, x, blockcnt, ndummy);
      hide Padded, WidthInBlocks, HeightInBlocks, Transformed, Dummies, RowOf, ValidPicture;
      ForwardDct(dct, c, iMcuRowNum, a, at, ypos, xpos, blockcnt);
      assert a[at + blockcnt - 1] == a[..at + blockcnt][at + blockcnt - 1];
      PutDummies(a, at + blockcnt, a[at + blockcnt - 1][0], ndummy);
    }

    /** One row of blocks of an MCU: real blocks and dummy blocks to their right, or dummy blocks only. */
    method FillRow(c: Component, yoffset: nat, yindex: nat, col: nat, b: nat, ypos: nat, ghost row: nat, ghost x: nat)
      requires Counters() && c in s && iMcuRowNum < TotalRows(p) && col < McusPerRow(p, s) && c.h > 0 && c.v > 0
      requires yoffset < mcuRowsPerIMcuRow && (|s| == 1 ==> c == s[0]) && yindex < McuHeight(s, c)
      requires b + McuWidth(s, c) <= mcuBuffer.Length && ypos == SampleRow(c, yoffset + yindex)
      requires row == BlockRowsIn(c, iMcuRowNum) + (yoffset + yindex) && x == col * McuWidth(s, c)
      requires yindex > 0 ==> (b > 0 && mcuBuffer[b - 1] == Padded(p, dct, c, row - 1, x + McuWidth(s, c) - 1))
      modifies mcuBuffer
      ensures mcuBuffer[..b + McuWidth(s, c)] == old(mcuBuffer[..b]) + RowOf(p, dct, c, row, x, McuWidth(s, c))
    {
      hide Padded, HeightInBlocks, WidthInBlocks, Before, BlocksInMcu, Transformed, Dummies, RowOf;
      Columns(p, s, c, col);
      Rows(p, s, c, iMcuRowNum);
      var w := McuWidth(s, c);
      var blockcnt := if col < McusPerRow(p, s) - 1 then w else LastColWidth(p, s, c);
      var xpos := col * (w * c.dctH);
      MulAssoc(col, w, c.dctH);
      assert x + blockcnt <= WidthInBlocks(p, c) && (blockcnt < w ==> x + blockcnt == WidthInBlocks(p, c));
      hide McusPerRow, LastColWidth, Blockcnt;
      if iMcuRowNum < TotalRows(p) - 1 || yoffset + yindex < LastRowHeight(p, c) {
        hide LastRowHeight, TotalRows, McuRows;
        PutRow(c, mcuBuffer, b, yoffset + yindex, ypos, row, x, xpos, blockcnt, w - blockcnt);
      } else {
        BelowBlocks(p, dct, c, row, col);
        PutDummies(mcuBuffer, b, mcuBuffer[b - 1][0], w);
      }
    }

    /** All rows of blocks of one component of an MCU. */
    method FillComponent(c: Component, yoffset: nat, col: nat, blkn: nat)
      requires Counters() && c in s && iMcuRowNum < TotalRows(p) && col < McusPerRow(p, s)
      requires yoffset < mcuRowsPerIMcuRow && (|s| == 1 ==> c == s[0])
      requires blkn + McuHeight(s, c) * McuWidth(s, c) <= mcuBuffer.Length
      modifies mcuBuffer
      ensures c.h > 0 && c.v > 0
      ensures var rows := RowsOf(p, dct, s, c, iMcuRowNum * c.v + yoffset, col * McuWidth(s, c), McuHeight(s, c));
        mcuBuffer[..blkn + McuHeight(s, c) * McuWidth(s, c)] == old(mcuBuffer[..blkn]) + rows
    {
      hide RowsOf, TotalRows, McusPerRow, McuRows, BlocksInMcu;
      assert c in p.comps;
      FillRows(c, yoffset, col, blkn, iMcuRowNum * c.v + yoffset, col * McuWidth(s, c));
    }

    method FillRows(c: Component, yoffset: nat, col: nat, blkn: nat, ghost row: nat, ghost x: nat)
      requires Counters() && c in s && iMcuRowNum < TotalRows(p) && col < McusPerRow(p, s) && c.h > 0 && c.v > 0
      requires yoffset < mcuRowsPerIMcuRow && (|s| == 1 ==> c == s[0])
      requires blkn + McuHeight(s, c) * McuWidth(s, c) <= mcuBuffer.Length
      requires ValidPicture(p) && row == BlockRowsIn(c, iMcuRowNum) + yoffset && x == col * McuWidth(s, c)
      modifies mcuBuffer
      ensures mcuBuffer[..blkn + McuHeight(s, c) * McuWidth(s, c)]
           == old(mcuBuffer[..blkn]) + RowsOf(p, dct, s, c, row, x, McuHeight(s, c))
    {
      hide Padded, RowOf, RowsOf, TotalRows, McusPerRow, McuRows, BlocksInMcu, ValidScan, ValidPicture, BlockRowsIn,
        SampleRow, Counters;
      var ypos := SampleRow(c, yoffset);
      var b := blkn;
      ghost var before := mcuBuffer[..blkn];
      NoRows(p, dct, s, c, row, x);
      for yindex := 0 to McuHeight(s, c)
        invariant b == blkn + |RowsOf(p, dct, s, c, row, x, yindex)| <= mcuBuffer.Length
        invariant ypos == SampleRow(c, yoffset + yindex)
        invariant mcuBuffer[..b] == before + RowsOf(p, dct, s, c, row, x, yindex)
      {
        NextSampleRow(c, yoffset + yindex);
        b := FillNextRow(c, yoffset, yindex, col, b, ypos, row, x, before);
        ypos := ypos + c.dctV;
      }
    }

    /** One more row of blocks behind those there are. */
    method FillNextRow(c: Component, yoffset: nat, yindex: nat, col: nat, b: nat, ypos: nat, ghost row: nat, ghost x: nat,
        ghost before: seq<Block>) returns (b': nat)
      requires Counters() && c in s && iMcuRowNum < TotalRows(p) && col < McusPerRow(p, s) && c.h > 0 && c.v > 0
      requires yoffset < mcuRowsPerIMcuRow && (|s| == 1 ==> c == s[0]) && yindex < McuHeight(s, c)
      requires |before| + McuHeight(s, c) * McuWidth(s, c) <= mcuBuffer.Length
      requires ValidPicture(p) && row == BlockRowsIn(c, iMcuRowNum) + yoffset && x == col * McuWidth(s, c)
      requires b == |before| + |RowsOf(p, dct, s, c, row, x, yindex)| <= mcuBuffer.Length
      requires ypos == SampleRow(c, yoffset + yindex) && mcuBuffer[..b] == before + RowsOf(p, dct, s, c, row, x, yindex)
      modifies mcuBuffer
      ensures b' == |before| + |RowsOf(p, dct, s, c, row, x, yindex + 1)| <= mcuBuffer.Length
      ensures mcuBuffer[..b'] == before + RowsOf(p, dct, s, c, row, x, yindex + 1)
    {
      hide Padded, RowOf, TotalRows, McusPerRow, McuRows, BlocksInMcu, ValidScan, ValidPicture, BlockRowsIn, SampleRow,
        Counters;
      RowsFit(p, dct, s, c, row, x, yindex);
      if yindex > 0 {
        LastOfRows(p, dct, s, c, row, x, yindex);
        assert mcuBuffer[b - 1] == mcuBuffer[..b][b - 1];
      }
      FillRow(c, yoffset, yindex, col, b, ypos, row + yindex, x);
      return b + McuWidth(s, c);
    }

    /** Gets the blocks of an MCU by the transform. */
    method FillMcu(yoffset: nat, col: nat)
      requires Counters() && iMcuRowNum < TotalRows(p) && yoffset < mcuRowsPerIMcuRow && col < McusPerRow(p, s)
      modifies mcuBuffer
      ensures mcuBuffer[..BlocksInMcu(s, |s|)] == TheMcu(p, dct, s, iMcuRowNum, yoffset, col)
    {
      hide Padded, RowsOf, TotalRows, McusPerRow;
      BlocksMonotone(s, 0);
      var blkn := 0;
      for ci := 0 to |s|
        invariant blkn == BlocksInMcu(s, ci) <= BlocksInMcu(s, |s|)
        invariant mcuBuffer[..blkn] == McuOf(p, dct, s, iMcuRowNum, yoffset, col, ci)
      {
        BlocksMonotone(s, ci + 1);
        FillComponent(s[ci], yoffset, col, blkn);
        blkn := blkn + McuHeight(s, s[ci]) * McuWidth(s, s[ci]);
      }
    }

    /** compress_data: the single-pass case. One iMCU row, or what the entropy coder takes of it. */
    method CompressData() returns (done: bool)
      requires Valid() && iMcuRowNum < TotalRows(p)
      modifies this`iMcuRowNum, this`mcuCtr, this`mcuVertOffset, this`mcuRowsPerIMcuRow, mcuBuffer, sink
      ensures Valid()
      ensures done ==> iMcuRowNum == old(iMcuRowNum) + 1 && mcuVertOffset == 0 && mcuCtr == 0
      ensures !done ==> iMcuRowNum == old(iMcuRowNum) && mcuVertOffset < mcuRowsPerIMcuRow && mcuCtr < McusPerRow(p, s)
      ensures !done ==> sink.attempts > 0 && !sink.accepts(sink.attempts - 1)
      ensures sink.attempts - old(sink.attempts) == |sink.accepted| - |old(sink.accepted)| + if done then 0 else 1
    {
      hide TheMcu, Before, McuRows, BlocksInMcu;
      McuSize(p, dct, s, 0, 0, 0, |s|);
      for yoffset := mcuVertOffset to mcuRowsPerIMcuRow
        invariant Counters() && mcuRowsPerIMcuRow == old(mcuRowsPerIMcuRow) && iMcuRowNum == old(iMcuRowNum)
        invariant sink.accepted == Before(p, dct, s, iMcuRowNum, yoffset, mcuCtr)
        invariant yoffset > old(mcuVertOffset) ==> mcuCtr == 0
        invariant sink.attempts - old(sink.attempts) == |sink.accepted| - |old(sink.accepted)|
      {
        for col := mcuCtr to McusPerRow(p, s)
          invariant Counters() && mcuRowsPerIMcuRow == old(mcuRowsPerIMcuRow) && iMcuRowNum == old(iMcuRowNum)
          invariant sink.accepted == Before(p, dct, s, iMcuRowNum, yoffset, col)
          invariant sink.attempts - old(sink.attempts) == |sink.accepted| - |old(sink.accepted)|
        {
          NextMcu(p, dct, s, iMcuRowNum, yoffset, col);
          FillMcu(yoffset, col);
          var ok := sink.EncodeMcu(mcuBuffer[..BlocksInMcu(s, |s|)]);
          if !ok {
            mcuVertOffset := yoffset;
            mcuCtr := col;
            return false;
          }
        }
        NextRow(p, dct, s, iMcuRowNum, yoffset);
        mcuCtr := 0;
      }
      NextRow(p, dct, s, iMcuRowNum, mcuRowsPerIMcuRow);
      iMcuRowNum := iMcuRowNum + 1;
      StartIMcuRow();
      return true;
    }

    // ---- Multi-pass modes ----

    /** A row of blocks of the picture: real blocks, then dummy blocks at the right edge. */
    method LoadRow(c: Component, a: array<Block>, blockRow: nat, ghost row: nat)
      requires ValidPicture(p) && c in p.comps && blockRow < c.v && row == iMcuRowNum * c.v + blockRow
      requires row < HeightInBlocks(p, c) && a.Length == PaddedWidth(p, c)
      modifies a
      ensures a[..] == RowOf(p, dct, c, row, 0, a.Length)
    {
      var blocksAcross := WidthInBlocks(p, c);
      var ndummy := blocksAcross % c.h;
      if ndummy > 0 {
        ndummy := c.h - ndummy;
      }
      PaddedWidthIs(p, c);
      assert blocksAcross + ndummy == a.Length;
      hide PaddedWidth, LastGroup, Padded, WidthInBlocks, HeightInBlocks, RowOf;
      PutRow(c, a, 0, blockRow, blockRow * c.dctV, row, 0, 0, blocksAcross, ndummy);
      assert a[..] == a[..a.Length];
    }

    /** A row of dummy blocks below the picture, MCU by MCU. */
    method LoadDummyRow(c: Component, a: array<Block>, above: array<Block>, ghost row: nat)
      requires ValidPicture(p) && c in p.comps && 0 < row && HeightInBlocks(p, c) <= row && a != above
      requires a.Length == above.Length == PaddedWidth(p, c)
      requires above[..] == RowOf(p, dct, c, row - 1, 0, above.Length)
      modifies a
      ensures a[..] == RowOf(p, dct, c, row, 0, a.Length)
    {
      hide Padded, WidthInBlocks, HeightInBlocks, Dummies, RowOf;
      var mcusAcross := DivUp(WidthInBlocks(p, c), c.h);
      var at := 0;
      for mcu := 0 to mcusAcross
        invariant at == mcu * c.h && at <= a.Length
        invariant a[..at] == RowOf(p, dct, c, row, 0, at)
      {
        MulMono(mcu + 1, mcusAcross, c.h);
        MulDistributes(mcu, 1, c.h);
        assert above[at + c.h - 1] == above[..][at + c.h - 1];
        BelowBlocks(p, dct, c, row, mcu);
        RowSplit(p, dct, c, row, at, c.h);
        PutDummies(a, at, above[at + c.h - 1][0], c.h);
        at := at + c.h;
      }
      assert a[..] == a[..at];
    }

    /** The iMCU row of one component, dummy rows at the bottom of the picture included. */
    method LoadComponent(c: Component, buffer: BlockRows, ghost first: nat)
      requires ValidPicture(p) && c in p.comps && iMcuRowNum < TotalRows(p) && first == iMcuRowNum * c.v
      requires Rectangle(buffer, c.v, PaddedWidth(p, c))
      modifies buffer
      ensures Hold(p, dct, c, buffer, first, c.v)
    {
      hide PaddedWidth, WidthInBlocks, TotalRows, RowOf, Padded;
      Rows(p, p.comps, c, iMcuRowNum);
      var blockRows;
      if iMcuRowNum < TotalRows(p) - 1 {
        blockRows := c.v;
      } else {
        blockRows := HeightInBlocks(p, c) % c.v;
        if blockRows == 0 {
          blockRows := c.v;
        }
      }
      assert first + blockRows <= HeightInBlocks(p, c);
      assert iMcuRowNum == TotalRows(p) - 1 ==> first + blockRows == HeightInBlocks(p, c);
      hide HeightInBlocks, LastRowHeight;
      for blockRow := 0 to blockRows
        invariant Hold(p, dct, c, buffer, first, blockRow)
      {
        LoadRow(c, buffer[blockRow], blockRow, first + blockRow);
      }
      if iMcuRowNum == TotalRows(p) - 1 {
        for blockRow := blockRows to c.v
          invariant Hold(p, dct, c, buffer, first, blockRow)
        {
          LoadDummyRow(c, buffer[blockRow], buffer[blockRow - 1], first + blockRow);
        }
      }
    }

    /** compress_first_pass: transforms an iMCU row of the whole picture, and emits it as the scan wants it. */
    method CompressFirstPass() returns (done: bool)
      requires Valid() && iMcuRowNum < TotalRows(p) && mcuBuffer !in arrays
      requires Allotted(p, wholeImage, arrays) && Loaded(p, dct, wholeImage, arrays, iMcuRowNum)
      modifies this`iMcuRowNum, this`mcuCtr, this`mcuVertOffset, this`mcuRowsPerIMcuRow, mcuBuffer, sink
      modifies arrays
      ensures Valid() && Loaded(p, dct, wholeImage, arrays, old(iMcuRowNum) + 1)
      ensures Loaded(p, dct, wholeImage, arrays, iMcuRowNum)
      ensures done ==> iMcuRowNum == old(iMcuRowNum) + 1 && mcuVertOffset == 0 && mcuCtr == 0
      ensures !done ==> iMcuRowNum == old(iMcuRowNum) && mcuVertOffset < mcuRowsPerIMcuRow && mcuCtr < McusPerRow(p, s)
      ensures !done ==> sink.attempts > 0 && !sink.accepts(sink.attempts - 1)
      ensures sink.attempts - old(sink.attempts) == |sink.accepted| - |old(sink.accepted)| + if done then 0 else 1
    {
      LoadIMcuRow();
      LoadedFewer(iMcuRowNum);
      done := CompressOutput();
    }

    lemma LoadedFewer(rows: nat)
      requires Allotted(p, wholeImage, arrays) && Loaded(p, dct, wholeImage, arrays, rows + 1)
      ensures Loaded(p, dct, wholeImage, arrays, rows)
    {
      hide TotalRows, PaddedWidth, RowOf, Rectangle, Apart;
      forall i | 0 <= i < |wholeImage| ensures BlockRowsIn(p.comps[i], rows) <= BlockRowsIn(p.comps[i], rows + 1) {
        MulDistributes(rows, 1, p.comps[i].v);
      }
    }

    /** Loads the current iMCU row of all components of the picture. */
    method LoadIMcuRow()
      requires Allotted(p, wholeImage, arrays) && iMcuRowNum < TotalRows(p)
      requires Loaded(p, dct, wholeImage, arrays, iMcuRowNum)
      modifies arrays
      ensures Loaded(p, dct, wholeImage, arrays, iMcuRowNum + 1)
    {
      hide TotalRows, PaddedWidth, RowOf, Padded, Rectangle, Apart, BlockRowsIn;
      var n := iMcuRowNum;
      for ci := 0 to |p.comps|
        invariant forall i :: 0 <= i < ci ==> Hold(p, dct, p.comps[i], wholeImage[i], 0, BlockRowsIn(p.comps[i], n + 1))
        invariant forall i :: ci <= i < |p.comps| ==> Hold(p, dct, p.comps[i], wholeImage[i], 0, BlockRowsIn(p.comps[i], n))
      {
        LoadApart(ci);
      }
    }

    /** compress_output: emits an iMCU row from the arrays, or what the entropy coder takes of it. */
    method CompressOutput() returns (done: bool)
      requires Valid() && iMcuRowNum < TotalRows(p) && mcuBuffer !in arrays
      requires Allotted(p, wholeImage, arrays) && Loaded(p, dct, wholeImage, arrays, iMcuRowNum + 1)
      modifies this`iMcuRowNum, this`mcuCtr, this`mcuVertOffset, this`mcuRowsPerIMcuRow, mcuBuffer, sink
      ensures Valid()
      ensures done ==> iMcuRowNum == old(iMcuRowNum) + 1 && mcuVertOffset == 0 && mcuCtr == 0
      ensures !done ==> iMcuRowNum == old(iMcuRowNum) && mcuVertOffset < mcuRowsPerIMcuRow && mcuCtr < McusPerRow(p, s)
      ensures !done ==> sink.attempts > 0 && !sink.accepts(sink.attempts - 1)
      ensures sink.attempts - old(sink.attempts) == |sink.accepted| - |old(sink.accepted)| + if done then 0 else 1
    {
      hide TheMcu, Before, McuRows, BlocksInMcu, Allotted, Loaded;
      McuSize(p, dct, s, 0, 0, 0, |s|);
      for yoffset := mcuVertOffset to mcuRowsPerIMcuRow
        invariant Counters() && mcuRowsPerIMcuRow == old(mcuRowsPerIMcuRow) && iMcuRowNum == old(iMcuRowNum)
        invariant sink.accepted == Before(p, dct, s, iMcuRowNum, yoffset, mcuCtr)
        invariant yoffset > old(mcuVertOffset) ==> mcuCtr == 0
        invariant sink.attempts - old(sink.attempts) == |sink.accepted| - |old(sink.accepted)|
      {
        for col := mcuCtr to McusPerRow(p, s)
          invariant Counters() && mcuRowsPerIMcuRow == old(mcuRowsPerIMcuRow) && iMcuRowNum == old(iMcuRowNum)
          invariant sink.accepted == Before(p, dct, s, iMcuRowNum, yoffset, col)
          invariant sink.attempts - old(sink.attempts) == |sink.accepted| - |old(sink.accepted)|
        {
          NextMcu(p, dct, s, iMcuRowNum, yoffset, col);
          PickMcu(yoffset, col);
          var ok := sink.EncodeMcu(mcuBuffer[..BlocksInMcu(s, |s|)]);
          if !ok {
            mcuVertOffset := yoffset;
            mcuCtr := col;
            return false;
          }
        }
        NextRow(p, dct, s, iMcuRowNum, yoffset);
        mcuCtr := 0;
      }
      NextRow(p, dct, s, iMcuRowNum, mcuRowsPerIMcuRow);
      iMcuRowNum := iMcuRowNum + 1;
      StartIMcuRow();
      return true;
    }

    method LoadApart(ci: nat)
      requires Allotted(p, wholeImage, arrays) && ci < |p.comps| && iMcuRowNum < TotalRows(p)
      requires Hold(p, dct, p.comps[ci], wholeImage[ci], 0, BlockRowsIn(p.comps[ci], iMcuRowNum))
      modifies wholeImage[ci]
      ensures Hold(p, dct, p.comps[ci], wholeImage[ci], 0, BlockRowsIn(p.comps[ci], iMcuRowNum + 1))
      ensures forall i, r :: 0 <= i < |p.comps| && i != ci && 0 <= r < |wholeImage[i]| ==>
        wholeImage[i][r][..] == old(wholeImage[i][r][..])
    {
      hide TotalRows, PaddedWidth, Hold, Rectangle, BlockRowsIn;
      assert forall i, r :: 0 <= i < |p.comps| && i != ci && 0 <= r < |wholeImage[i]| ==>
        Apart(wholeImage[i], wholeImage[ci]) && wholeImage[i][r] in wholeImage[i];
      LoadStrip(p.comps[ci], wholeImage[ci]);
    }

    /** access_virt_barray and the loading of one component. */
    method LoadStrip(c: Component, a: BlockRows)
      requires ValidPicture(p) && c in p.comps && iMcuRowNum < TotalRows(p)
      requires Rectangle(a, TotalRows(p) * c.v, PaddedWidth(p, c)) && Hold(p, dct, c, a, 0, BlockRowsIn(c, iMcuRowNum))
      modifies a
      ensures Hold(p, dct, c, a, 0, BlockRowsIn(c, iMcuRowNum + 1))
    {
      hide TotalRows, PaddedWidth, RowOf;
      ghost var first := iMcuRowNum * c.v;
      MulMono(iMcuRowNum + 1, TotalRows(p), c.v);
      MulDistributes(iMcuRowNum, 1, c.v);
      var buffer := a[iMcuRowNum * c.v..iMcuRowNum * c.v + c.v];
      assert forall i :: 0 <= i < c.v ==> buffer[i] == a[first + i];
      assert forall i :: 0 <= i < first ==> a[i] !in buffer;
      LoadComponent(c, buffer, first);
      assert forall i :: first <= i < first + c.v ==> a[i] == buffer[i - first];
    }

    /** The rows of blocks of one component of an MCU. */
    method PickRows(c: Component, a: BlockRows, top: nat, startCol: nat, blkn: nat)
      requires ValidPicture(p) && c.h > 0 && c.v > 0 && mcuBuffer !in a && top + McuHeight(s, c) <= |a|
      requires blkn + McuHeight(s, c) * McuWidth(s, c) <= mcuBuffer.Length
      requires forall i :: 0 <= i < |a| ==> startCol + McuWidth(s, c) <= a[i].Length
      requires Hold(p, dct, c, a, 0, top + McuHeight(s, c))
      modifies mcuBuffer
      ensures mcuBuffer[..blkn + McuHeight(s, c) * McuWidth(s, c)]
           == old(mcuBuffer[..blkn]) + RowsOf(p, dct, s, c, top, startCol, McuHeight(s, c))
    {
      hide Padded, RowOf, ValidPicture;
      var w := McuWidth(s, c);
      var b := blkn;
      for yindex := 0 to McuHeight(s, c)
        invariant b == blkn + |RowsOf(p, dct, s, c, top, startCol, yindex)| <= mcuBuffer.Length
        invariant mcuBuffer[..b] == old(mcuBuffer[..blkn]) + RowsOf(p, dct, s, c, top, startCol, yindex)
        invariant Hold(p, dct, c, a, 0, top + McuHeight(s, c))
      {
        RowsFit(p, dct, s, c, top, startCol, yindex);
        PickRow(c, a[top + yindex], top + yindex, startCol, b);
        b := b + w;
      }
    }

    method PickRow(c: Component, from: array<Block>, ghost row: nat, x: nat, b: nat)
      requires ValidPicture(p) && c.h > 0 && c.v > 0 && from != mcuBuffer && x + McuWidth(s, c) <= from.Length
      requires from[..] == RowOf(p, dct, c, row, 0, from.Length) && b + McuWidth(s, c) <= mcuBuffer.Length
      modifies mcuBuffer
      ensures mcuBuffer[..b + McuWidth(s, c)] == old(mcuBuffer[..b]) + RowOf(p, dct, c, row, x, McuWidth(s, c))
    {
      hide RowOf, Padded;
      var w := McuWidth(s, c);
      RowPart(p, dct, c, row, x, w, from.Length);
      assert from[x..x + w] == from[..][x..x + w];
      CopyBlocks(from, x, mcuBuffer, b, w);
    }

    lemma ArrayOf(c: Component)
      requires Allotted(p, wholeImage, arrays) && Loaded(p, dct, wholeImage, arrays, iMcuRowNum + 1) && c in p.comps
      requires mcuBuffer !in arrays
      ensures c.index < |wholeImage|
      ensures var a := wholeImage[c.index];
        |a| == TotalRows(p) * c.v && mcuBuffer !in a && (forall i :: 0 <= i < |a| ==> a[i].Length == PaddedWidth(p, c))
        && Hold(p, dct, c, a, 0, BlockRowsIn(c, iMcuRowNum + 1))
    {
      hide TotalRows, PaddedWidth, Hold, BlockRowsIn;
    }

    /** The rows of an MCU are loaded, and as wide as it needs. */
    lemma McuLoaded(c: Component, yoffset: nat, col: nat, top: nat)
      requires Counters() && c in s && iMcuRowNum < TotalRows(p) && col < McusPerRow(p, s) && yoffset < mcuRowsPerIMcuRow
      requires (|s| == 1 ==> c == s[0]) && top == iMcuRowNum * c.v + yoffset && mcuBuffer !in arrays
      requires Allotted(p, wholeImage, arrays) && Loaded(p, dct, wholeImage, arrays, iMcuRowNum + 1)
      ensures c in p.comps && c.index < |wholeImage| && ValidPicture(p) && c.h > 0 && c.v > 0
      ensures var a := wholeImage[c.index];
        mcuBuffer !in a && top + McuHeight(s, c) <= |a| && Hold(p, dct, c, a, 0, top + McuHeight(s, c))
        && forall i :: 0 <= i < |a| ==> col * McuWidth(s, c) + McuWidth(s, c) <= a[i].Length
    {
      InArray(p, s, c, iMcuRowNum, yoffset, McuHeight(s, c) - 1, col);
      ArrayOf(c);
      assert top + McuHeight(s, c) <= BlockRowsIn(c, iMcuRowNum + 1) <= |wholeImage[c.index]|;
      hide TotalRows, PaddedWidth, McusPerRow, McuRows, BlocksInMcu, RowOf, Allotted, Loaded, BlockRowsIn;
    }

    method PickComponent(c: Component, yoffset: nat, col: nat, blkn: nat)
      requires Counters() && c in s && iMcuRowNum < TotalRows(p) && col < McusPerRow(p, s) && yoffset < mcuRowsPerIMcuRow
      requires (|s| == 1 ==> c == s[0]) && blkn + McuHeight(s, c) * McuWidth(s, c) <= mcuBuffer.Length
      requires Allotted(p, wholeImage, arrays) && Loaded(p, dct, wholeImage, arrays, iMcuRowNum + 1)
      requires mcuBuffer !in arrays
      modifies mcuBuffer
      ensures c.h > 0 && c.v > 0
      ensures var rows := RowsOf(p, dct, s, c, iMcuRowNum * c.v + yoffset, col * McuWidth(s, c), McuHeight(s, c));
        mcuBuffer[..blkn + McuHeight(s, c) * McuWidth(s, c)] == old(mcuBuffer[..blkn]) + rows
    {
      hide TotalRows, PaddedWidth, McusPerRow, McuRows, BlocksInMcu, RowsOf, RowOf, Padded, Allotted, Loaded, Hold, Counters,
        ValidScan, ValidPicture;
      var top, x := iMcuRowNum * c.v + yoffset, col * McuWidth(s, c);
      McuLoaded(c, yoffset, col, top);
      PickRows(c, wholeImage[c.index], top, x, blkn);
    }

    /** Lists the blocks of an MCU. */
    method PickMcu(yoffset: nat, col: nat)
      requires Counters() && iMcuRowNum < TotalRows(p) && yoffset < mcuRowsPerIMcuRow && col < McusPerRow(p, s)
      requires mcuBuffer !in arrays
      requires Allotted(p, wholeImage, arrays) && Loaded(p, dct, wholeImage, arrays, iMcuRowNum + 1)
      modifies mcuBuffer
      ensures mcuBuffer[..BlocksInMcu(s, |s|)] == TheMcu(p, dct, s, iMcuRowNum, yoffset, col)
    {
      hide Padded, RowsOf, TotalRows, McusPerRow, Allotted, Loaded;
      BlocksMonotone(s, 0);
      var blkn := 0;
      for ci := 0 to |s|
        invariant blkn == BlocksInMcu(s, ci) <= BlocksInMcu(s, |s|)
        invariant mcuBuffer[..blkn] == McuOf(p, dct, s, iMcuRowNum, yoffset, col, ci)
      {
        BlocksMonotone(s, ci + 1);
        PickComponent(s[ci], yoffset, col, blkn);
        blkn := blkn + McuHeight(s, s[ci]) * McuWidth(s, s[ci]);
      }
    }
  }
}
