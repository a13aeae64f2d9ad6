/** The order of the MCUs in a scan (section A.2 of ITU-T T.81): where each MCU stands in the sequence handed to
    the entropy coder, and where each block of the picture stands in its MCU. */
module McuOrder {
  import opened Numbers
  import opened McuGeometry
  import opened CoefController

  function AllMcus(p: Picture, dct: Dct, s: Scan): seq<Mcu>
    requires ValidScan(p, s)
  {
    Before(p, dct, s, TotalRows(p), 0, 0)
  }

  /** A place of the scan: of an MCU, or past the last MCU of an MCU row or of the scan. */
  ghost predicate IsPlace(p: Picture, s: Scan, row: nat, y: nat, col: nat)
    requires ValidScan(p, s)
  {
    if row < TotalRows(p) then y < McuRows(p, s, row) && col <= McusPerRow(p, s)
    else row == TotalRows(p) && y == 0 && col == 0
  }

  /** Whatever is accepted when the controller stands at a place is the beginning of the whole sequence. */
  lemma {:induction false} BeforeIsPrefix(p: Picture, dct: Dct, s: Scan, row: nat, y: nat, col: nat)
    requires ValidScan(p, s) && IsPlace(p, s, row, y, col)
    ensures Before(p, dct, s, row, y, col) <= AllMcus(p, dct, s)
    decreases TotalRows(p) - row, if row < TotalRows(p) then McuRows(p, s, row) - y else 0, McusPerRow(p, s) - col
  {
    hide TheMcu, Before, TotalRows, McusPerRow;
    if row < TotalRows(p) {
      if col < McusPerRow(p, s) {
        BeforeIsPrefix(p, dct, s, row, y, col + 1);
        NextMcu(p, dct, s, row, y, col);
      } else {
        NextRow(p, dct, s, row, y);
        if y + 1 < McuRows(p, s, row) {
          BeforeIsPrefix(p, dct, s, row, y + 1, 0);
        } else {
          NextRow(p, dct, s, row, y + 1);
          RowsThere(p, s, row + 1);
          BeforeIsPrefix(p, dct, s, row + 1, 0, 0);
        }
      }
    }
  }

  /** Two controllers of the same scan, in whatever modes and however often they were suspended: what one has handed to
      its entropy coder begins with what the other has, or the other way round, and when both are at the end both have
      handed over all MCUs. */
  lemma SameMcus(a: CoefController, b: CoefController)
    requires a.Valid() && b.Valid() && a.p == b.p && a.s == b.s && a.dct == b.dct
    ensures a.sink.accepted <= AllMcus(a.p, a.dct, a.s) && b.sink.accepted <= AllMcus(a.p, a.dct, a.s)
    ensures a.sink.accepted <= b.sink.accepted || b.sink.accepted <= a.sink.accepted
    ensures a.iMcuRowNum == TotalRows(a.p) ==> a.sink.accepted == AllMcus(a.p, a.dct, a.s)
  {
    hide Before, TotalRows, McusPerRow, McuRows;
    BeforeIsPrefix(a.p, a.dct, a.s, a.iMcuRowNum, a.mcuVertOffset, a.mcuCtr);
    BeforeIsPrefix(b.p, b.dct, b.s, b.iMcuRowNum, b.mcuVertOffset, b.mcuCtr);
    PrefixesCompare(a.sink.accepted, b.sink.accepted, AllMcus(a.p, a.dct, a.s));
  }

  lemma PrefixesCompare(a: seq<Mcu>, b: seq<Mcu>, all: seq<Mcu>)
    requires a <= all && b <= all
    ensures a <= b || b <= a
  {
    assert a == all[..|a|] && b == all[..|b|];
    if |a| <= |b| {
      assert b[..|a|] == all[..|a|];
    } else {
      assert a[..|b|] == all[..|b|];
    }
  }

  lemma RowsThere(p: Picture, s: Scan, row: nat)
    requires ValidScan(p, s)
    ensures McuRows(p, s, row) > 0
  {
    assert s[0] in p.comps;
  }

  /** The MCU rows before an iMCU row. */
  function McuRowsBefore(s: Scan, row: nat): nat
    requires |s| > 0
  {
    if |s| > 1 then row else row * s[0].v
  }

  /** MCU_rows_in_scan */
  function McuRowsInScan(p: Picture, s: Scan): nat
    requires ValidScan(p, s)
  {
    if |s| == 1 then HeightInBlocks(p, s[0]) else TotalRows(p)
  }

  /** The number of an MCU in its scan. */
  function McuIndex(p: Picture, s: Scan, row: nat, y: nat, col: nat): nat
    requires ValidScan(p, s)
  {
    (McuRowsBefore(s, row) + y) * McusPerRow(p, s) + col
  }

  lemma {:induction false} CountBefore(p: Picture, dct: Dct, s: Scan, row: nat, y: nat, col: nat)
    requires ValidScan(p, s) && IsPlace(p, s, row, y, col) && row < TotalRows(p)
    ensures |Before(p, dct, s, row, y, col)| == McuIndex(p, s, row, y, col)
    decreases row, y, col
  {
    hide TheMcu, TotalRows, McusPerRow, Before;
    var w := McusPerRow(p, s);
    if col > 0 {
      NextMcu(p, dct, s, row, y, col - 1);
      CountBefore(p, dct, s, row, y, col - 1);
    } else if y > 0 {
      NextRow(p, dct, s, row, y - 1);
      CountBefore(p, dct, s, row, y - 1, w);
      MulDistributes(McuRowsBefore(s, row) + y - 1, 1, w);
    } else if row > 0 {
      var n := McuRows(p, s, row - 1);
      RowsThere(p, s, row - 1);
      NextRow(p, dct, s, row - 1, n);
      NextRow(p, dct, s, row - 1, n - 1);
      CountBefore(p, dct, s, row - 1, n - 1, w);
      MulDistributes(row - 1, 1, s[0].v);
      MulDistributes(McuRowsBefore(s, row - 1) + n - 1, 1, w);
    } else {
      assert Before(p, dct, s, 0, 0, 0) == [] by { FirstIsEmpty(p, dct, s); }
      assert McuRowsBefore(s, 0) == 0;
    }
  }

  lemma FirstIsEmpty(p: Picture, dct: Dct, s: Scan)
    requires ValidScan(p, s)
    ensures Before(p, dct, s, 0, 0, 0) == []
  {
  }

  /** The sequence has an MCU for each place, in the order of the rows: left to right, top to bottom. */
  lemma McuAt(p: Picture, dct: Dct, s: Scan, row: nat, y: nat, col: nat)
    requires ValidScan(p, s) && row < TotalRows(p) && y < McuRows(p, s, row) && col < McusPerRow(p, s)
    ensures var all, k := AllMcus(p, dct, s), McuIndex(p, s, row, y, col);
      k < |all| && all[k] == TheMcu(p, dct, s, row, y, col)
  {
    hide AllMcus, McuIndex;
    CountBefore(p, dct, s, row, y, col);
    BeforeIsPrefix(p, dct, s, row, y, col + 1);
    NextMcu(p, dct, s, row, y, col);
  }

  /** There are as many MCUs as the frame says. */
  lemma McuCount(p: Picture, dct: Dct, s: Scan)
    requires ValidScan(p, s)
    ensures |AllMcus(p, dct, s)| == McuRowsInScan(p, s) * McusPerRow(p, s)
  {
    var last := TotalRows(p) - 1;
    GroupsOfBlocks(p.height, 1, p.maxV * p.blockSize);
    Rows(p, s, s[0], 0) by { DivUpBounds(p.height, p.maxV * p.blockSize); }
    var n := McuRows(p, s, last);
    RowsThere(p, s, last);
    NextRow(p, dct, s, last, n);
    NextRow(p, dct, s, last, n - 1);
    CountBefore(p, dct, s, last, n - 1, McusPerRow(p, s));
    Rows(p, s, s[0], last);
    MulDistributes(McuRowsBefore(s, last) + n - 1, 1, McusPerRow(p, s));
  }

  // ---- Where the blocks are ----

  lemma {:induction false} BlockInRows(p: Picture, dct: Dct, s: Scan, c: Component, row: nat, col: nat, n: nat, i: nat, j: nat)
    requires ValidPicture(p) && c.h > 0 && c.v > 0 && i < n && j < McuWidth(s, c)
    ensures var k := i * McuWidth(s, c) + j;
      k < |RowsOf(p, dct, s, c, row, col, n)| && RowsOf(p, dct, s, c, row, col, n)[k] == Padded(p, dct, c, row + i, col + j)
  {
    hide Padded;
    MulMono(i + 1, n, McuWidth(s, c));
    MulDistributes(i, 1, McuWidth(s, c));
    if i < n - 1 {
      BlockInRows(p, dct, s, c, row, col, n - 1, i, j);
    }
  }

  lemma {:induction false} ComponentInMcu(p: Picture, dct: Dct, s: Scan, row: nat, y: nat, col: nat, ci: nat, n: nat, k: nat)
    requires ValidScan(p, s) && ci < n <= |s| && k < McuHeight(s, s[ci]) * McuWidth(s, s[ci])
    ensures s[ci] in p.comps
    ensures var rows := RowsOf(p, dct, s, s[ci], row * s[ci].v + y, col * McuWidth(s, s[ci]), McuHeight(s, s[ci]));
      BlocksInMcu(s, ci) + k < |McuOf(p, dct, s, row, y, col, n)|
      && McuOf(p, dct, s, row, y, col, n)[BlocksInMcu(s, ci) + k] == rows[k]
    decreases n
  {
    hide RowsOf;
    assert s[ci] in p.comps;
    SizeUpTo(p, dct, s, row, y, col, n - 1);
    if ci < n - 1 {
      ComponentInMcu(p, dct, s, row, y, col, ci, n - 1, k);
    }
  }

  /** An interleaved scan: block (row, col) of a component is in the MCU of its group, at the place in the MCU
      that its place in the group gives. */
  lemma BlockInterleaved(p: Picture, dct: Dct, s: Scan, ci: nat, row: nat, col: nat, mcuRow: nat, y: nat, mcuCol: nat,
      x: nat, k: nat, b: nat)
    requires ValidScan(p, s) && ci < |s| && |s| > 1 && y < s[ci].v && x < s[ci].h
    requires row == mcuRow * s[ci].v + y && col == mcuCol * s[ci].h + x
    requires row < HeightInBlocks(p, s[ci]) && col < WidthInBlocks(p, s[ci])
    requires k == mcuRow * McusPerRow(p, s) + mcuCol && b == BlocksInMcu(s, ci) + (y * s[ci].h + x)
    ensures k < |AllMcus(p, dct, s)| && b < |AllMcus(p, dct, s)[k]|
    ensures AllMcus(p, dct, s)[k][b] == RealBlock(dct, s[ci], row, col)
  {
    var c := s[ci];
    assert c in p.comps;
    InGroups(p, c, mcuRow, y, mcuCol, x);
    RealAt(p, dct, c, row, col);
    hide TheMcu, AllMcus, RealBlock, Padded, WidthInBlocks, HeightInBlocks, TotalRows, BlocksInMcu;
    McuAt(p, dct, s, mcuRow, 0, mcuCol);
    PaddedInMcu(p, dct, s, ci, row, col, mcuRow, y, mcuCol, x, b);
  }

  lemma PaddedInMcu(p: Picture, dct: Dct, s: Scan, ci: nat, row: nat, col: nat, mcuRow: nat, y: nat, mcuCol: nat, x: nat,
      b: nat)
    requires ValidScan(p, s) && ci < |s| && |s| > 1 && y < s[ci].v && x < s[ci].h && s[ci] in p.comps
    requires row == mcuRow * s[ci].v + y && col == mcuCol * s[ci].h + x && b == BlocksInMcu(s, ci) + (y * s[ci].h + x)
    ensures b < |TheMcu(p, dct, s, mcuRow, 0, mcuCol)|
    ensures TheMcu(p, dct, s, mcuRow, 0, mcuCol)[b] == Padded(p, dct, s[ci], row, col)
  {
    hide TheMcu, RealBlock, Padded, BlocksInMcu, RowsOf;
    var c := s[ci];
    MulMono(y + 1, c.v, c.h);
    MulDistributes(y, 1, c.h);
    BlockInRows(p, dct, s, c, mcuRow * c.v, mcuCol * c.h, c.v, y, x);
    BlockOfMcu(p, dct, s, mcuRow, 0, mcuCol, ci, y * c.h + x);
  }

  /** A scan of one component: its blocks row by row, one in each MCU, and no dummy blocks. */
  lemma BlockAlone(p: Picture, dct: Dct, s: Scan, row: nat, col: nat, mcuRow: nat, y: nat, k: nat)
    requires ValidScan(p, s) && |s| == 1 && y < s[0].v && row == mcuRow * s[0].v + y
    requires row < HeightInBlocks(p, s[0]) && col < WidthInBlocks(p, s[0]) && k == row * WidthInBlocks(p, s[0]) + col
    ensures k < |AllMcus(p, dct, s)| && AllMcus(p, dct, s)[k] == [RealBlock(dct, s[0], row, col)]
  {
    var c := s[0];
    assert c in p.comps;
    GroupsOfBlocks(p.height, c.v, p.maxV * p.blockSize);
    GroupOf(HeightInBlocks(p, c), c.v, mcuRow);
    Rows(p, s, c, mcuRow);
    hide AllMcus, RealBlock, Padded, TotalRows, WidthInBlocks, HeightInBlocks, LastRowHeight;
    McuAt(p, dct, s, mcuRow, y, col);
    McuAlone(p, dct, s, mcuRow, y, col);
    RealAt(p, dct, c, row, col);
  }

  lemma McuAlone(p: Picture, dct: Dct, s: Scan, mcuRow: nat, y: nat, col: nat)
    requires ValidScan(p, s) && |s| == 1
    ensures s[0] in p.comps && TheMcu(p, dct, s, mcuRow, y, col) == [Padded(p, dct, s[0], mcuRow * s[0].v + y, col)]
  {
    hide Padded;
    var c := s[0];
    assert c in p.comps;
    assert McuOf(p, dct, s, mcuRow, y, col, 0) == [];
    assert RowsOf(p, dct, s, c, mcuRow * c.v + y, col, 0) == [];
    RowSnoc(p, dct, c, mcuRow * c.v + y, col, 0);
  }

  lemma RealAt(p: Picture, dct: Dct, c: Component, row: nat, col: nat)
    requires ValidPicture(p) && c.h > 0 && c.v > 0 && row < HeightInBlocks(p, c) && col < WidthInBlocks(p, c)
    ensures Padded(p, dct, c, row, col) == RealBlock(dct, c, row, col)
  {
  }

  lemma BlockOfMcu(p: Picture, dct: Dct, s: Scan, row: nat, y: nat, col: nat, ci: nat, k: nat)
    requires ValidScan(p, s) && ci < |s| && k < McuHeight(s, s[ci]) * McuWidth(s, s[ci])
    ensures s[ci] in p.comps
    ensures var rows := RowsOf(p, dct, s, s[ci], row * s[ci].v + y, col * McuWidth(s, s[ci]), McuHeight(s, s[ci]));
      BlocksInMcu(s, ci) + k < |TheMcu(p, dct, s, row, y, col)|
      && TheMcu(p, dct, s, row, y, col)[BlocksInMcu(s, ci) + k] == rows[k]
  {
    ComponentInMcu(p, dct, s, row, y, col, ci, |s|, k);
  }

  lemma InGroups(p: Picture, c: Component, mcuRow: nat, y: nat, mcuCol: nat, x: nat)
    requires ValidPicture(p) && c in p.comps && y < c.v && x < c.h
    requires mcuRow * c.v + y < HeightInBlocks(p, c) && mcuCol * c.h + x < WidthInBlocks(p, c)
    ensures mcuRow < TotalRows(p) && mcuCol < DivUp(p.width, p.maxH * p.blockSize)
  {
    GroupsOfBlocks(p.width, c.h, p.maxH * p.blockSize);
    GroupsOfBlocks(p.height, c.v, p.maxV * p.blockSize);
    GroupOf(HeightInBlocks(p, c), c.v, mcuRow);
    GroupOf(WidthInBlocks(p, c), c.h, mcuCol);
  }

  lemma GroupOf(n: nat, k: nat, g: nat)
    requires k > 0 && g * k < n
    ensures g < DivUp(n, k)
  {
    DivUpBounds(n, k);
    if g >= DivUp(n, k) {
      MulMono(DivUp(n, k), g, k);
      assert false;
    }
  }

  // ---- Dummy blocks ----

  /** Block b of MCU k of an interleaved scan: the block at row y, column x of its component's part of the MCU, for the
      place (row, col) of the component. */
  ghost predicate InMcu(p: Picture, s: Scan, ci: nat, row: nat, col: nat, mcuRow: nat, y: nat, mcuCol: nat, x: nat, k: nat,
      b: nat)
    requires ValidScan(p, s) && ci < |s|
  {
    && |s| > 1 && y < s[ci].v && x < s[ci].h && mcuRow < TotalRows(p) && mcuCol < McusPerRow(p, s)
    && row == mcuRow * s[ci].v + y && col == mcuCol * s[ci].h + x
    && k == mcuRow * McusPerRow(p, s) + mcuCol && b == BlocksInMcu(s, ci) + (y * s[ci].h + x)
  }

  lemma BlockIsPadded(p: Picture, dct: Dct, s: Scan, ci: nat, row: nat, col: nat, mcuRow: nat, y: nat, mcuCol: nat, x: nat,
      k: nat, b: nat)
    requires ValidScan(p, s) && ci < |s| && InMcu(p, s, ci, row, col, mcuRow, y, mcuCol, x, k, b)
    ensures s[ci] in p.comps && k < |AllMcus(p, dct, s)| && b < |AllMcus(p, dct, s)[k]|
    ensures AllMcus(p, dct, s)[k][b] == Padded(p, dct, s[ci], row, col)
  {
    hide TheMcu, AllMcus, Padded, TotalRows, McusPerRow, BlocksInMcu;
    assert s[ci] in p.comps;
    McuAt(p, dct, s, mcuRow, 0, mcuCol);
    PaddedInMcu(p, dct, s, ci, row, col, mcuRow, y, mcuCol, x, b);
  }

  lemma PaddedIs(p: Picture, dct: Dct, c: Component, row: nat, col: nat)
    requires ValidPicture(p) && c.h > 0 && c.v > 0
    requires (row >= HeightInBlocks(p, c) && row > 0) || (row < HeightInBlocks(p, c) && col >= WidthInBlocks(p, c) && col > 0)
    ensures var r := Padded(p, dct, c, row, col);
      && (forall j :: 0 < j < 64 ==> r[j] == 0)
      && r[0] == if row < HeightInBlocks(p, c) then Padded(p, dct, c, row, col - 1)[0]
                 else Padded(p, dct, c, row - 1, col / c.h * c.h + c.h - 1)[0]
  {
    hide HeightInBlocks, WidthInBlocks;
  }

  /** A block beyond the right edge of the picture is not the first of its row in the MCU. */
  lemma LeftInMcu(p: Picture, s: Scan, ci: nat, row: nat, col: nat, mcuRow: nat, y: nat, mcuCol: nat, x: nat, k: nat, b: nat)
    requires ValidScan(p, s) && ci < |s| && InMcu(p, s, ci, row, col, mcuRow, y, mcuCol, x, k, b) && s[ci] in p.comps
    requires col >= WidthInBlocks(p, s[ci])
    ensures x > 0 && col > 0 && b > 0 && InMcu(p, s, ci, row, col - 1, mcuRow, y, mcuCol, x - 1, k, b - 1)
  {
    hide WidthInBlocks, TotalRows, McusPerRow, BlocksInMcu;
    NotFirst(p, s, s[ci], col, mcuCol, x);
    MulMono(0, mcuCol, s[ci].h);
    MulMono(0, y, s[ci].h);
  }

  lemma NotFirst(p: Picture, s: Scan, c: Component, col: nat, mcuCol: nat, x: nat)
    requires ValidScan(p, s) && |s| > 1 && c in s && mcuCol < McusPerRow(p, s)
    requires col == mcuCol * c.h + x && col >= WidthInBlocks(p, c)
    ensures x > 0
  {
    Columns(p, s, c, mcuCol);
  }

  /** A block below the picture is not in the first row of its MCU. */
  lemma AboveInMcu(p: Picture, s: Scan, ci: nat, row: nat, col: nat, mcuRow: nat, y: nat, mcuCol: nat, x: nat, k: nat, b: nat)
    requires ValidScan(p, s) && ci < |s| && InMcu(p, s, ci, row, col, mcuRow, y, mcuCol, x, k, b) && s[ci] in p.comps
    requires row >= HeightInBlocks(p, s[ci])
    ensures y > 0 && row > 0 && s[ci].h > 0 && b - 1 - x >= 0
    ensures InMcu(p, s, ci, row - 1, col / s[ci].h * s[ci].h + s[ci].h - 1, mcuRow, y - 1, mcuCol, s[ci].h - 1, k, b - 1 - x)
  {
    Rows(p, s, s[ci], mcuRow);
    hide HeightInBlocks, LastRowHeight, TotalRows, McusPerRow, BlocksInMcu;
    var c := s[ci];
    MulDistributes(y - 1, 1, c.h);
    DivUnique(col, mcuCol, c.h, x);
  }

  /** Block b of an MCU, for the place (row, col): below the picture and beyond its right edge all AC entries are zero,
      and the DC value is that of the last block of the row above in the MCU, or that of the block to the left. All
      other blocks are those of the picture. */
  ghost predicate Completed(p: Picture, dct: Dct, c: Component, row: nat, col: nat, mcuRow: nat, y: nat, x: nat,
      mcu: Mcu, b: nat)
    requires ValidPicture(p)
  {
    b < |mcu|
    && if row >= HeightInBlocks(p, c) then
         b - 1 - x >= 0 && mcu[b][0] == mcu[b - 1 - x][0] && forall j :: 0 < j < 64 ==> mcu[b][j] == 0
       else if col >= WidthInBlocks(p, c) then
         x > 0 && b > 0 && mcu[b][0] == mcu[b - 1][0] && forall j :: 0 < j < 64 ==> mcu[b][j] == 0
       else mcu[b] == dct(c.index, mcuRow, y * c.dctV, col * c.dctH)
  }

  /** Every block of an interleaved scan. */
  lemma BlockIs(p: Picture, dct: Dct, s: Scan, ci: nat, row: nat, col: nat, mcuRow: nat, y: nat, mcuCol: nat, x: nat, k: nat,
      b: nat)
    requires ValidScan(p, s) && ci < |s| && InMcu(p, s, ci, row, col, mcuRow, y, mcuCol, x, k, b) && s[ci] in p.comps
    ensures k < |AllMcus(p, dct, s)| && Completed(p, dct, s[ci], row, col, mcuRow, y, x, AllMcus(p, dct, s)[k], b)
  {
    hide AllMcus, InMcu, WidthInBlocks, HeightInBlocks, RealBlock, Padded;
    var c := s[ci];
    BlockIsPadded(p, dct, s, ci, row, col, mcuRow, y, mcuCol, x, k, b);
    if row >= HeightInBlocks(p, c) {
      AboveInMcu(p, s, ci, row, col, mcuRow, y, mcuCol, x, k, b);
      BlockIsPadded(p, dct, s, ci, row - 1, col / c.h * c.h + c.h - 1, mcuRow, y - 1, mcuCol, c.h - 1, k, b - 1 - x);
      PaddedIs(p, dct, c, row, col);
    } else if col >= WidthInBlocks(p, c) {
      LeftInMcu(p, s, ci, row, col, mcuRow, y, mcuCol, x, k, b);
      BlockIsPadded(p, dct, s, ci, row, col - 1, mcuRow, y, mcuCol, x - 1, k, b - 1);
      PaddedIs(p, dct, c, row, col);
    } else {
      RealAt(p, dct, c, row, col);
      RealInMcu(p, dct, s, ci, row, col, mcuRow, y, mcuCol, x, k, b);
    }
  }

  lemma RealInMcu(p: Picture, dct: Dct, s: Scan, ci: nat, row: nat, col: nat, mcuRow: nat, y: nat, mcuCol: nat, x: nat, k: nat,
      b: nat)
    requires ValidScan(p, s) && ci < |s| && InMcu(p, s, ci, row, col, mcuRow, y, mcuCol, x, k, b) && s[ci].v > 0
    ensures RealBlock(dct, s[ci], row, col) == dct(s[ci].index, mcuRow, y * s[ci].dctV, col * s[ci].dctH)
  {
    hide RealBlock, TotalRows, McusPerRow, BlocksInMcu;
    RealPlace(dct, s[ci], mcuRow, y, col);
  }

  /** The same for every block that a controller has handed over to its entropy coder. */
  lemma AcceptedBlock(a: CoefController, ci: nat, row: nat, col: nat, mcuRow: nat, y: nat, mcuCol: nat, x: nat, k: nat, b: nat)
    requires a.Valid() && ci < |a.s| && InMcu(a.p, a.s, ci, row, col, mcuRow, y, mcuCol, x, k, b) && k < |a.sink.accepted|
    ensures Completed(a.p, a.dct, a.s[ci], row, col, mcuRow, y, x, a.sink.accepted[k], b)
  {
    hide CoefController.Valid, AllMcus, InMcu, Completed, TotalRows;
    assert ValidScan(a.p, a.s) by { ValidController(a); }
    SameMcus(a, a);
    assert a.s[ci] in a.p.comps;
    BlockIs(a.p, a.dct, a.s, ci, row, col, mcuRow, y, mcuCol, x, k, b);
    assert a.sink.accepted[k] == AllMcus(a.p, a.dct, a.s)[k];
  }

  lemma ValidController(a: CoefController)
    requires a.Valid()
    ensures ValidScan(a.p, a.s)
  {
  }

  // ---- Sizes ----

  /** The blocks of a component cover its samples, with no block to spare; so do MCUs of all components. */
  lemma SizesCover(p: Picture, s: Scan, ci: nat)
    requires ValidScan(p, s) && ci < |s|
    ensures s[ci] in p.comps
    ensures var w, d := WidthInBlocks(p, s[ci]), p.maxH * p.blockSize; (w - 1) * d < p.width * s[ci].h <= w * d
    ensures var h, d := HeightInBlocks(p, s[ci]), p.maxV * p.blockSize; (h - 1) * d < p.height * s[ci].v <= h * d
    ensures var n, d := TotalRows(p), p.maxV * p.blockSize; (n - 1) * d < p.height <= n * d
    ensures |s| > 1 ==> var n, d := McusPerRow(p, s), p.maxH * p.blockSize; (n - 1) * d < p.width <= n * d
    ensures |s| == 1 ==> McusPerRow(p, s) == WidthInBlocks(p, s[0])
  {
    var c := s[ci];
    assert c in p.comps;
    MulMono(1, p.width, c.h);
    MulMono(1, p.height, c.v);
    DivUpBounds(p.width * c.h, p.maxH * p.blockSize);
    DivUpBounds(p.height * c.v, p.maxV * p.blockSize);
    DivUpBounds(p.height, p.maxV * p.blockSize);
    DivUpBounds(p.width, p.maxH * p.blockSize);
  }
}
